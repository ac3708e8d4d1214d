/**
 * Repair, validation and parsing of one chat answer of the Groq translator:
 * `assert_valid_answer` and the nested `parse_response` of
 * translation/groq_translator.py, and what one pass of the retry loop in
 * `send_sentences_to_api` does with one answer.
 */
module GroqAnswer {
  import opened Common
  import opened Strings

  /** A brace-repaired answer shorter than this raises `InvalidAnswer`. */
  const MinAnswerLength := 100
  /** `parse_response` wants exactly this many sentences ... */
  const SentencesPerAnswer := 5
  /** ... each strictly longer than this. */
  const MinSentenceLength := 10

  datatype AnswerError =
    | EmptyAnswer    // `answer[-1]` raises IndexError, which the retry loop does not catch
    | InvalidAnswer

  /** The repaired answer, and whether a repair was made (the original answer is then logged). */
  datatype CheckedAnswer = CheckedAnswer(answer: string, foundError: bool)

  // ---------------------------------------------------------------------
  // assert_valid_answer
  // ---------------------------------------------------------------------

  /** First repair: an answer that does not end with `}` is cut just after its
      first `}`, or, when it holds none, has its last character replaced by `}`. */
  function RepairEnd(a: string): (r: string)
    requires a != []
    ensures r != [] && r[|r| - 1] == '}' && |r| <= |a|
    ensures a[|a| - 1] == '}' ==> r == a
    ensures a[|a| - 1] != '}' && '}' in a ==> r == a[..|r|] && '}' !in r[..|r| - 1]
    ensures '}' !in a ==> |r| == |a| && r[..|r| - 1] == a[..|a| - 1]
  {
    if a[|a| - 1] != '}' then
      if '}' !in a then a[..|a| - 1] + "}"
      else
        // `find` cannot return -1 here, so the guard on it always holds
        a[..Find(a, '}') + 1]
    else a
  }

  /** Second repair: an answer that does not start with `{` is cut just before
      its first `{`, or, when it holds none, has its first character replaced by `{`. */
  function RepairStart(a: string): (r: string)
    requires a != []
    ensures r != [] && r[0] == '{' && |r| <= |a|
    ensures a[0] == '{' ==> r == a
    ensures a[0] != '{' && '{' in a ==> r == a[|a| - |r|..] && '{' !in a[..|a| - |r|]
    ensures '{' !in a ==> |r| == |a| && r[1..] == a[1..]
    ensures |a| > 1 ==> r[|r| - 1] == a[|a| - 1]
  {
    if a[0] != '{' then
      if '{' !in a then "{" + a[1..]
      else a[Find(a, '{')..]
    else a
  }

  /** The answer after both brace repairs: what the length gate measures. */
  function BraceRepaired(a: string): string
    requires a != []
  {
    RepairStart(RepairEnd(a))
  }

  /** The answer after brace repair, `strip()` and removal of every `\n`. */
  function Flattened(a: string): string
    requires a != []
  {
    ReplaceAll(Strip(BraceRepaired(a), Whitespace), "\n", "")
  }

  /** Whether either brace repair had to change the answer. */
  predicate BracesRepaired(a: string)
    requires a != []
  {
    a[|a| - 1] != '}' || RepairEnd(a)[0] != '{'
  }

  /** Every `\'` replaced by `'`, when there is one. */
  function Unescape(flat: string): string {
    if Contains(flat, "\\'") then ReplaceAll(flat, "\\'", "'") else flat
  }

  /** `re.match(r"{,|,{|,}|},", s)`: the first alternative found at the start of `s`. */
  function MatchAtStart(s: string): (m: Option<string>)
    ensures m.Some? <==> |s| >= 2 && s[..2] in {"{,", ",{", ",}", "},"}
    ensures m.Some? ==> m.value == s[..2]
  {
    if |s| < 2 then None
    else if s[..2] == "{," then Some("{,")
    else if s[..2] == ",{" then Some(",{")
    else if s[..2] == ",}" then Some(",}")
    else if s[..2] == "}," then Some("},")
    else None
  }

  /** The matched text, with its commas stripped, replaces each of its occurrences. */
  function CollapseMatch(u: string): string {
    match MatchAtStart(u)
    case Some(m) => ReplaceAll(u, m, Strip(m, {','}))
    case None => u
  }

  /** `assert_valid_answer`: repairs the answer's braces, rejects it when it is
      then shorter than 100 characters, strips it, removes every newline,
      un-escapes `\'` and collapses a leading `{,`. */
  function AssertValidAnswer(answer: string): (r: Result<CheckedAnswer, AnswerError>)
    ensures r == Err(EmptyAnswer) <==> answer == []
    ensures r == Err(InvalidAnswer) <==> answer != [] && |BraceRepaired(answer)| < MinAnswerLength
  {
    if answer == [] then Err(EmptyAnswer)
    else if |BraceRepaired(answer)| < MinAnswerLength then Err(InvalidAnswer)
    else
      var flat := Flattened(answer);
      var unescaped := Unescape(flat);
      var foundError := BracesRepaired(answer) || Contains(flat, "\\'") || MatchAtStart(unescaped).Some?;
      Ok(CheckedAnswer(CollapseMatch(unescaped), foundError))
  }

  lemma StripBraceComma()
    ensures Strip("{,", {','}) == "{"
  {
    assert StripLeft("{,", {','}) == "{,";
    assert "{,"[..1] == "{";
    assert StripRight("{", {','}) == "{";
  }

  /** Only the `{,` alternative can match an answer that starts with `{`. */
  lemma OnlyLeadingBraceCommaMatches(s: string)
    requires s != [] && s[0] == '{'
    ensures MatchAtStart(s).Some? <==> |s| >= 2 && s[..2] == "{,"
    ensures CollapseMatch(s) == if |s| >= 2 && s[..2] == "{," then ReplaceAll(s, "{,", "{") else s
  {
    if |s| >= 2 {
      var p := s[..2];
      assert p[0] == '{';
      assert p != ",{" && p != ",}" && p != "},";
      if p == "{," {
        StripBraceComma();
      }
    }
  }

  /** A text that starts with `{` and ends with `}`. */
  predicate Braced(s: string) {
    s != [] && s[0] == '{' && s[|s| - 1] == '}'
  }

  /** Both brace repairs together leave `{` first and `}` last. */
  lemma BraceRepairedEnds(a: string)
    requires a != [] && |BraceRepaired(a)| >= 2
    ensures Braced(BraceRepaired(a))
  {
    var e := RepairEnd(a);
    assert |e| >= |BraceRepaired(a)|;
  }

  lemma FlattenKeepsBraces(b: string)
    requires |b| >= 2 && Braced(b)
    ensures Braced(ReplaceAll(Strip(b, Whitespace), "\n", ""))
  {
    StripUnchanged(b, Whitespace);
    ReplaceKeepsHead(b, "\n", "");
    ReplaceKeepsLast(b, "\n", "");
  }

  lemma UnescapeKeepsBraces(f: string)
    requires Braced(f)
    ensures Braced(Unescape(f))
  {
    if Contains(f, "\\'") {
      ReplaceKeepsHead(f, "\\'", "'");
      ReplaceKeepsLast(f, "\\'", "'");
    }
  }

  lemma CollapseKeepsBraces(u: string)
    requires Braced(u)
    ensures Braced(CollapseMatch(u))
  {
    OnlyLeadingBraceCommaMatches(u);
    if |u| >= 2 && u[..2] == "{," {
      ReplacePairHead(u, '{', ',');
      ReplaceKeepsLast(u, "{,", "{");
    }
  }

  /** After the length gate, the flattened and the un-escaped answer start with `{` and end with `}`. */
  lemma FlattenedIsBraced(a: string)
    requires a != [] && |BraceRepaired(a)| >= MinAnswerLength
    ensures Braced(Flattened(a)) && Braced(Unescape(Flattened(a)))
  {
    var b := BraceRepaired(a);
    BraceRepairedEnds(a);
    FlattenKeepsBraces(b);
    var f := Flattened(a);
    UnescapeKeepsBraces(f);
  }

  /** Every accepted answer starts with `{` and ends with `}`. */
  lemma ValidAnswerIsBraced(a: string)
    requires AssertValidAnswer(a).Ok?
    ensures Braced(AssertValidAnswer(a).value.answer)
  {
    FlattenedIsBraced(a);
    CollapseKeepsBraces(Unescape(Flattened(a)));
  }

  /** No accepted answer holds a newline. */
  lemma {:induction false} ValidAnswerHasNoNewline(a: string)
    requires AssertValidAnswer(a).Ok?
    ensures '\n' !in AssertValidAnswer(a).value.answer
  {
    FlattenedIsBraced(a);
    var f := Flattened(a);
    ReplaceRemovesChar(Strip(BraceRepaired(a), Whitespace), "\n", "");
    if Contains(f, "\\'") {
      ReplaceKeepsOut(f, "\\'", "'", '\n');
    }
    var u := Unescape(f);
    OnlyLeadingBraceCommaMatches(u);
    if |u| >= 2 && u[..2] == "{," {
      ReplaceKeepsOut(u, "{,", "{", '\n');
    }
  }

  /** No accepted answer holds `\'`, provided the flattened answer held no `\\'`:
      the un-escaping is one left-to-right pass. */
  lemma {:induction false} ValidAnswerHasNoEscapedQuote(a: string)
    requires AssertValidAnswer(a).Ok?
    requires !Contains(Flattened(a), "\\\\'")
    ensures !Contains(AssertValidAnswer(a).value.answer, "\\'")
  {
    FlattenedIsBraced(a);
    var f := Flattened(a);
    var u := Unescape(f);
    ContainsTriple(f, '\\', '\\', '\'');
    ContainsPair(f, '\\', '\'');
    if Contains(f, "\\'") {
      UnescapeLeavesNoPair(f, '\\', '\'');
    }
    assert NoPair(u, '\\', '\'');
    OnlyLeadingBraceCommaMatches(u);
    if |u| >= 2 && u[..2] == "{," {
      CollapseKeepsNoPair(u, '{', ',', '\\', '\'');
    }
    ContainsPair(AssertValidAnswer(a).value.answer, '\\', '\'');
  }

  lemma CharAbsent(s: string, c: char)
    requires c !in s
    ensures !Contains(s, [c])
  {
    forall i | 0 <= i <= |s| - 1
      ensures !OccursAt(s, [c], i)
    {
      assert s[i..i + 1][0] == s[i];
    }
  }

  /** Un-escaping `\\'` at the head of an otherwise plain text leaves `\'`. */
  lemma UnescapeEscapedBackslash(tail: string)
    requires !Contains(tail, "\\'")
    ensures ReplaceAll("{\\\\'" + tail, "\\'", "'") == "{\\'" + tail
  {
    UnescapeBackslashHead(tail);
    var b := "\\\\'" + tail;
    assert "{\\\\'" + tail == ['{'] + b;
    assert (['{'] + b)[..2] != "\\'" by { assert (['{'] + b)[0] == '{'; }
    ReplaceSkipStep(['{'] + b, "\\'", "'");
    assert (['{'] + b)[1..] == b;
    assert "{\\'" + tail == ['{'] + ("\\'" + tail);
  }

  lemma UnescapeBackslashHead(tail: string)
    requires !Contains(tail, "\\'")
    ensures ReplaceAll("\\\\'" + tail, "\\'", "'") == "\\'" + tail
  {
    UnescapeQuoteHead(tail);
    var b := "\\\\'" + tail;
    var c := "\\'" + tail;
    assert b[..2] != "\\'" by { assert b[1] == '\\'; }
    ReplaceSkipStep(b, "\\'", "'");
    assert b[1..] == c;
    assert "\\'" + tail == ['\\'] + ("'" + tail);
  }

  lemma UnescapeQuoteHead(tail: string)
    requires !Contains(tail, "\\'")
    ensures ReplaceAll("\\'" + tail, "\\'", "'") == "'" + tail
  {
    var c := "\\'" + tail;
    ReplaceAbsent(tail, "\\'", "'");
    assert c[..2] == "\\'" && c[2..] == tail;
    ReplaceMatchStep(c, "\\'", "'");
  }


  /** A braced answer without newlines goes through repair and flattening unchanged. */
  lemma PlainAnswerIsFlat(a: string)
    requires |a| >= 2 && Braced(a) && '\n' !in a
    ensures BraceRepaired(a) == a && !BracesRepaired(a) && Flattened(a) == a
  {
    StripUnchanged(a, Whitespace);
    CharAbsent(a, '\n');
    ReplaceAbsent(a, "\n", "");
  }

  lemma NoBackslashNoEscape(s: string)
    requires '\\' !in s
    ensures !Contains(s, "\\'")
  {
    forall i | 0 <= i <= |s| - 2
      ensures !OccursAt(s, "\\'", i)
    {
      assert s[i..i + 2][0] == s[i];
    }
  }

  lemma EscapedQuoteAtTwo(tail: string)
    ensures Contains("{\\\\'" + tail, "\\'")
  {
    var a := "{\\\\'" + tail;
    assert a[2..4] == "\\'";
    assert OccursAt(a, "\\'", 2);
  }

  lemma NoMatchAfterBraceBackslash(tail: string)
    ensures MatchAtStart("{\\'" + tail) == None
  {
    var u := "{\\'" + tail;
    OnlyLeadingBraceCommaMatches(u);
    assert u[..2] != "{," by { assert u[..2][1] == '\\'; }
  }

  /** A plain answer holding `\'` is accepted as its un-escaping, and logged. */
  lemma PlainEscapedAnswer(a: string)
    requires |a| >= MinAnswerLength && Braced(a) && '\n' !in a && Contains(a, "\\'")
    requires MatchAtStart(Unescape(a)) == None
    ensures AssertValidAnswer(a) == Ok(CheckedAnswer(Unescape(a), true))
  {
    PlainAnswerIsFlat(a);
  }

  /** The un-escaping can leave a `\'` behind: an answer holding `\\'` is
      accepted with `\'` still in it. */
  lemma EscapedBackslashLeavesEscapedQuote(body: string)
    requires |body| >= MinAnswerLength
    requires '\\' !in body && '\n' !in body
    ensures var tail := body + "}";
      AssertValidAnswer("{\\\\'" + tail) == Ok(CheckedAnswer("{\\'" + tail, true))
  {
    var tail := body + "}";
    var a := "{\\\\'" + tail;
    assert '\\' !in tail && '\n' !in a;
    EscapedQuoteAtTwo(tail);
    NoBackslashNoEscape(tail);
    UnescapeEscapedBackslash(tail);
    NoMatchAfterBraceBackslash(tail);
    PlainEscapedAnswer(a);
  }

  /** An answer that needs no repair: nothing is logged for it. */
  predicate CleanAnswer(a: string) {
    && |a| >= MinAnswerLength
    && a[0] == '{' && a[|a| - 1] == '}'
    && var flat := ReplaceAll(a, "\n", "");
       && !Contains(flat, "\\'")
       && !(|flat| >= 2 && flat[..2] == "{,")
  }

  /** `found_error` stays false exactly for clean answers, and a clean answer
      comes back with its newlines removed and otherwise unchanged. */
  lemma {:induction false} NothingLoggedIffClean(a: string)
    ensures (AssertValidAnswer(a).Ok? && !AssertValidAnswer(a).value.foundError) <==> CleanAnswer(a)
    ensures CleanAnswer(a) ==> AssertValidAnswer(a).value.answer == ReplaceAll(a, "\n", "")
  {
    if a != [] {
      var r := AssertValidAnswer(a);
      var e := RepairEnd(a);
      var b := RepairStart(e);
      if a[0] == '{' && a[|a| - 1] == '}' {
        assert e == a && b == a;
        StripUnchanged(a, Whitespace);
        assert Flattened(a) == ReplaceAll(a, "\n", "");
        if |a| >= MinAnswerLength {
          var flat := Flattened(a);
          FlattenedIsBraced(a);
          if !Contains(flat, "\\'") {
            OnlyLeadingBraceCommaMatches(flat);
          }
        }
      } else if r.Ok? && !r.value.foundError {
        assert false;
      }
    }
  }

  /** An answer already in the shape the repairs aim at comes back unchanged and unlogged. */
  lemma {:induction false} WellFormedAnswerIsFixedPoint(a: string)
    requires |a| >= MinAnswerLength && a[0] == '{' && a[|a| - 1] == '}'
    requires '\n' !in a && !Contains(a, "\\'") && a[..2] != "{,"
    ensures AssertValidAnswer(a) == Ok(CheckedAnswer(a, false))
  {
    CharAbsent(a, '\n');
    ReplaceAbsent(a, "\n", "");
    NothingLoggedIffClean(a);
  }

  // ---------------------------------------------------------------------
  // parse_response
  // ---------------------------------------------------------------------

  datatype ParseError = JsonDecodeError | InvalidSentencesQuantity | InvalidSentenceSize

  /** `json.loads`, reduced to what `parse_response` reads: the values of the
      decoded object in key order, or `None` when the text is not JSON. */
  type Decoder = string -> Option<seq<string>>

  predicate ValidSentences(values: seq<string>) {
    |values| == SentencesPerAnswer && forall i :: 0 <= i < |values| ==> |values[i]| > MinSentenceLength
  }

  /** `parse_response`: exactly five values, each longer than ten characters,
      are accepted as they are and in order; anything else raises. */
  function ParseResponse(decoded: Option<seq<string>>): (r: Result<seq<string>, ParseError>)
    ensures r.Ok? <==> decoded.Some? && ValidSentences(decoded.value)
    ensures r.Ok? ==> r.value == decoded.value
    ensures r == Err(JsonDecodeError) <==> decoded.None?
    ensures r == Err(InvalidSentencesQuantity) <==> decoded.Some? && |decoded.value| != SentencesPerAnswer
  {
    match decoded
    case None => Err(JsonDecodeError)
    case Some(values) =>
      if |values| != SentencesPerAnswer then Err(InvalidSentencesQuantity)
      else if exists i :: 0 <= i < |values| && |values[i]| <= MinSentenceLength then Err(InvalidSentenceSize)
      else Ok(values)
  }

  // ---------------------------------------------------------------------
  // One answer inside the retry loop of send_sentences_to_api
  // ---------------------------------------------------------------------

  /** An answer with every `\"` replaced by `"`: the second chance after a JSON error. */
  function Unquote(answer: string): string {
    ReplaceAll(answer, "\\\"", "\"")
  }

  /** The two `parse_response` attempts on one validated answer: the answer as
      it is, then, only on a JSON error, its `Unquote`. `retried` says whether
      the second attempt was made (the original answer is then logged). */
  datatype Parsed = Parsed(result: Result<seq<string>, ParseError>, retried: bool)

  function ParseTwice(answer: string, decode: Decoder): (p: Parsed)
    ensures p.retried <==> decode(answer).None?
    ensures !p.retried ==> p.result == ParseResponse(decode(answer))
    ensures p.retried ==> p.result == ParseResponse(decode(Unquote(answer)))
  {
    if decode(answer).None? then Parsed(ParseResponse(decode(Unquote(answer))), true)
    else Parsed(ParseResponse(decode(answer)), false)
  }

  datatype Handled =
    | Accepted(sentences: seq<string>, logged: seq<string>)
    | Retry(logged: seq<string>)
    | Crash    // the IndexError of an empty answer leaves the loop

  /** What the retry loop does with one answer once the request is counted:
      validate it, log the original when a repair was made, parse it, and on a
      JSON error log it again and parse once more with `\"` replaced by `"`.
      `logged` lists what is appended to the invalid-answers log. */
  function HandleResponse(text: string, decode: Decoder): (h: Handled)
    ensures h.Crash? <==> text == []
    ensures AssertValidAnswer(text) == Err(InvalidAnswer) ==> h == Retry([])
    ensures h.Accepted? <==> AssertValidAnswer(text).Ok? && ParseTwice(AssertValidAnswer(text).value.answer, decode).result.Ok?
    ensures h.Accepted? ==> ValidSentences(h.sentences)
    ensures h.Accepted? ==>
      h.sentences == ParseTwice(AssertValidAnswer(text).value.answer, decode).result.value
    ensures !h.Crash? ==> h.logged == [] || h.logged == [text] || h.logged == [text, text]
    ensures AssertValidAnswer(text).Ok? ==>
      |h.logged| == (if AssertValidAnswer(text).value.foundError then 1 else 0)
                    + (if ParseTwice(AssertValidAnswer(text).value.answer, decode).retried then 1 else 0)
  {
    match AssertValidAnswer(text)
    case Err(EmptyAnswer) => Crash
    case Err(InvalidAnswer) => Retry([])
    case Ok(CheckedAnswer(answer, foundError)) =>
      var parsed := ParseTwice(answer, decode);
      var logged := if foundError && parsed.retried then [text, text]
                    else if foundError || parsed.retried then [text]
                    else [];
      match parsed.result
      case Ok(values) => Accepted(values, logged)
      case Err(_) => Retry(logged)
  }
}
