/**
 * The Python `str` operations the translators use, over ASCII: `in`,
 * `str.find`, `str.replace`, `str.strip`, `str.lower`, `str.split` and
 * `str(n)` for a non-negative integer.
 */
module Strings {

  /** The ASCII characters Python's `str.split()` and `str.strip()` treat as whitespace. */
  const Whitespace: set<char> :=
    {' ', '\t', '\n', '\U{B}', '\U{C}', '\r', '\U{1C}', '\U{1D}', '\U{1E}', '\U{1F}'}

  // ---------------------------------------------------------------------
  // Substrings
  // ---------------------------------------------------------------------

  predicate OccursAt(s: string, pat: string, i: int) {
    0 <= i && i + |pat| <= |s| && s[i..i + |pat|] == pat
  }

  /** Python's `pat in s` for strings. */
  predicate Contains(s: string, pat: string) {
    exists i :: 0 <= i <= |s| - |pat| && OccursAt(s, pat, i)
  }

  /** No position of `s` holds `a` immediately followed by `b`. */
  predicate NoPair(s: string, a: char, b: char) {
    forall i :: 0 <= i < |s| - 1 ==> !(s[i] == a && s[i + 1] == b)
  }

  /** No position of `s` holds `a`, `b`, `c` in a row. */
  predicate NoTriple(s: string, a: char, b: char, c: char) {
    forall i :: 0 <= i < |s| - 2 ==> !(s[i] == a && s[i + 1] == b && s[i + 2] == c)
  }

  lemma ContainsPair(s: string, a: char, b: char)
    ensures Contains(s, [a, b]) <==> !NoPair(s, a, b)
  {
    if Contains(s, [a, b]) {
      var i :| 0 <= i <= |s| - 2 && OccursAt(s, [a, b], i);
      assert s[i..i + 2][0] == s[i] && s[i..i + 2][1] == s[i + 1];
    }
    if !NoPair(s, a, b) {
      var i :| 0 <= i < |s| - 1 && s[i] == a && s[i + 1] == b;
      assert s[i..i + 2] == [a, b];
      assert OccursAt(s, [a, b], i);
    }
  }

  lemma ContainsTriple(s: string, a: char, b: char, c: char)
    ensures Contains(s, [a, b, c]) <==> !NoTriple(s, a, b, c)
  {
    if Contains(s, [a, b, c]) {
      var i :| 0 <= i <= |s| - 3 && OccursAt(s, [a, b, c], i);
      assert s[i..i + 3][0] == s[i] && s[i..i + 3][1] == s[i + 1] && s[i..i + 3][2] == s[i + 2];
    }
    if !NoTriple(s, a, b, c) {
      var i :| 0 <= i < |s| - 2 && s[i] == a && s[i + 1] == b && s[i + 2] == c;
      assert s[i..i + 3] == [a, b, c];
      assert OccursAt(s, [a, b, c], i);
    }
  }

  /** `s.find(c)` for a character that occurs in `s`: its first position. */
  function Find(s: string, c: char): (i: nat)
    requires c in s
    ensures i < |s| && s[i] == c && c !in s[..i]
  {
    if s[0] == c then 0
    else
      var j := Find(s[1..], c);
      assert s[..j + 1] == [s[0]] + s[1..][..j];
      j + 1
  }

  // ---------------------------------------------------------------------
  // str.replace
  // ---------------------------------------------------------------------

  /** `s.replace(pat, rep)`: every non-overlapping occurrence of `pat`,
      found scanning left to right, is replaced by `rep`. */
  function ReplaceAll(s: string, pat: string, rep: string): string
    requires pat != []
    decreases |s|
  {
    if |s| < |pat| then s
    else if s[..|pat|] == pat then rep + ReplaceAll(s[|pat|..], pat, rep)
    else [s[0]] + ReplaceAll(s[1..], pat, rep)
  }

  /** One step of `ReplaceAll` at a match of the pattern. */
  lemma ReplaceMatchStep(s: string, pat: string, rep: string)
    requires pat != [] && |s| >= |pat| && s[..|pat|] == pat
    ensures ReplaceAll(s, pat, rep) == rep + ReplaceAll(s[|pat|..], pat, rep)
  {
  }

  /** One step of `ReplaceAll` past a character that starts no match. */
  lemma ReplaceSkipStep(s: string, pat: string, rep: string)
    requires pat != [] && |s| >= |pat| && s[..|pat|] != pat
    ensures ReplaceAll(s, pat, rep) == [s[0]] + ReplaceAll(s[1..], pat, rep)
  {
  }

  /** Replacing a pattern that does not occur changes nothing. */
  lemma {:induction false} ReplaceAbsent(s: string, pat: string, rep: string)
    requires pat != [] && !Contains(s, pat)
    ensures ReplaceAll(s, pat, rep) == s
    decreases |s|
  {
    if |s| >= |pat| {
      if s[..|pat|] == pat {
        assert OccursAt(s, pat, 0);
      } else {
        if Contains(s[1..], pat) {
          var i :| 0 <= i <= |s| - 1 - |pat| && OccursAt(s[1..], pat, i);
          assert s[1..][i..i + |pat|] == s[i + 1..i + 1 + |pat|];
          assert OccursAt(s, pat, i + 1);
        }
        ReplaceAbsent(s[1..], pat, rep);
      }
    }
  }

  /** A one-character pattern is gone after the replacement when `rep` does not hold it. */
  lemma {:induction false} ReplaceRemovesChar(s: string, pat: string, rep: string)
    requires |pat| == 1 && pat[0] !in rep
    ensures pat[0] !in ReplaceAll(s, pat, rep)
    decreases |s|
  {
    if |s| >= 1 {
      if s[..1] == pat {
        ReplaceRemovesChar(s[1..], pat, rep);
      } else {
        assert s[0] != pat[0] by { assert s[..1] == [s[0]]; }
        ReplaceRemovesChar(s[1..], pat, rep);
      }
    }
  }

  /** A character in neither `s` nor `rep` is not in the replacement's result. */
  lemma {:induction false} ReplaceKeepsOut(s: string, pat: string, rep: string, c: char)
    requires pat != [] && c !in s && c !in rep
    ensures c !in ReplaceAll(s, pat, rep)
    decreases |s|
  {
    if |s| >= |pat| {
      if s[..|pat|] == pat {
        ReplaceKeepsOut(s[|pat|..], pat, rep, c);
      } else {
        ReplaceKeepsOut(s[1..], pat, rep, c);
      }
    }
  }

  /** The first character survives when `s` does not start with the pattern,
      or when the replacement starts with that same character. */
  lemma ReplaceKeepsHead(s: string, pat: string, rep: string)
    requires pat != [] && s != []
    requires |s| >= |pat| && s[..|pat|] == pat ==> rep != [] && rep[0] == s[0]
    ensures ReplaceAll(s, pat, rep) != [] && ReplaceAll(s, pat, rep)[0] == s[0]
  {
  }

  /** The last character survives when it differs from the pattern's last character. */
  lemma {:induction false} ReplaceKeepsLast(s: string, pat: string, rep: string)
    requires pat != [] && s != [] && s[|s| - 1] != pat[|pat| - 1]
    ensures var r := ReplaceAll(s, pat, rep); r != [] && r[|r| - 1] == s[|s| - 1]
    decreases |s|
  {
    if |s| >= |pat| {
      if s[..|pat|] == pat {
        assert s[|pat|..][|s| - |pat| - 1] == s[|s| - 1];
        ReplaceKeepsLast(s[|pat|..], pat, rep);
      } else if |s| > 1 {
        assert s[1..][|s| - 2] == s[|s| - 1];
        ReplaceKeepsLast(s[1..], pat, rep);
      }
    }
  }

  /** Replacing `[x, y]` by `[x]` keeps the first character (when there is one). */
  lemma ReplacePairHead(s: string, x: char, y: char)
    requires s != []
    ensures ReplaceAll(s, [x, y], [x]) != [] && ReplaceAll(s, [x, y], [x])[0] == s[0]
  {
    if |s| >= 2 && s[..2] == [x, y] {
      assert s[0] == s[..2][0];
    }
    ReplaceKeepsHead(s, [x, y], [x]);
  }

  /** Un-escaping `a b` to `b` leaves no `a b` behind, unless `s` held `a a b`. */
  lemma {:induction false} UnescapeLeavesNoPair(s: string, a: char, b: char)
    requires a != b && NoTriple(s, a, a, b)
    ensures NoPair(ReplaceAll(s, [a, b], [b]), a, b)
    decreases |s|
  {
    var r := ReplaceAll(s, [a, b], [b]);
    if |s| >= 2 {
      if s[..2] == [a, b] {
        var t := s[2..];
        assert NoTriple(t, a, a, b) by {
          forall i | 0 <= i < |t| - 2 ensures !(t[i] == a && t[i + 1] == a && t[i + 2] == b) {
            assert t[i] == s[i + 2] && t[i + 1] == s[i + 3] && t[i + 2] == s[i + 4];
          }
        }
        UnescapeLeavesNoPair(t, a, b);
        assert r == [b] + ReplaceAll(t, [a, b], [b]);
      } else {
        var t := s[1..];
        assert NoTriple(t, a, a, b) by {
          forall i | 0 <= i < |t| - 2 ensures !(t[i] == a && t[i + 1] == a && t[i + 2] == b) {
            assert t[i] == s[i + 1] && t[i + 1] == s[i + 2] && t[i + 2] == s[i + 3];
          }
        }
        UnescapeLeavesNoPair(t, a, b);
        var rt := ReplaceAll(t, [a, b], [b]);
        assert r == [s[0]] + rt;
        // the new neighbour of s[0] is the head of rt
        if s[0] == a {
          assert s[1] != b by { assert s[..2] == [s[0], s[1]]; }
          assert !(|t| >= 2 && t[..2] == [a, b]) by {
            if |t| >= 2 {
              assert t[..2] == [t[0], t[1]] && t[0] == s[1] && t[1] == s[2];
              assert !(s[0] == a && s[1] == a && s[2] == b);
            }
          }
          ReplaceKeepsHead(t, [a, b], [b]);
          assert rt[0] == t[0] == s[1];
        }
      }
    }
  }

  /** Replacing `[x, y]` by `[x]` creates no `a b` pair when `x` is not `a`. */
  lemma {:induction false} CollapseKeepsNoPair(s: string, x: char, y: char, a: char, b: char)
    requires x != a && NoPair(s, a, b)
    ensures NoPair(ReplaceAll(s, [x, y], [x]), a, b)
    decreases |s|
  {
    var r := ReplaceAll(s, [x, y], [x]);
    if |s| >= 2 {
      if s[..2] == [x, y] {
        var t := s[2..];
        assert NoPair(t, a, b) by {
          forall i | 0 <= i < |t| - 1 ensures !(t[i] == a && t[i + 1] == b) {
            assert t[i] == s[i + 2] && t[i + 1] == s[i + 3];
          }
        }
        CollapseKeepsNoPair(t, x, y, a, b);
        assert r == [x] + ReplaceAll(t, [x, y], [x]);
      } else {
        var t := s[1..];
        assert NoPair(t, a, b) by {
          forall i | 0 <= i < |t| - 1 ensures !(t[i] == a && t[i + 1] == b) {
            assert t[i] == s[i + 1] && t[i + 1] == s[i + 2];
          }
        }
        CollapseKeepsNoPair(t, x, y, a, b);
        var rt := ReplaceAll(t, [x, y], [x]);
        assert r == [s[0]] + rt;
        ReplacePairHead(t, x, y);
        assert rt[0] == s[1];
      }
    }
  }

  // ---------------------------------------------------------------------
  // str.strip, str.lower, str.split
  // ---------------------------------------------------------------------

  function StripLeft(s: string, chars: set<char>): (r: string)
    ensures |r| <= |s| && r == s[|s| - |r|..]
    ensures forall i :: 0 <= i < |s| - |r| ==> s[i] in chars
    ensures r != [] ==> r[0] !in chars
    decreases |s|
  {
    if s != [] && s[0] in chars then StripLeft(s[1..], chars) else s
  }

  function StripRight(s: string, chars: set<char>): (r: string)
    ensures |r| <= |s| && r == s[..|r|]
    ensures forall i :: |r| <= i < |s| ==> s[i] in chars
    ensures r != [] ==> r[|r| - 1] !in chars
    decreases |s|
  {
    if s != [] && s[|s| - 1] in chars then StripRight(s[..|s| - 1], chars) else s
  }

  /** `r` is `s` with a prefix of length `a` and a suffix, both made of
      `chars`, dropped. */
  predicate TrimmedAt(s: string, r: string, a: nat, chars: set<char>) {
    a + |r| <= |s| && r == s[a..a + |r|]
    && (forall i :: 0 <= i < a ==> s[i] in chars)
    && (forall i :: a + |r| <= i < |s| ==> s[i] in chars)
  }

  /** `s.strip(chars)`: the longest prefix and suffix made of `chars` are dropped. */
  function Strip(s: string, chars: set<char>): (r: string)
    ensures r != [] ==> r[0] !in chars && r[|r| - 1] !in chars
    ensures r == [] <==> forall i :: 0 <= i < |s| ==> s[i] in chars
  {
    var l := StripLeft(s, chars);
    var r := StripRight(l, chars);
    StripParts(s, chars, l, r);
    r
  }

  /** `s.strip(chars)` is a stretch of `s`: what it drops before and after
      that stretch is made of `chars`. */
  lemma StripTrims(s: string, chars: set<char>)
    ensures exists a :: TrimmedAt(s, Strip(s, chars), a, chars)
  {
    var l := StripLeft(s, chars);
    var r := StripRight(l, chars);
    assert Strip(s, chars) == r;
    StripParts(s, chars, l, r);
    assert TrimmedAt(s, r, |s| - |l|, chars);
  }

  lemma StripParts(s: string, chars: set<char>, l: string, r: string)
    requires |l| <= |s| && l == s[|s| - |l|..] && (l != [] ==> l[0] !in chars)
    requires forall i :: 0 <= i < |s| - |l| ==> s[i] in chars
    requires |r| <= |l| && r == l[..|r|] && (r != [] ==> r[|r| - 1] !in chars)
    requires forall i :: |r| <= i < |l| ==> l[i] in chars
    ensures TrimmedAt(s, r, |s| - |l|, chars)
    ensures r != [] ==> r[0] !in chars && r[|r| - 1] !in chars
    ensures r == [] <==> forall i :: 0 <= i < |s| ==> s[i] in chars
  {
    var a := |s| - |l|;
    assert l == s[a..] && r == l[..|r|];
    assert r == s[a..a + |r|];
    forall i | a + |r| <= i < |s|
      ensures s[i] in chars
    {
      assert s[i] == l[i - a];
    }
    assert r != [] ==> r[0] == s[a];
  }

  /** A string whose two ends are outside `chars` is its own strip. */
  lemma StripUnchanged(s: string, chars: set<char>)
    requires s != [] && s[0] !in chars && s[|s| - 1] !in chars
    ensures Strip(s, chars) == s
  {
  }

  predicate IsUpper(c: char) {
    'A' <= c <= 'Z'
  }

  function LowerChar(c: char): char {
    if IsUpper(c) then (c as int + 32) as char else c
  }

  /** `s.lower()` on ASCII letters; every other character is kept. */
  function Lower(s: string): (r: string)
    ensures |r| == |s|
    ensures forall i :: 0 <= i < |r| ==> !IsUpper(r[i])
    ensures forall i :: 0 <= i < |r| && !IsUpper(s[i]) ==> r[i] == s[i]
  {
    seq(|s|, i requires 0 <= i < |s| => LowerChar(s[i]))
  }

  /** `lower` turns each upper-case ASCII letter into the letter 32 code
      points above it, its lower-case form. */
  lemma LowerLetters(s: string)
    ensures forall i :: 0 <= i < |s| && IsUpper(s[i]) ==> Lower(s)[i] as int == s[i] as int + 32
  {
  }

  /** The longest prefix of `s` free of whitespace. */
  function Word(s: string): (w: string)
    ensures |w| <= |s| && w == s[..|w|]
    ensures forall i :: 0 <= i < |w| ==> w[i] !in Whitespace
    ensures |w| < |s| ==> s[|w|] in Whitespace
    ensures s != [] && s[0] !in Whitespace ==> w != []
  {
    if s == [] || s[0] in Whitespace then [] else [s[0]] + Word(s[1..])
  }

  predicate IsToken(w: string) {
    w != [] && forall i :: 0 <= i < |w| ==> w[i] !in Whitespace
  }

  /** `s.split()`: the maximal runs of non-whitespace characters, in order. */
  function Split(s: string): (words: seq<string>)
    ensures forall k :: 0 <= k < |words| ==> IsToken(words[k])
    decreases |s|
  {
    if s == [] then []
    else if s[0] in Whitespace then Split(s[1..])
    else
      var w := Word(s);
      [w] + Split(s[|w|..])
  }

  function Concat(words: seq<string>): string {
    if words == [] then [] else words[0] + Concat(words[1..])
  }

  /** `s` with every whitespace character deleted. */
  function RemoveSpaces(s: string): string {
    if s == [] then []
    else (if s[0] in Whitespace then [] else [s[0]]) + RemoveSpaces(s[1..])
  }

  lemma {:induction false} RemoveSpacesAppend(a: string, b: string)
    ensures RemoveSpaces(a + b) == RemoveSpaces(a) + RemoveSpaces(b)
    decreases |a|
  {
    if a != [] {
      assert (a + b)[1..] == a[1..] + b;
      RemoveSpacesAppend(a[1..], b);
    } else {
      assert a + b == b;
    }
  }

  lemma {:induction false} RemoveSpacesOfToken(w: string)
    requires forall i :: 0 <= i < |w| ==> w[i] !in Whitespace
    ensures RemoveSpaces(w) == w
    decreases |w|
  {
    if w != [] {
      RemoveSpacesOfToken(w[1..]);
    }
  }

  /** `split()` loses exactly the whitespace: its words, glued back together,
      are the input with every whitespace character removed. */
  lemma {:induction false} SplitConcat(s: string)
    ensures Concat(Split(s)) == RemoveSpaces(s)
    decreases |s|
  {
    if s != [] {
      if s[0] in Whitespace {
        SplitConcat(s[1..]);
      } else {
        var w := Word(s);
        var rest := s[|w|..];
        assert s == w + rest;
        SplitConcat(rest);
        RemoveSpacesAppend(w, rest);
        RemoveSpacesOfToken(w);
        assert Split(s) == [w] + Split(rest);
        assert Concat(Split(s)) == w + Concat(Split(rest));
      }
    }
  }

  /** Every character of every word of `s.split()` is a character of `s`. */
  lemma {:induction false} SplitKeepsChars(s: string)
    ensures forall k, j :: 0 <= k < |Split(s)| && 0 <= j < |Split(s)[k]| ==> Split(s)[k][j] in s
    decreases |s|
  {
    if s != [] {
      if s[0] in Whitespace {
        SplitKeepsChars(s[1..]);
        assert forall c :: c in s[1..] ==> c in s;
      } else {
        var w := Word(s);
        var rest := s[|w|..];
        SplitKeepsChars(rest);
        assert Split(s) == [w] + Split(rest);
        assert forall c :: c in rest ==> c in s;
        assert forall c :: c in w ==> c in s;
      }
    }
  }

  function Shift(xs: seq<nat>, d: nat): seq<nat> {
    seq(|xs|, i requires 0 <= i < |xs| => xs[i] + d)
  }

  /** Where each word of `Split(s)` begins in `s`. */
  function SplitStarts(s: string): (st: seq<nat>)
    ensures |st| == |Split(s)|
    decreases |s|
  {
    if s == [] then []
    else if s[0] in Whitespace then Shift(SplitStarts(s[1..]), 1)
    else
      var w := Word(s);
      [0] + Shift(SplitStarts(s[|w|..]), |w|)
  }

  /** `v` is the stretch of `s` starting at `a`, with whitespace or an end of
      `s` on either side: a run that cannot be extended. */
  predicate WordAt(s: string, v: string, a: nat) {
    a + |v| <= |s| && s[a..a + |v|] == v
    && (a > 0 ==> s[a - 1] in Whitespace)
    && (a + |v| < |s| ==> s[a + |v|] in Whitespace)
  }

  /** Each `ws[k]` sits in `s` at `st[k]`, as a run that cannot be extended. */
  predicate WordsAt(s: string, ws: seq<string>, st: seq<nat>) {
    |st| == |ws| && forall k :: 0 <= k < |ws| ==> WordAt(s, ws[k], st[k])
  }

  /** The words sit in `s` in order, at least one character apart. */
  predicate Apart(ws: seq<string>, st: seq<nat>)
    requires |st| == |ws|
  {
    forall k :: 0 <= k < |ws| - 1 ==> st[k] + |ws[k]| < st[k + 1]
  }

  /** Every non-whitespace character of `s` lies inside some word. */
  predicate Covers(s: string, ws: seq<string>, st: seq<nat>)
    requires |st| == |ws|
  {
    forall i :: 0 <= i < |s| && s[i] !in Whitespace ==>
      exists k :: 0 <= k < |ws| && st[k] <= i < st[k] + |ws[k]|
  }

  lemma WordsAtAfterSpace(c: char, t: string, ws: seq<string>, st: seq<nat>)
    requires c in Whitespace && WordsAt(t, ws, st)
    ensures WordsAt([c] + t, ws, Shift(st, 1))
  {
    var s, st' := [c] + t, Shift(st, 1);
    forall k | 0 <= k < |ws|
      ensures WordAt(s, ws[k], st'[k])
    {
      var a, v := st[k], ws[k];
      assert WordAt(t, v, a);
      assert s[a + 1..a + 1 + |v|] == t[a..a + |v|];
      assert a > 0 ==> s[a] == t[a - 1];
      assert a + |v| < |t| ==> s[a + 1 + |v|] == t[a + |v|];
    }
  }

  lemma CoversAfterSpace(c: char, t: string, ws: seq<string>, st: seq<nat>)
    requires c in Whitespace && |st| == |ws| && Covers(t, ws, st)
    ensures Covers([c] + t, ws, Shift(st, 1))
  {
    var s, st' := [c] + t, Shift(st, 1);
    forall i | 0 <= i < |s| && s[i] !in Whitespace
      ensures exists k :: 0 <= k < |ws| && st'[k] <= i < st'[k] + |ws[k]|
    {
      assert t[i - 1] == s[i];
      var k :| 0 <= k < |ws| && st[k] <= i - 1 < st[k] + |ws[k]|;
      assert st'[k] <= i < st'[k] + |ws[k]|;
    }
  }

  /** One word of `t`, seen from `w + t`. */
  lemma WordAtAfterWord(w: string, t: string, v: string, a: nat)
    requires 0 < a && WordAt(t, v, a)
    ensures WordAt(w + t, v, a + |w|)
  {
    var s := w + t;
    assert s[a + |w|..a + |w| + |v|] == t[a..a + |v|];
    assert s[a + |w| - 1] == t[a - 1];
    assert a + |v| < |t| ==> s[a + |w| + |v|] == t[a + |v|];
  }

  lemma WordsAtAfterWord(w: string, t: string, ws: seq<string>, st: seq<nat>)
    requires IsToken(w) && (t == [] || t[0] in Whitespace)
    requires forall k :: 0 <= k < |st| ==> st[k] > 0
    requires WordsAt(t, ws, st)
    ensures WordsAt(w + t, [w] + ws, [0] + Shift(st, |w|))
  {
    var s, ws', st' := w + t, [w] + ws, [0] + Shift(st, |w|);
    assert s[0..|w|] == w;
    assert |w| < |s| ==> s[|w|] == t[0];
    assert WordAt(s, ws'[0], st'[0]);
    forall k | 1 <= k < |ws'|
      ensures WordAt(s, ws'[k], st'[k])
    {
      var a, v := st[k - 1], ws[k - 1];
      assert st'[k] == a + |w| && ws'[k] == v;
      WordAtAfterWord(w, t, v, a);
    }
  }

  lemma ApartAfterWord(w: string, t: string, ws: seq<string>, st: seq<nat>)
    requires w != [] && |st| == |ws|
    requires forall k :: 0 <= k < |st| ==> st[k] > 0
    requires Apart(ws, st)
    ensures Apart([w] + ws, [0] + Shift(st, |w|))
  {
  }

  lemma CoversAfterWord(w: string, t: string, ws: seq<string>, st: seq<nat>)
    requires |st| == |ws| && Covers(t, ws, st)
    ensures Covers(w + t, [w] + ws, [0] + Shift(st, |w|))
  {
    var s, ws', st' := w + t, [w] + ws, [0] + Shift(st, |w|);
    forall i | 0 <= i < |s| && s[i] !in Whitespace
      ensures exists k :: 0 <= k < |ws'| && st'[k] <= i < st'[k] + |ws'[k]|
    {
      if i < |w| {
        assert st'[0] <= i < st'[0] + |ws'[0]|;
      } else {
        assert t[i - |w|] == s[i];
        var k :| 0 <= k < |ws| && st[k] <= i - |w| < st[k] + |ws[k]|;
        assert st'[k + 1] <= i < st'[k + 1] + |ws'[k + 1]|;
      }
    }
  }

  /** `s.split()` returns exactly the maximal runs of non-whitespace in `s`,
      in order: each word is such a run (`WordsAt`), the words are apart and
      ordered (`Apart`), and no non-whitespace character is left out of them
      (`Covers`). */
  lemma {:induction false} SplitRuns(s: string)
    ensures WordsAt(s, Split(s), SplitStarts(s))
    ensures Apart(Split(s), SplitStarts(s)) && Covers(s, Split(s), SplitStarts(s))
    decreases |s|
  {
    if s != [] {
      if s[0] in Whitespace {
        var t := s[1..];
        SplitRuns(t);
        assert s == [s[0]] + t;
        WordsAtAfterSpace(s[0], t, Split(t), SplitStarts(t));
        CoversAfterSpace(s[0], t, Split(t), SplitStarts(t));
      } else {
        var w := Word(s);
        var rest := s[|w|..];
        SplitRuns(rest);
        assert s == w + rest;
        assert rest != [] ==> SplitStarts(rest) == Shift(SplitStarts(rest[1..]), 1);
        WordsAtAfterWord(w, rest, Split(rest), SplitStarts(rest));
        ApartAfterWord(w, rest, Split(rest), SplitStarts(rest));
        CoversAfterWord(w, rest, Split(rest), SplitStarts(rest));
      }
    }
  }

  /** Joins words with one space between each pair. */
  function JoinWithSpace(words: seq<string>): string {
    if words == [] then []
    else if |words| == 1 then words[0]
    else words[0] + " " + JoinWithSpace(words[1..])
  }

  /** `split()` undoes a single-space join of whitespace-free words. */
  lemma {:induction false} SplitJoin(words: seq<string>)
    requires forall k :: 0 <= k < |words| ==> IsToken(words[k])
    ensures Split(JoinWithSpace(words)) == words
    decreases |words|
  {
    if |words| == 1 {
      var w := words[0];
      WordOfToken(w, []);
      assert w + [] == w;
      assert w[|w|..] == [];
    } else if |words| > 1 {
      var w := words[0];
      var rest := JoinWithSpace(words[1..]);
      var s := w + " " + rest;
      assert s == w + (" " + rest);
      WordOfToken(w, " " + rest);
      assert s[|w|..] == " " + rest;
      assert (" " + rest)[1..] == rest;
      SplitJoin(words[1..]);
    }
  }

  lemma {:induction false} WordOfToken(w: string, tail: string)
    requires IsToken(w)
    requires tail == [] || tail[0] in Whitespace
    ensures Word(w + tail) == w
    decreases |w|
  {
    if |w| == 1 {
      assert (w + tail)[1..] == tail;
    } else {
      assert (w + tail)[1..] == w[1..] + tail;
      WordOfToken(w[1..], tail);
      assert w == [w[0]] + w[1..];
    }
  }

  // ---------------------------------------------------------------------
  // str(n) for a non-negative integer
  // ---------------------------------------------------------------------

  function DigitChar(d: nat): char
    requires d < 10
  {
    ('0' as int + d) as char
  }

  function DigitValue(c: char): nat {
    if '0' <= c <= '9' then c as int - '0' as int else 0
  }

  /** `str(n)`: the decimal digits of `n`, most significant first, with no leading zero. */
  function NatToString(n: nat): (s: string)
    ensures s != [] && forall i :: 0 <= i < |s| ==> '0' <= s[i] <= '9'
    ensures |s| > 1 ==> s[0] != '0'
    decreases n
  {
    if n < 10 then [DigitChar(n)]
    else NatToString(n / 10) + [DigitChar(n % 10)]
  }

  /** The value of a string of decimal digits: `int(s)`. */
  function ParseNat(s: string): nat {
    if s == [] then 0 else ParseNat(s[..|s| - 1]) * 10 + DigitValue(s[|s| - 1])
  }

  lemma {:induction false} ParseNatToString(n: nat)
    ensures ParseNat(NatToString(n)) == n
    decreases n
  {
    if n >= 10 {
      var s := NatToString(n);
      assert s[..|s| - 1] == NatToString(n / 10);
      ParseNatToString(n / 10);
    }
  }

  /** Distinct ids have distinct decimal keys. */
  lemma NatToStringInjective(a: nat, b: nat)
    requires NatToString(a) == NatToString(b)
    ensures a == b
  {
    ParseNatToString(a);
    ParseNatToString(b);
  }
}
