/**
 * The Groq translator (translation/groq_translator.py): batches of up to 30
 * images, each image sent as one prompt carrying the map from sentence
 * index to raw sentence, and a retry loop per prompt that counts the
 * requests against a daily ceiling.
 */
module Groq {
  import opened Common
  import opened Strings
  import opened BaseTranslation
  import opened Batching
  import opened GroqAnswer

  /** `max_sentence_batches` of this translator. */
  const GroqBatchCap: nat := 30
  /** `requests_made` at or above this after a request raises. */
  const DailyRequestCap: nat := 14400
  /** `requests_made` at or above this before an image raises. */
  const DailyGuard: nat := 14390

  /** What a prompt carries: the map from sentence index to raw sentence. */
  type Prompt = map<nat, string>

  /** The chat completion API: the text answered to a prompt sent as the
      request numbered `n` (the value of `requests_made` before it). */
  type Client = (Prompt, nat) -> string

  /** What the retry loop does with one answer text. */
  type Handler = string -> Handled

  /** The handling of `send_sentences_to_api`: `assert_valid_answer`, then
      `parse_response` with `json.loads` given by `decode`. */
  function Handling(decode: Decoder): Handler {
    text => HandleResponse(text, decode)
  }

  /** A handler accepts only five sentences longer than ten characters. */
  ghost predicate Sound(handle: Handler) {
    forall text :: handle(text).Accepted? ==> ValidSentences(handle(text).sentences)
  }

  lemma SoundAccepts(handle: Handler, text: string)
    requires Sound(handle) && handle(text).Accepted?
    ensures ValidSentences(handle(text).sentences)
  {
  }

  lemma HandlingSound(decode: Decoder)
    ensures Sound(Handling(decode))
  {
  }

  // ---------------------------------------------------------------------
  // send_sentences_to_api, as values
  // ---------------------------------------------------------------------

  /** How the retry loop for one prompt ends: its outcome, the row accepted,
      `requests_made` afterwards and the lines appended to the log of
      invalid answers. */
  datatype Answer = Answer(outcome: Outcome, row: seq<string>, made: nat, logged: seq<string>)

  /** The `while True` loop for one prompt, from the request numbered
      `made`: every request is counted, reaching the daily ceiling raises,
      an empty answer raises, an invalid answer is retried and a valid one
      ends the loop. */
  function Ask(prompt: Prompt, client: Client, handle: Handler, made: nat): (a: Answer)
    ensures a.made > made
    ensures a.outcome == Completed || a.outcome == DailyLimit || a.outcome == Outcome.EmptyAnswer
    ensures a.outcome == DailyLimit <==> a.made >= DailyRequestCap
    decreases DailyRequestCap - made
  {
    var h := handle(client(prompt, made));
    if made + 1 >= DailyRequestCap then Answer(DailyLimit, [], made + 1, [])
    else if h.Crash? then Answer(Outcome.EmptyAnswer, [], made + 1, [])
    else if h.Accepted? then Answer(Completed, h.sentences, made + 1, h.logged)
    else
      var rest := Ask(prompt, client, handle, made + 1);
      rest.(logged := h.logged + rest.logged)
  }

  /** A loop that reaches the daily ceiling stops at the first request
      that reaches it. */
  lemma {:induction false} AskLimit(prompt: Prompt, client: Client, handle: Handler, made: nat)
    ensures var a := Ask(prompt, client, handle, made);
      a.outcome == DailyLimit ==> a.made == if made + 1 >= DailyRequestCap then made + 1 else DailyRequestCap
    decreases DailyRequestCap - made
  {
    if made + 1 < DailyRequestCap && handle(client(prompt, made)).Retry? {
      AskLimit(prompt, client, handle, made + 1);
    }
  }

  /** Every request of the loop but the last was retried; the last one's
      answer was accepted as the row when the loop completes, and crashed
      when it ends on an empty answer. */
  lemma {:induction false} AskReplies(prompt: Prompt, client: Client, handle: Handler, made: nat)
    ensures var a := Ask(prompt, client, handle, made);
      && (forall n :: made <= n < a.made - 1 ==> handle(client(prompt, n)).Retry?)
      && (a.outcome == Completed ==>
            handle(client(prompt, a.made - 1)).Accepted? && handle(client(prompt, a.made - 1)).sentences == a.row)
      && (a.outcome == Outcome.EmptyAnswer ==> handle(client(prompt, a.made - 1)).Crash?)
    decreases DailyRequestCap - made
  {
    if made + 1 < DailyRequestCap && handle(client(prompt, made)).Retry? {
      AskReplies(prompt, client, handle, made + 1);
    }
  }

  /** How `send_sentences_to_api` ends: its outcome, the rows accepted,
      `requests_made` afterwards and the lines logged. */
  datatype Answers = Answers(outcome: Outcome, rows: seq<seq<string>>, made: nat, logged: seq<string>)

  /** The loop over the first `n` prompts, in order, from the request
      numbered `made`; the first prompt whose loop raises ends it. */
  function AskAll(prompts: seq<Prompt>, n: nat, client: Client, handle: Handler, made: nat): (s: Answers)
    requires n <= |prompts|
    ensures s.made >= made
    ensures s.outcome == Completed || s.outcome == DailyLimit || s.outcome == Outcome.EmptyAnswer
    ensures s.outcome == Completed ==> |s.rows| == n
    ensures s.outcome == DailyLimit ==> s.made >= DailyRequestCap
    decreases n
  {
    if n == 0 then Answers(Completed, [], made, [])
    else
      var prev := AskAll(prompts, n - 1, client, handle, made);
      if prev.outcome != Completed then prev
      else
        var a := Ask(prompts[n - 1], client, handle, prev.made);
        Answers(a.outcome, prev.rows + (if a.outcome == Completed then [a.row] else []), a.made, prev.logged + a.logged)
  }

  /** The daily ceiling stops the loop at the first request that reaches
      it, and a loop that completes stays below it having made at least one
      request per prompt. */
  lemma {:induction false} AskAllCounts(prompts: seq<Prompt>, n: nat, client: Client, handle: Handler, made: nat)
    requires n <= |prompts|
    ensures var s := AskAll(prompts, n, client, handle, made);
      && (s.outcome == DailyLimit ==> s.made == if made >= DailyRequestCap then made + 1 else DailyRequestCap)
      && (s.outcome == Completed ==> made + n <= s.made && (n > 0 ==> s.made < DailyRequestCap))
    decreases n
  {
    if n > 0 {
      AskAllCounts(prompts, n - 1, client, handle, made);
      var prev := AskAll(prompts, n - 1, client, handle, made);
      if prev.outcome == Completed {
        AskLimit(prompts[n - 1], client, handle, prev.made);
      }
    }
  }

  /** Once a prompt's loop raises, the later prompts are never sent. */
  lemma {:induction false} AskAllStops(prompts: seq<Prompt>, n: nat, client: Client, handle: Handler, made: nat, k: nat)
    requires k <= n <= |prompts|
    requires AskAll(prompts, k, client, handle, made).outcome != Completed
    ensures AskAll(prompts, n, client, handle, made) == AskAll(prompts, k, client, handle, made)
    decreases n - k
  {
    if k < n {
      AskAllStops(prompts, n - 1, client, handle, made, k);
    }
  }

  /** When every prompt is answered, row `k` is the answer accepted for
      prompt `k` at one of the requests made. */
  lemma {:induction false} AskAllRows(prompts: seq<Prompt>, n: nat, client: Client, handle: Handler, made: nat, k: nat)
    requires n <= |prompts| && k < n
    requires AskAll(prompts, n, client, handle, made).outcome == Completed
    ensures var s := AskAll(prompts, n, client, handle, made);
      exists r :: made <= r < s.made && handle(client(prompts[k], r)).Accepted? && handle(client(prompts[k], r)).sentences == s.rows[k]
    decreases n
  {
    var prev := AskAll(prompts, n - 1, client, handle, made);
    var a := Ask(prompts[n - 1], client, handle, prev.made);
    AskReplies(prompts[n - 1], client, handle, prev.made);
    if k < n - 1 {
      AskAllRows(prompts, n - 1, client, handle, made, k);
    } else {
      assert handle(client(prompts[k], a.made - 1)).sentences == a.row;
    }
  }

  /** With a sound handler every row accepted holds five sentences longer
      than ten characters. */
  lemma {:induction false} AskAllValid(prompts: seq<Prompt>, n: nat, client: Client, handle: Handler, made: nat)
    requires n <= |prompts| && Sound(handle)
    ensures forall k :: 0 <= k < |AskAll(prompts, n, client, handle, made).rows| ==>
      ValidSentences(AskAll(prompts, n, client, handle, made).rows[k])
    decreases n
  {
    if n > 0 {
      var prev := AskAll(prompts, n - 1, client, handle, made);
      AskAllValid(prompts, n - 1, client, handle, made);
      if prev.outcome == Completed {
        var a := Ask(prompts[n - 1], client, handle, prev.made);
        AskReplies(prompts[n - 1], client, handle, prev.made);
        var s := AskAll(prompts, n, client, handle, made);
        forall k | 0 <= k < |s.rows| ensures ValidSentences(s.rows[k]) {
          if k < |prev.rows| {
            assert s.rows[k] == prev.rows[k];
          } else {
            assert a.outcome == Completed && s.rows[k] == a.row;
            var text := client(prompts[n - 1], a.made - 1);
            assert handle(text).Accepted? && handle(text).sentences == a.row;
            SoundAccepts(handle, text);
          }
        }
      }
    }
  }

  // ---------------------------------------------------------------------
  // translate_sentences, as values
  // ---------------------------------------------------------------------

  /** How a run of `translate_sentences` ends: the run itself, the rows
      accepted for the committed images (in commit order), `requests_made`
      afterwards and the lines logged. */
  datatype GroqEnd = GroqEnd(run: RunEnd, rows: seq<seq<string>>, made: nat, logged: seq<string>)

  /** The loop of `translate_sentences` from image `i` on, as a value:
      `queue` and `prompts` are `translating_img_ids` (as positions) and
      `translating_sentences`, `st` the stores and `made` the value of
      `requests_made` at that point. Each pass first raises once `made`
      reaches the guard; then the image is queued unless its key is in the
      live checkpoint; a full queue, or any queue at the image whose `imgid`
      is the last one's, is sent, rewritten in place and committed. */
  function GroqRunFrom(images: seq<Image>, st: Stores, cap: nat, client: Client, handle: Handler,
                       faults: nat -> CommitFault, made: nat, i: nat, queue: seq<nat>, prompts: seq<Prompt>): (r: GroqEnd)
    requires i <= |images| && |prompts| == |queue|
    requires forall k :: 0 <= k < |queue| ==> queue[k] < |images|
    ensures r.made >= made
    ensures r.run.outcome == DailyLimit ==> r.made >= DailyGuard
    decreases |images| - i, 1
  {
    if i == |images| then GroqEnd(RunEnd(Completed, [], [], st, images), [], made, [])
    else if made >= DailyGuard then GroqEnd(RunEnd(DailyLimit, [], [], st, images), [], made, [])
    else
      var image := images[i];
      var q := if NatToString(image.imgid) in st.checkpoint then queue else queue + [i];
      var p := if NatToString(image.imgid) in st.checkpoint then prompts else prompts + [Payload(image)];
      if |q| >= cap || image.imgid == images[|images| - 1].imgid then GroqFlushFrom(images, st, cap, client, handle, faults, made, i, q, p)
      else GroqRunFrom(images, st, cap, client, handle, faults, made, i + 1, q, p)
  }

  /** The flush at image `i` and the rest of the run: the prompts are sent;
      when every one is answered the rows rewrite the queued images in place
      and the rewritten images are committed. */
  function GroqFlushFrom(images: seq<Image>, st: Stores, cap: nat, client: Client, handle: Handler,
                         faults: nat -> CommitFault, made: nat, i: nat, q: seq<nat>, p: seq<Prompt>): (r: GroqEnd)
    requires i < |images| && |p| == |q|
    requires forall k :: 0 <= k < |q| ==> q[k] < |images|
    ensures r.made >= made
    ensures r.run.outcome == DailyLimit ==> r.made >= DailyGuard
    decreases |images| - i, 0
  {
    var sent := AskAll(p, |p|, client, handle, made);
    if sent.outcome != Completed then GroqEnd(RunEnd(sent.outcome, [], [], st, images), [], sent.made, sent.logged)
    else
      var rw := RewriteAt(images, q, sent.rows);
      if !rw.ok then GroqEnd(RunEnd(MissingTranslation, [], [], st, rw.images), [], sent.made, sent.logged)
      else
        var rest := GroqRunFrom(rw.images, CommitAll(st, rw.rewritten, faults), cap, client, handle, faults, sent.made, i + 1, [], []);
        GroqEnd(After([q], rw.rewritten, rest.run), sent.rows + rest.rows, rest.made, sent.logged + rest.logged)
  }

  /** The end of a run preceded by the batches, images, rows and log lines
      of the flushes before. */
  function GroqAfter(flushed: seq<seq<nat>>, committed: seq<Image>, rows: seq<seq<string>>, logged: seq<string>,
                     r: GroqEnd): GroqEnd {
    GroqEnd(After(flushed, committed, r.run), rows + r.rows, r.made, logged + r.logged)
  }

  lemma GroqAfterAfter(flushed: seq<seq<nat>>, committed: seq<Image>, rows: seq<seq<string>>, logged: seq<string>,
                       more: seq<seq<nat>>, batch: seq<Image>, rows2: seq<seq<string>>, logged2: seq<string>, r: GroqEnd)
    ensures GroqAfter(flushed, committed, rows, logged, GroqAfter(more, batch, rows2, logged2, r))
      == GroqAfter(flushed + more, committed + batch, rows + rows2, logged + logged2, r)
  {
    AfterAfter(flushed, committed, more, batch, r.run);
    AppendAssoc(rows, rows2, r.rows);
    AppendAssoc(logged, logged2, r.logged);
  }

  /** One step of `GroqRunFrom` at an image, below the guard, that does not
      flush the queue. */
  lemma GroqRunFromQueues(images: seq<Image>, st: Stores, cap: nat, client: Client, handle: Handler,
                          faults: nat -> CommitFault, made: nat, i: nat, queue: seq<nat>, prompts: seq<Prompt>,
                          q: seq<nat>, p: seq<Prompt>)
    requires i < |images| && |prompts| == |queue| && made < DailyGuard
    requires forall k :: 0 <= k < |queue| ==> queue[k] < |images|
    requires q == if NatToString(images[i].imgid) in st.checkpoint then queue else queue + [i]
    requires p == if NatToString(images[i].imgid) in st.checkpoint then prompts else prompts + [Payload(images[i])]
    requires !(|q| >= cap || images[i].imgid == images[|images| - 1].imgid)
    ensures GroqRunFrom(images, st, cap, client, handle, faults, made, i, queue, prompts)
      == GroqRunFrom(images, st, cap, client, handle, faults, made, i + 1, q, p)
  {
  }

  /** One step of `GroqRunFrom` at an image, below the guard, that flushes
      the queue. */
  lemma GroqRunFromFlushes(images: seq<Image>, st: Stores, cap: nat, client: Client, handle: Handler,
                           faults: nat -> CommitFault, made: nat, i: nat, queue: seq<nat>, prompts: seq<Prompt>,
                           q: seq<nat>, p: seq<Prompt>)
    requires i < |images| && |prompts| == |queue| && made < DailyGuard
    requires forall k :: 0 <= k < |queue| ==> queue[k] < |images|
    requires q == if NatToString(images[i].imgid) in st.checkpoint then queue else queue + [i]
    requires p == if NatToString(images[i].imgid) in st.checkpoint then prompts else prompts + [Payload(images[i])]
    requires |q| >= cap || images[i].imgid == images[|images| - 1].imgid
    ensures GroqRunFrom(images, st, cap, client, handle, faults, made, i, queue, prompts)
      == GroqFlushFrom(images, st, cap, client, handle, faults, made, i, q, p)
  {
  }

  /** A whole run of `translate_sentences` on the dataset `images` from the
      stores `st` and the request count `made`. */
  function GroqRun(images: seq<Image>, st: Stores, cap: nat, client: Client, handle: Handler,
                   faults: nat -> CommitFault, made: nat): GroqEnd {
    GroqRunFrom(images, st, cap, client, handle, faults, made, 0, [], [])
  }

  // ---------------------------------------------------------------------
  // What a run achieves
  // ---------------------------------------------------------------------

  /** Every image at `positions` has at most as many sentences as an
      accepted answer carries. */
  predicate AllShort(images: seq<Image>, positions: seq<nat>)
    requires forall k :: 0 <= k < |positions| ==> positions[k] < |images|
  {
    forall k :: 0 <= k < |positions| ==> |images[positions[k]].sentences| <= SentencesPerAnswer
  }

  lemma AllShortAppend(images: seq<Image>, a: seq<nat>, b: seq<nat>)
    requires forall k :: 0 <= k < |a| ==> a[k] < |images|
    requires forall k :: 0 <= k < |b| ==> b[k] < |images|
    ensures AllShort(images, a + b) <==> AllShort(images, a) && AllShort(images, b)
  {
    if AllShort(images, a + b) {
      forall k | 0 <= k < |a| ensures |images[a[k]].sentences| <= SentencesPerAnswer {
        assert (a + b)[k] == a[k];
      }
      forall k | 0 <= k < |b| ensures |images[b[k]].sentences| <= SentencesPerAnswer {
        assert (a + b)[|a| + k] == b[k];
      }
    }
  }

  /** The batches `flushed` hold positions of the dataset, `rows` has one
      row per flushed position, and the images committed are the images at
      those positions, in order, each rewritten with its row. */
  ghost predicate GroqDone(images0: seq<Image>, flushed: seq<seq<nat>>, rows: seq<seq<string>>, committed: seq<Image>) {
    && (forall k :: 0 <= k < |Flatten(flushed)| ==> Flatten(flushed)[k] < |images0|)
    && |rows| == |Flatten(flushed)|
    && committed == Rewritten(images0, Flatten(flushed), rows)
  }

  /** What the rest `r` of a run achieves when `flushed`, `rows` and
      `committed` precede it and `w` remains of the schedule: it flushes a
      prefix of `w` (all of it when it completes); the images committed are
      those flushed rewritten with the rows, and when it completes the
      dataset holds them; with a sound handler every row holds five valid
      sentences, and when no image of `w` has more than five sentences the
      run does not end on a missing translation. */
  ghost predicate GroqMeets(images0: seq<Image>, ckpt0: Checkpoint, cap: nat, handle: Handler,
                            flushed: seq<seq<nat>>, rows: seq<seq<string>>, committed: seq<Image>,
                            w: seq<seq<nat>>, r: GroqEnd) {
    && r.run.flushed <= w
    && (r.run.outcome == Completed ==> r.run.flushed == w)
    && (forall k :: 0 <= k < |Flatten(w)| ==> Flatten(w)[k] < |images0|)
    && GroqDone(images0, flushed + r.run.flushed, rows + r.rows, committed + r.run.committed)
    && (r.run.outcome == Completed ==> Translated(images0, Flatten(flushed + r.run.flushed), rows + r.rows,
          committed + r.run.committed, r.run.images, |images0|))
    && (Sound(handle) ==> forall k :: 0 <= k < |r.rows| ==> ValidSentences(r.rows[k]))
    && (Sound(handle) && AllShort(images0, Flatten(w)) ==> r.run.outcome != MissingTranslation)
  }

  /** The state of `GroqRunFrom` at image `i` of a run that started on
      `images0` with the checkpoint `ckpt0`: the batches flushed so far
      follow the schedule, the dataset `cur` holds their images rewritten
      with `rows`, the live checkpoint `live` agrees with `ckpt0` on the
      images still to come, and `prompts` are the payloads of the queued
      images. */
  ghost predicate GroqMidway(images0: seq<Image>, ckpt0: Checkpoint, cap: nat,
                             lo: nat, i: nat, queue: seq<nat>, prompts: seq<Prompt>,
                             flushed: seq<seq<nat>>, rows: seq<seq<string>>, committed: seq<Image>,
                             cur: seq<Image>, live: Checkpoint) {
    && Progress(Ids(images0), ckpt0, cap, lo, i, queue, flushed)
    && Translated(images0, Flatten(flushed), rows, committed, cur, lo)
    && Agrees(Ids(images0), ckpt0, live, i)
    && |prompts| == |queue|
    && (forall k :: 0 <= k < |queue| ==> prompts[k] == Payload(images0[queue[k]]))
  }

  lemma GroqMidwayStart(images0: seq<Image>, ckpt0: Checkpoint, cap: nat)
    ensures GroqMidway(images0, ckpt0, cap, 0, 0, [], [], [], [], [], images0, ckpt0)
  {
    ProgressStart(Ids(images0), ckpt0, cap);
    TranslatedStart(images0);
  }

  /** The live checkpoint queues image `i` exactly as the loaded one would,
      and image `i` is still as loaded. */
  lemma GroqMidwayEnqueue(images0: seq<Image>, ckpt0: Checkpoint, cap: nat,
                          lo: nat, i: nat, queue: seq<nat>, prompts: seq<Prompt>,
                          flushed: seq<seq<nat>>, rows: seq<seq<string>>, committed: seq<Image>,
                          cur: seq<Image>, live: Checkpoint)
    requires i < |images0|
    requires GroqMidway(images0, ckpt0, cap, lo, i, queue, prompts, flushed, rows, committed, cur, live)
    ensures (NatToString(cur[i].imgid) in live) == (NatToString(Ids(images0)[i]) in ckpt0)
    ensures cur[i] == images0[i] && cur[i].imgid == Ids(images0)[i]
    ensures cur[|cur| - 1].imgid == Ids(images0)[|images0| - 1]
    ensures var q := if NatToString(cur[i].imgid) in live then queue else queue + [i];
      && q == Enqueue(Ids(images0), ckpt0, i, queue)
      && (FlushesAt(Ids(images0), cap, i, q) <==> |q| >= cap || cur[i].imgid == cur[|cur| - 1].imgid)
  {
    var ids := Ids(images0);
    assert KeyAt(ids, i) in live <==> KeyAt(ids, i) in ckpt0;
    assert |cur| == |ids| && cur[i] == images0[i];
    assert cur[|cur| - 1].imgid == images0[|images0| - 1].imgid == ids[|ids| - 1];
  }

  /** A pass that does not flush keeps the run midway. */
  lemma GroqMidwayQueues(images0: seq<Image>, ckpt0: Checkpoint, cap: nat,
                         lo: nat, i: nat, queue: seq<nat>, prompts: seq<Prompt>,
                         flushed: seq<seq<nat>>, rows: seq<seq<string>>, committed: seq<Image>,
                         cur: seq<Image>, live: Checkpoint, q: seq<nat>, p: seq<Prompt>)
    requires i < |images0|
    requires GroqMidway(images0, ckpt0, cap, lo, i, queue, prompts, flushed, rows, committed, cur, live)
    requires q == Enqueue(Ids(images0), ckpt0, i, queue)
    requires p == if q == queue then prompts else prompts + [Payload(images0[i])]
    requires !FlushesAt(Ids(images0), cap, i, q)
    ensures Walk(Ids(images0), ckpt0, cap, i, queue) == Walk(Ids(images0), ckpt0, cap, i + 1, q)
    ensures GroqMidway(images0, ckpt0, cap, lo, i + 1, q, p, flushed, rows, committed, cur, live)
  {
    ProgressStep(Ids(images0), ckpt0, cap, lo, i, queue, flushed);
  }

  /** With a sound handler, rewriting images still as loaded at increasing
      positions with the accepted rows succeeds when none of them has more
      than five sentences. */
  lemma ShortFits(images0: seq<Image>, cur: seq<Image>, q: seq<nat>, rows: seq<seq<string>>)
    requires |cur| == |images0| && |rows| == |q|
    requires forall k :: 0 <= k < |q| ==> q[k] < |images0| && cur[q[k]] == images0[q[k]]
    requires forall j, k :: 0 <= j < k < |q| ==> q[j] < q[k]
    requires forall k :: 0 <= k < |rows| ==> ValidSentences(rows[k])
    requires AllShort(images0, q)
    ensures RewriteAt(cur, q, rows).ok
  {
    RewriteAtOk(cur, q, rows);
  }

  /** A successful flush keeps the run midway past `i`. */
  lemma GroqMidwayFlushOk(images0: seq<Image>, ckpt0: Checkpoint, cap: nat,
                          lo: nat, i: nat, queue: seq<nat>, prompts: seq<Prompt>,
                          flushed: seq<seq<nat>>, rows: seq<seq<string>>, committed: seq<Image>,
                          cur: seq<Image>, st: Stores, faults: nat -> CommitFault,
                          q: seq<nat>, results: seq<seq<string>>)
    requires DistinctFrom(Ids(images0), 0) && i < |images0|
    requires GroqMidway(images0, ckpt0, cap, lo, i, queue, prompts, flushed, rows, committed, cur, st.checkpoint)
    requires q == Enqueue(Ids(images0), ckpt0, i, queue) && FlushesAt(Ids(images0), cap, i, q)
    requires |results| == |q| && forall k :: 0 <= k < |q| ==> q[k] < |images0|
    requires RewriteAt(cur, q, results).ok
    ensures var rw := RewriteAt(cur, q, results);
      GroqMidway(images0, ckpt0, cap, i + 1, i + 1, [], [], flushed + [q], rows + results,
                 committed + rw.rewritten, rw.images, CommitAll(st, rw.rewritten, faults).checkpoint)
  {
    var ids := Ids(images0);
    ProgressStep(ids, ckpt0, cap, lo, i, queue, flushed);
    FlushedQueue(images0, ckpt0, cap, lo, i, queue, flushed, rows, committed, cur, q);
    var rw := RewriteAt(cur, q, results);
    var done := Flatten(flushed);
    RewriteAtOk(cur, q, results);
    RewriteAtRewritten(cur, q, results);
    RewriteAtPlaces(cur, q, results);
    RewriteAtKeeps(cur, q, results);
    TranslatedFlush(images0, done, rows, committed, cur, lo, q, results, rw.images, i);
    FlattenPush(flushed, q);
    forall k | 0 <= k < |q| ensures q[k] <= i && rw.rewritten[k].imgid == ids[q[k]] {
      RewriteImageMeaning(cur[q[k]], results[k]);
    }
    DistinctUnique(ids);
    AgreesAfterCommit(ids, ckpt0, st, rw.rewritten, q, faults, i);
  }

  /** A successful flush of `q` with the rows `qrows`, followed by a rest
      that meets the remaining schedule `rest`, meets `[q] + rest`. */
  lemma GroqMeetsAfter(images0: seq<Image>, ckpt0: Checkpoint, cap: nat, handle: Handler,
                       flushed: seq<seq<nat>>, rows: seq<seq<string>>, committed: seq<Image>,
                       q: seq<nat>, qrows: seq<seq<string>>, batch: seq<Image>, rest: seq<seq<nat>>, r: GroqEnd)
    requires forall k :: 0 <= k < |q| ==> q[k] < |images0|
    requires Sound(handle) ==> forall k :: 0 <= k < |qrows| ==> ValidSentences(qrows[k])
    requires GroqMeets(images0, ckpt0, cap, handle, flushed + [q], rows + qrows, committed + batch, rest, r)
    ensures GroqMeets(images0, ckpt0, cap, handle, flushed, rows, committed, [q] + rest,
                      GroqEnd(After([q], batch, r.run), qrows + r.rows, r.made, r.logged))
  {
    assert flushed + [q] + r.run.flushed == flushed + ([q] + r.run.flushed);
    AppendAssoc(rows, qrows, r.rows);
    AppendAssoc(committed, batch, r.run.committed);
    FlattenAppend([q], rest);
    assert Flatten([q]) == q + Flatten([]);
    AllShortAppend(images0, q, Flatten(rest));
  }

  /** A run that stops before flushing anything more meets any schedule
      within the dataset, provided a sound handler stops it on a missing
      translation only when some image of the schedule is long. */
  lemma GroqMeetsStop(images0: seq<Image>, ckpt0: Checkpoint, cap: nat, handle: Handler,
                      flushed: seq<seq<nat>>, rows: seq<seq<string>>, committed: seq<Image>,
                      w: seq<seq<nat>>, r: GroqEnd)
    requires forall k :: 0 <= k < |Flatten(w)| ==> Flatten(w)[k] < |images0|
    requires GroqDone(images0, flushed, rows, committed)
    requires r.run.flushed == [] && r.run.committed == [] && r.rows == []
    requires r.run.outcome != Completed
    requires r.run.outcome == MissingTranslation && Sound(handle) ==> !AllShort(images0, Flatten(w))
    ensures GroqMeets(images0, ckpt0, cap, handle, flushed, rows, committed, w, r)
  {
    assert flushed + [] == flushed && rows + [] == rows && committed + [] == committed;
  }

  /** From a midway state, the rest of the run meets the remaining
      schedule. */
  lemma {:induction false} GroqRunFromMeets(images0: seq<Image>, ckpt0: Checkpoint, cap: nat, client: Client,
                                            handle: Handler, faults: nat -> CommitFault, made: nat,
                                            lo: nat, i: nat, queue: seq<nat>, prompts: seq<Prompt>,
                                            flushed: seq<seq<nat>>, rows: seq<seq<string>>,
                                            committed: seq<Image>, cur: seq<Image>, st: Stores)
    requires DistinctFrom(Ids(images0), 0)
    requires GroqMidway(images0, ckpt0, cap, lo, i, queue, prompts, flushed, rows, committed, cur, st.checkpoint)
    ensures GroqMeets(images0, ckpt0, cap, handle, flushed, rows, committed, Walk(Ids(images0), ckpt0, cap, i, queue),
                      GroqRunFrom(cur, st, cap, client, handle, faults, made, i, queue, prompts))
    decreases |images0| - i, 5
  {
    if i == |images0| {
      GroqMidwayEnd(images0, ckpt0, cap, client, handle, faults, made, lo, queue, prompts,
                    flushed, rows, committed, cur, st);
    } else if made >= DailyGuard {
      GroqMidwayStop(images0, ckpt0, cap, client, handle, faults, made, lo, i, queue, prompts,
                     flushed, rows, committed, cur, st);
    } else {
      GroqVisitMeets(images0, ckpt0, cap, client, handle, faults, made, lo, i, queue, prompts,
                     flushed, rows, committed, cur, st);
    }
  }

  /** A run that completes with nothing left to do meets the empty schedule. */
  lemma GroqMeetsComplete(images0: seq<Image>, ckpt0: Checkpoint, cap: nat, handle: Handler,
                          flushed: seq<seq<nat>>, rows: seq<seq<string>>, committed: seq<Image>, r: GroqEnd)
    requires r.run.outcome == Completed && r.run.flushed == [] && r.run.committed == [] && r.rows == []
    requires Translated(images0, Flatten(flushed), rows, committed, r.run.images, |images0|)
    ensures GroqMeets(images0, ckpt0, cap, handle, flushed, rows, committed, [], r)
  {
    assert flushed + [] == flushed && rows + [] == rows && committed + [] == committed;
  }

  /** At the end of the dataset the run has met its whole schedule. */
  lemma GroqMidwayEnd(images0: seq<Image>, ckpt0: Checkpoint, cap: nat, client: Client,
                      handle: Handler, faults: nat -> CommitFault, made: nat,
                      lo: nat, queue: seq<nat>, prompts: seq<Prompt>,
                      flushed: seq<seq<nat>>, rows: seq<seq<string>>,
                      committed: seq<Image>, cur: seq<Image>, st: Stores)
    requires GroqMidway(images0, ckpt0, cap, lo, |images0|, queue, prompts, flushed, rows, committed, cur, st.checkpoint)
    ensures GroqMeets(images0, ckpt0, cap, handle, flushed, rows, committed, Walk(Ids(images0), ckpt0, cap, |images0|, queue),
                      GroqRunFrom(cur, st, cap, client, handle, faults, made, |images0|, queue, prompts))
  {
    TranslatedRaise(images0, Flatten(flushed), rows, committed, cur, lo, |images0|);
    GroqMeetsComplete(images0, ckpt0, cap, handle, flushed, rows, committed,
                      GroqRunFrom(cur, st, cap, client, handle, faults, made, |images0|, queue, prompts));
  }

  /** Once the guard is reached the run stops with what it has done. */
  lemma GroqMidwayStop(images0: seq<Image>, ckpt0: Checkpoint, cap: nat, client: Client,
                       handle: Handler, faults: nat -> CommitFault, made: nat,
                       lo: nat, i: nat, queue: seq<nat>, prompts: seq<Prompt>,
                       flushed: seq<seq<nat>>, rows: seq<seq<string>>,
                       committed: seq<Image>, cur: seq<Image>, st: Stores)
    requires DistinctFrom(Ids(images0), 0) && i < |images0| && made >= DailyGuard
    requires GroqMidway(images0, ckpt0, cap, lo, i, queue, prompts, flushed, rows, committed, cur, st.checkpoint)
    ensures GroqMeets(images0, ckpt0, cap, handle, flushed, rows, committed, Walk(Ids(images0), ckpt0, cap, i, queue),
                      GroqRunFrom(cur, st, cap, client, handle, faults, made, i, queue, prompts))
  {
    var ids := Ids(images0);
    WalkBelow(ids, ckpt0, cap, i, queue);
    GroqMeetsStop(images0, ckpt0, cap, handle, flushed, rows, committed, Walk(ids, ckpt0, cap, i, queue),
                  GroqRunFrom(cur, st, cap, client, handle, faults, made, i, queue, prompts));
  }

  /** The pass at image `i`, below the guard. */
  lemma {:induction false} GroqVisitMeets(images0: seq<Image>, ckpt0: Checkpoint, cap: nat, client: Client,
                                          handle: Handler, faults: nat -> CommitFault, made: nat,
                                          lo: nat, i: nat, queue: seq<nat>, prompts: seq<Prompt>,
                                          flushed: seq<seq<nat>>, rows: seq<seq<string>>,
                                          committed: seq<Image>, cur: seq<Image>, st: Stores)
    requires DistinctFrom(Ids(images0), 0) && i < |images0| && made < DailyGuard
    requires GroqMidway(images0, ckpt0, cap, lo, i, queue, prompts, flushed, rows, committed, cur, st.checkpoint)
    ensures GroqMeets(images0, ckpt0, cap, handle, flushed, rows, committed, Walk(Ids(images0), ckpt0, cap, i, queue),
                      GroqRunFrom(cur, st, cap, client, handle, faults, made, i, queue, prompts))
    decreases |images0| - i, 4
  {
    GroqMidwayEnqueue(images0, ckpt0, cap, lo, i, queue, prompts, flushed, rows, committed, cur, st.checkpoint);
    var q := if NatToString(cur[i].imgid) in st.checkpoint then queue else queue + [i];
    var p := if NatToString(cur[i].imgid) in st.checkpoint then prompts else prompts + [Payload(cur[i])];
    if |q| >= cap || cur[i].imgid == cur[|cur| - 1].imgid {
      GroqVisitFlushMeets(images0, ckpt0, cap, client, handle, faults, made, lo, i, queue, prompts,
                          flushed, rows, committed, cur, st, q, p);
    } else {
      GroqRunFromQueues(cur, st, cap, client, handle, faults, made, i, queue, prompts, q, p);
      GroqMidwayQueues(images0, ckpt0, cap, lo, i, queue, prompts, flushed, rows, committed, cur, st.checkpoint, q, p);
      GroqVisitQueueMeets(images0, ckpt0, cap, client, handle, faults, made, lo, i, queue, prompts,
                          flushed, rows, committed, cur, st, q, p);
    }
  }

  /** The pass at image `i` that flushes the queue. */
  lemma {:induction false} GroqVisitFlushMeets(images0: seq<Image>, ckpt0: Checkpoint, cap: nat, client: Client,
                                               handle: Handler, faults: nat -> CommitFault, made: nat,
                                               lo: nat, i: nat, queue: seq<nat>, prompts: seq<Prompt>,
                                               flushed: seq<seq<nat>>, rows: seq<seq<string>>,
                                               committed: seq<Image>, cur: seq<Image>, st: Stores,
                                               q: seq<nat>, p: seq<Prompt>)
    requires DistinctFrom(Ids(images0), 0) && i < |images0| && made < DailyGuard
    requires GroqMidway(images0, ckpt0, cap, lo, i, queue, prompts, flushed, rows, committed, cur, st.checkpoint)
    requires cur[i] == images0[i] && |cur| == |images0|
    requires q == if NatToString(cur[i].imgid) in st.checkpoint then queue else queue + [i]
    requires p == if NatToString(cur[i].imgid) in st.checkpoint then prompts else prompts + [Payload(cur[i])]
    requires q == Enqueue(Ids(images0), ckpt0, i, queue) && FlushesAt(Ids(images0), cap, i, q)
    requires |q| >= cap || cur[i].imgid == cur[|cur| - 1].imgid
    ensures GroqMeets(images0, ckpt0, cap, handle, flushed, rows, committed, Walk(Ids(images0), ckpt0, cap, i, queue),
                      GroqRunFrom(cur, st, cap, client, handle, faults, made, i, queue, prompts))
    decreases |images0| - i, 3
  {
    GroqRunFromFlushes(cur, st, cap, client, handle, faults, made, i, queue, prompts, q, p);
    GroqFlushFromMeets(images0, ckpt0, cap, client, handle, faults, made, lo, i, queue, prompts,
                       flushed, rows, committed, cur, st, q, p);
  }

  /** The pass at image `i` that only queues: the rest of the run from
      `i + 1` meets the rest of the schedule. */
  lemma {:induction false} GroqVisitQueueMeets(images0: seq<Image>, ckpt0: Checkpoint, cap: nat, client: Client,
                                               handle: Handler, faults: nat -> CommitFault, made: nat,
                                               lo: nat, i: nat, queue: seq<nat>, prompts: seq<Prompt>,
                                               flushed: seq<seq<nat>>, rows: seq<seq<string>>,
                                               committed: seq<Image>, cur: seq<Image>, st: Stores,
                                               q: seq<nat>, p: seq<Prompt>)
    requires DistinctFrom(Ids(images0), 0) && i < |images0| && |cur| == |images0| && |p| == |q|
    requires forall k :: 0 <= k < |queue| ==> queue[k] < |cur|
    requires forall k :: 0 <= k < |q| ==> q[k] < |cur|
    requires |prompts| == |queue|
    requires GroqMidway(images0, ckpt0, cap, lo, i + 1, q, p, flushed, rows, committed, cur, st.checkpoint)
    requires Walk(Ids(images0), ckpt0, cap, i, queue) == Walk(Ids(images0), ckpt0, cap, i + 1, q)
    requires GroqRunFrom(cur, st, cap, client, handle, faults, made, i, queue, prompts)
      == GroqRunFrom(cur, st, cap, client, handle, faults, made, i + 1, q, p)
    ensures GroqMeets(images0, ckpt0, cap, handle, flushed, rows, committed, Walk(Ids(images0), ckpt0, cap, i, queue),
                      GroqRunFrom(cur, st, cap, client, handle, faults, made, i, queue, prompts))
    decreases |images0| - i, 3
  {
    GroqRunFromMeets(images0, ckpt0, cap, client, handle, faults, made, lo, i + 1, q, p, flushed, rows, committed, cur, st);
    GroqMeetsSame(images0, ckpt0, cap, handle, flushed, rows, committed,
                  Walk(Ids(images0), ckpt0, cap, i, queue), GroqRunFrom(cur, st, cap, client, handle, faults, made, i, queue, prompts),
                  Walk(Ids(images0), ckpt0, cap, i + 1, q), GroqRunFrom(cur, st, cap, client, handle, faults, made, i + 1, q, p));
  }

  /** `GroqMeets` of equal schedules and ends with equal runs and rows. */
  lemma GroqMeetsSame(images0: seq<Image>, ckpt0: Checkpoint, cap: nat, handle: Handler,
                      flushed: seq<seq<nat>>, rows: seq<seq<string>>, committed: seq<Image>,
                      w: seq<seq<nat>>, r: GroqEnd, w2: seq<seq<nat>>, r2: GroqEnd)
    requires w == w2 && r.run == r2.run && r.rows == r2.rows
    requires GroqMeets(images0, ckpt0, cap, handle, flushed, rows, committed, w2, r2)
    ensures GroqMeets(images0, ckpt0, cap, handle, flushed, rows, committed, w, r)
  {
  }

  /** The queue flushed at `i`: increasing positions whose images are still
      as loaded, one prompt each, at the head of the remaining schedule. */
  lemma GroqFlushedQueue(images0: seq<Image>, ckpt0: Checkpoint, cap: nat,
                         lo: nat, i: nat, queue: seq<nat>, prompts: seq<Prompt>,
                         flushed: seq<seq<nat>>, rows: seq<seq<string>>, committed: seq<Image>,
                         cur: seq<Image>, live: Checkpoint, q: seq<nat>, p: seq<Prompt>, rest: seq<seq<nat>>)
    requires i < |images0|
    requires GroqMidway(images0, ckpt0, cap, lo, i, queue, prompts, flushed, rows, committed, cur, live)
    requires q == Enqueue(Ids(images0), ckpt0, i, queue)
    requires p == if q == queue then prompts else prompts + [Payload(images0[i])]
    requires FlushesAt(Ids(images0), cap, i, q)
    requires rest == Walk(Ids(images0), ckpt0, cap, i + 1, [])
    ensures |p| == |q| && |cur| == |images0|
    ensures forall k :: 0 <= k < |q| ==> q[k] < |images0| && cur[q[k]] == images0[q[k]]
    ensures forall j, k :: 0 <= j < k < |q| ==> q[j] < q[k]
    ensures Walk(Ids(images0), ckpt0, cap, i, queue) == [q] + rest
    ensures Flatten([q] + rest) == q + Flatten(rest)
    ensures forall k :: 0 <= k < |Flatten(rest)| ==> Flatten(rest)[k] < |images0|
    ensures GroqDone(images0, flushed, rows, committed)
  {
    var ids := Ids(images0);
    FlushedQueue(images0, ckpt0, cap, lo, i, queue, flushed, rows, committed, cur, q);
    assert Walk(ids, ckpt0, cap, i, queue) == [q] + rest;
    WalkBelow(ids, ckpt0, cap, i + 1, []);
    FlattenAppend([q], rest);
    assert Flatten([q]) == q + Flatten([]);
  }

  lemma {:induction false} GroqFlushFromMeets(images0: seq<Image>, ckpt0: Checkpoint, cap: nat, client: Client,
                                              handle: Handler, faults: nat -> CommitFault, made: nat,
                                              lo: nat, i: nat, queue: seq<nat>, prompts: seq<Prompt>,
                                              flushed: seq<seq<nat>>, rows: seq<seq<string>>,
                                              committed: seq<Image>, cur: seq<Image>, st: Stores,
                                              q: seq<nat>, p: seq<Prompt>)
    requires DistinctFrom(Ids(images0), 0) && i < |images0|
    requires GroqMidway(images0, ckpt0, cap, lo, i, queue, prompts, flushed, rows, committed, cur, st.checkpoint)
    requires q == Enqueue(Ids(images0), ckpt0, i, queue)
    requires p == if q == queue then prompts else prompts + [Payload(images0[i])]
    requires FlushesAt(Ids(images0), cap, i, q)
    ensures |p| == |q| && forall k :: 0 <= k < |q| ==> q[k] < |cur|
    ensures GroqMeets(images0, ckpt0, cap, handle, flushed, rows, committed, Walk(Ids(images0), ckpt0, cap, i, queue),
                      GroqFlushFrom(cur, st, cap, client, handle, faults, made, i, q, p))
    decreases |images0| - i, 2
  {
    var rest := Walk(Ids(images0), ckpt0, cap, i + 1, []);
    GroqFlushedQueue(images0, ckpt0, cap, lo, i, queue, prompts, flushed, rows, committed, cur, st.checkpoint, q, p, rest);
    var sent := AskAll(p, |p|, client, handle, made);
    if sent.outcome == Completed && RewriteAt(cur, q, sent.rows).ok {
      GroqFlushOkMeets(images0, ckpt0, cap, client, handle, faults, made, lo, i, queue, prompts,
                       flushed, rows, committed, cur, st, q, p);
    } else {
      GroqFlushStops(images0, ckpt0, cap, client, handle, faults, made, i, flushed, rows, committed, cur, st, q, p, rest);
    }
  }

  /** A flush whose prompts are not all answered, or whose rows do not all
      fit, ends the run; with a sound handler the latter shows an image
      with more than five sentences. */
  lemma GroqFlushStops(images0: seq<Image>, ckpt0: Checkpoint, cap: nat, client: Client,
                       handle: Handler, faults: nat -> CommitFault, made: nat, i: nat,
                       flushed: seq<seq<nat>>, rows: seq<seq<string>>, committed: seq<Image>,
                       cur: seq<Image>, st: Stores, q: seq<nat>, p: seq<Prompt>, rest: seq<seq<nat>>)
    requires i < |images0| && |p| == |q| && |cur| == |images0|
    requires forall k :: 0 <= k < |q| ==> q[k] < |images0| && cur[q[k]] == images0[q[k]]
    requires forall j, k :: 0 <= j < k < |q| ==> q[j] < q[k]
    requires Flatten([q] + rest) == q + Flatten(rest)
    requires forall k :: 0 <= k < |Flatten(rest)| ==> Flatten(rest)[k] < |images0|
    requires GroqDone(images0, flushed, rows, committed)
    requires var sent := AskAll(p, |p|, client, handle, made);
      !(sent.outcome == Completed && RewriteAt(cur, q, sent.rows).ok)
    ensures GroqMeets(images0, ckpt0, cap, handle, flushed, rows, committed, [q] + rest,
                      GroqFlushFrom(cur, st, cap, client, handle, faults, made, i, q, p))
  {
    var sent := AskAll(p, |p|, client, handle, made);
    var r := GroqFlushFrom(cur, st, cap, client, handle, faults, made, i, q, p);
    if sent.outcome == Completed && Sound(handle) {
      AskAllValid(p, |p|, client, handle, made);
      GroqFlushMissing(images0, cur, q, sent.rows);
      AllShortAppend(images0, q, Flatten(rest));
    }
    GroqMeetsStop(images0, ckpt0, cap, handle, flushed, rows, committed, [q] + rest, r);
  }

  /** Accepted rows that do not all fit show some image with more than
      five sentences. */
  lemma GroqFlushMissing(images0: seq<Image>, cur: seq<Image>, q: seq<nat>, rows: seq<seq<string>>)
    requires |cur| == |images0| && |rows| == |q|
    requires forall k :: 0 <= k < |q| ==> q[k] < |images0| && cur[q[k]] == images0[q[k]]
    requires forall j, k :: 0 <= j < k < |q| ==> q[j] < q[k]
    requires forall k :: 0 <= k < |rows| ==> ValidSentences(rows[k])
    requires !RewriteAt(cur, q, rows).ok
    ensures !AllShort(images0, q)
  {
    if AllShort(images0, q) {
      ShortFits(images0, cur, q, rows);
    }
  }

  /** A flush whose rows all fit, followed by the rest of the run. */
  lemma {:induction false} GroqFlushOkMeets(images0: seq<Image>, ckpt0: Checkpoint, cap: nat, client: Client,
                                            handle: Handler, faults: nat -> CommitFault, made: nat,
                                            lo: nat, i: nat, queue: seq<nat>, prompts: seq<Prompt>,
                                            flushed: seq<seq<nat>>, rows: seq<seq<string>>,
                                            committed: seq<Image>, cur: seq<Image>, st: Stores,
                                            q: seq<nat>, p: seq<Prompt>)
    requires DistinctFrom(Ids(images0), 0) && i < |images0|
    requires GroqMidway(images0, ckpt0, cap, lo, i, queue, prompts, flushed, rows, committed, cur, st.checkpoint)
    requires q == Enqueue(Ids(images0), ckpt0, i, queue) && FlushesAt(Ids(images0), cap, i, q)
    requires |p| == |q| && forall k :: 0 <= k < |q| ==> q[k] < |images0|
    requires AskAll(p, |p|, client, handle, made).outcome == Completed
    requires RewriteAt(cur, q, AskAll(p, |p|, client, handle, made).rows).ok
    ensures GroqMeets(images0, ckpt0, cap, handle, flushed, rows, committed, [q] + Walk(Ids(images0), ckpt0, cap, i + 1, []),
                      GroqFlushFrom(cur, st, cap, client, handle, faults, made, i, q, p))
    decreases |images0| - i, 1
  {
    var sent := AskAll(p, |p|, client, handle, made);
    if Sound(handle) {
      AskAllValid(p, |p|, client, handle, made);
    }
    var rw := RewriteAt(cur, q, sent.rows);
    GroqMidwayFlushOk(images0, ckpt0, cap, lo, i, queue, prompts, flushed, rows, committed, cur, st, faults, q, sent.rows);
    var st1 := CommitAll(st, rw.rewritten, faults);
    GroqFlushOkRest(images0, ckpt0, cap, client, handle, faults, sent.made, i, flushed, rows, committed,
                    q, sent.rows, rw.rewritten, rw.images, st1);
    var rest := GroqRunFrom(rw.images, st1, cap, client, handle, faults, sent.made, i + 1, [], []);
    GroqMeetsSame(images0, ckpt0, cap, handle, flushed, rows, committed,
                  [q] + Walk(Ids(images0), ckpt0, cap, i + 1, []), GroqFlushFrom(cur, st, cap, client, handle, faults, made, i, q, p),
                  [q] + Walk(Ids(images0), ckpt0, cap, i + 1, []),
                  GroqEnd(After([q], rw.rewritten, rest.run), sent.rows + rest.rows, rest.made, rest.logged));
  }

  /** A flush whose rows all fit, followed by the rest of the run from the
      dataset `cur1` and the stores `st1` the flush leaves. */
  lemma {:induction false} GroqFlushOkRest(images0: seq<Image>, ckpt0: Checkpoint, cap: nat, client: Client,
                                           handle: Handler, faults: nat -> CommitFault, made: nat, i: nat,
                                           flushed: seq<seq<nat>>, rows: seq<seq<string>>, committed: seq<Image>,
                                           q: seq<nat>, qrows: seq<seq<string>>, batch: seq<Image>,
                                           cur1: seq<Image>, st1: Stores)
    requires DistinctFrom(Ids(images0), 0) && i < |images0| && |cur1| == |images0|
    requires forall k :: 0 <= k < |q| ==> q[k] < |images0|
    requires Sound(handle) ==> forall k :: 0 <= k < |qrows| ==> ValidSentences(qrows[k])
    requires GroqMidway(images0, ckpt0, cap, i + 1, i + 1, [], [], flushed + [q], rows + qrows, committed + batch,
                        cur1, st1.checkpoint)
    ensures var r := GroqRunFrom(cur1, st1, cap, client, handle, faults, made, i + 1, [], []);
      GroqMeets(images0, ckpt0, cap, handle, flushed, rows, committed, [q] + Walk(Ids(images0), ckpt0, cap, i + 1, []),
                GroqEnd(After([q], batch, r.run), qrows + r.rows, r.made, r.logged))
    decreases |images0| - i, 0
  {
    GroqRunFromMeets(images0, ckpt0, cap, client, handle, faults, made, i + 1, i + 1, [], [],
                     flushed + [q], rows + qrows, committed + batch, cur1, st1);
    GroqMeetsAfter(images0, ckpt0, cap, handle, flushed, rows, committed, q, qrows, batch,
                   Walk(Ids(images0), ckpt0, cap, i + 1, []),
                   GroqRunFrom(cur1, st1, cap, client, handle, faults, made, i + 1, [], []));
  }

  /** The stores at the end of a run are those at its start with every
      image the run committed committed in order. */
  lemma {:induction false} GroqRunFromStores(images: seq<Image>, st: Stores, cap: nat, client: Client, handle: Handler,
                                             faults: nat -> CommitFault, made: nat, i: nat, queue: seq<nat>, prompts: seq<Prompt>)
    requires i <= |images| && |prompts| == |queue|
    requires forall k :: 0 <= k < |queue| ==> queue[k] < |images|
    ensures var r := GroqRunFrom(images, st, cap, client, handle, faults, made, i, queue, prompts);
      r.run.stores == CommitAll(st, r.run.committed, faults)
    decreases |images| - i, 2
  {
    if i < |images| && made < DailyGuard {
      GroqVisitStores(images, st, cap, client, handle, faults, made, i, queue, prompts);
    }
  }

  lemma {:induction false} GroqVisitStores(images: seq<Image>, st: Stores, cap: nat, client: Client, handle: Handler,
                                           faults: nat -> CommitFault, made: nat, i: nat, queue: seq<nat>, prompts: seq<Prompt>)
    requires i < |images| && |prompts| == |queue| && made < DailyGuard
    requires forall k :: 0 <= k < |queue| ==> queue[k] < |images|
    ensures var r := GroqRunFrom(images, st, cap, client, handle, faults, made, i, queue, prompts);
      r.run.stores == CommitAll(st, r.run.committed, faults)
    decreases |images| - i, 1
  {
    var image := images[i];
    var q := if NatToString(image.imgid) in st.checkpoint then queue else queue + [i];
    var p := if NatToString(image.imgid) in st.checkpoint then prompts else prompts + [Payload(image)];
    if |q| >= cap || image.imgid == images[|images| - 1].imgid {
      GroqFlushFromStores(images, st, cap, client, handle, faults, made, i, q, p);
    } else {
      GroqRunFromStores(images, st, cap, client, handle, faults, made, i + 1, q, p);
    }
  }

  lemma {:induction false} GroqFlushFromStores(images: seq<Image>, st: Stores, cap: nat, client: Client, handle: Handler,
                                               faults: nat -> CommitFault, made: nat, i: nat, q: seq<nat>, p: seq<Prompt>)
    requires i < |images| && |p| == |q|
    requires forall k :: 0 <= k < |q| ==> q[k] < |images|
    ensures var r := GroqFlushFrom(images, st, cap, client, handle, faults, made, i, q, p);
      r.run.stores == CommitAll(st, r.run.committed, faults)
    decreases |images| - i, 0
  {
    var sent := AskAll(p, |p|, client, handle, made);
    if sent.outcome == Completed {
      var rw := RewriteAt(images, q, sent.rows);
      if rw.ok {
        var st1 := CommitAll(st, rw.rewritten, faults);
        GroqRunFromStores(rw.images, st1, cap, client, handle, faults, sent.made, i + 1, [], []);
        var rest := GroqRunFrom(rw.images, st1, cap, client, handle, faults, sent.made, i + 1, [], []);
        CommitAllAppend(st, rw.rewritten, rest.run.committed, faults);
      }
    }
  }

  /** From below the daily ceiling, a loop over prompts never passes it,
      and stays below it when every prompt is answered. */
  lemma {:induction false} AskCeiling(prompt: Prompt, client: Client, handle: Handler, made: nat)
    requires made < DailyRequestCap
    ensures var a := Ask(prompt, client, handle, made);
      a.made <= DailyRequestCap && (a.outcome != DailyLimit ==> a.made < DailyRequestCap)
    decreases DailyRequestCap - made
  {
    if made + 1 < DailyRequestCap && handle(client(prompt, made)).Retry? {
      AskCeiling(prompt, client, handle, made + 1);
    }
  }

  lemma {:induction false} AskAllCeiling(prompts: seq<Prompt>, n: nat, client: Client, handle: Handler, made: nat)
    requires n <= |prompts| && made < DailyRequestCap
    ensures var s := AskAll(prompts, n, client, handle, made);
      s.made <= DailyRequestCap && (s.outcome != DailyLimit ==> s.made < DailyRequestCap)
    decreases n
  {
    if n > 0 {
      AskAllCeiling(prompts, n - 1, client, handle, made);
      var prev := AskAll(prompts, n - 1, client, handle, made);
      if prev.outcome == Completed {
        AskCeiling(prompts[n - 1], client, handle, prev.made);
      }
    }
  }

  /** A run that starts at or below the daily ceiling never passes it. */
  lemma {:induction false} GroqRunFromCeiling(images: seq<Image>, st: Stores, cap: nat, client: Client, handle: Handler,
                                              faults: nat -> CommitFault, made: nat, i: nat, queue: seq<nat>, prompts: seq<Prompt>)
    requires i <= |images| && |prompts| == |queue|
    requires forall k :: 0 <= k < |queue| ==> queue[k] < |images|
    requires made <= DailyRequestCap
    ensures GroqRunFrom(images, st, cap, client, handle, faults, made, i, queue, prompts).made <= DailyRequestCap
    decreases |images| - i, 2
  {
    if i < |images| && made < DailyGuard {
      GroqVisitCeiling(images, st, cap, client, handle, faults, made, i, queue, prompts);
    }
  }

  lemma {:induction false} GroqVisitCeiling(images: seq<Image>, st: Stores, cap: nat, client: Client, handle: Handler,
                                            faults: nat -> CommitFault, made: nat, i: nat, queue: seq<nat>, prompts: seq<Prompt>)
    requires i < |images| && |prompts| == |queue|
    requires forall k :: 0 <= k < |queue| ==> queue[k] < |images|
    requires made < DailyGuard
    ensures GroqRunFrom(images, st, cap, client, handle, faults, made, i, queue, prompts).made <= DailyRequestCap
    decreases |images| - i, 1
  {
    var image := images[i];
    var q := if NatToString(image.imgid) in st.checkpoint then queue else queue + [i];
    var p := if NatToString(image.imgid) in st.checkpoint then prompts else prompts + [Payload(image)];
    if |q| >= cap || image.imgid == images[|images| - 1].imgid {
      GroqFlushFromCeiling(images, st, cap, client, handle, faults, made, i, q, p);
    } else {
      GroqRunFromCeiling(images, st, cap, client, handle, faults, made, i + 1, q, p);
    }
  }

  lemma {:induction false} GroqFlushFromCeiling(images: seq<Image>, st: Stores, cap: nat, client: Client, handle: Handler,
                                                faults: nat -> CommitFault, made: nat, i: nat, q: seq<nat>, p: seq<Prompt>)
    requires i < |images| && |p| == |q|
    requires forall k :: 0 <= k < |q| ==> q[k] < |images|
    requires made < DailyGuard
    ensures GroqFlushFrom(images, st, cap, client, handle, faults, made, i, q, p).made <= DailyRequestCap
    decreases |images| - i, 0
  {
    AskAllCeiling(p, |p|, client, handle, made);
    GroqFlushFromMade(images, st, cap, client, handle, faults, made, i, q, p);
    var sent := AskAll(p, |p|, client, handle, made);
    if sent.outcome == Completed && RewriteAt(images, q, sent.rows).ok {
      var rw := RewriteAt(images, q, sent.rows);
      GroqRunFromCeiling(rw.images, CommitAll(st, rw.rewritten, faults), cap, client, handle, faults, sent.made, i + 1, [], []);
    }
  }

  /** The requests a flush has made when the run ends: those of its own
      prompts when it stops the run, those of the rest of the run when it
      carries on from the next image. */
  lemma GroqFlushFromMade(images: seq<Image>, st: Stores, cap: nat, client: Client, handle: Handler,
                          faults: nat -> CommitFault, made: nat, i: nat, q: seq<nat>, p: seq<Prompt>)
    requires i < |images| && |p| == |q|
    requires forall k :: 0 <= k < |q| ==> q[k] < |images|
    ensures var sent := AskAll(p, |p|, client, handle, made);
      var r := GroqFlushFrom(images, st, cap, client, handle, faults, made, i, q, p);
      if sent.outcome == Completed && RewriteAt(images, q, sent.rows).ok then
        var rw := RewriteAt(images, q, sent.rows);
        r.made == GroqRunFrom(rw.images, CommitAll(st, rw.rewritten, faults), cap, client, handle, faults, sent.made, i + 1, [], []).made
      else r.made == sent.made
  {
  }

  /** A whole run flushes a prefix of the schedule (all of it when it
      completes). The images committed are the flushed ones rewritten with
      the rows accepted for them, in order, and the stores are the starting
      ones with those commits applied. With a sound handler every row holds
      five sentences longer than ten characters, and the run ends on a
      missing translation only when some pending image has more than five
      sentences. Starting at or below the daily ceiling, it ends at or below
      it, and it ends on the daily limit only at or above the guard. */
  lemma GroqRunMeets(images: seq<Image>, st: Stores, cap: nat, client: Client, handle: Handler,
                     faults: nat -> CommitFault, made: nat)
    requires Unique(Ids(images))
    ensures forall k :: 0 <= k < |PendingFrom(Ids(images), st.checkpoint, 0)| ==>
      PendingFrom(Ids(images), st.checkpoint, 0)[k] < |images|
    ensures var r := GroqRun(images, st, cap, client, handle, faults, made);
      var plan := Schedule(Ids(images), st.checkpoint, cap);
      && r.run.flushed <= plan
      && (r.run.outcome == Completed ==> r.run.flushed == plan)
      && (forall k :: 0 <= k < |Flatten(r.run.flushed)| ==> Flatten(r.run.flushed)[k] < |images|)
      && |r.rows| == |Flatten(r.run.flushed)|
      && r.run.committed == Rewritten(images, Flatten(r.run.flushed), r.rows)
      && r.run.stores == CommitAll(st, r.run.committed, faults)
      && (Sound(handle) ==> forall k :: 0 <= k < |r.rows| ==> ValidSentences(r.rows[k]))
      && (Sound(handle) && AllShort(images, PendingFrom(Ids(images), st.checkpoint, 0)) ==> r.run.outcome != MissingTranslation)
      && (made <= DailyRequestCap ==> r.made <= DailyRequestCap)
      && (r.run.outcome == DailyLimit ==> r.made >= DailyGuard)
  {
    var ids := Ids(images);
    GroqMidwayStart(images, st.checkpoint, cap);
    UniqueDistinct(Ids(images), 0);
    GroqRunFromMeets(images, st.checkpoint, cap, client, handle, faults, made, 0, 0, [], [], [], [], [], images, st);
    GroqRunFromStores(images, st, cap, client, handle, faults, made, 0, [], []);
    if made <= DailyRequestCap {
      GroqRunFromCeiling(images, st, cap, client, handle, faults, made, 0, [], []);
    }
    ScheduleCovers(ids, st.checkpoint, cap);
    PendingFromBelow(ids, st.checkpoint, 0);
    var r := GroqRun(images, st, cap, client, handle, faults, made);
    assert [] + r.run.flushed == r.run.flushed && [] + r.rows == r.rows && [] + r.run.committed == r.run.committed;
  }

  /** A completed run leaves each flushed image rewritten with its row at
      its position and every image it did not flush as it was; with a sound
      handler it shows that no pending image has more than five sentences. */
  lemma GroqRunRewrites(images: seq<Image>, st: Stores, cap: nat, client: Client, handle: Handler,
                        faults: nat -> CommitFault, made: nat)
    requires Unique(Ids(images))
    requires GroqRun(images, st, cap, client, handle, faults, made).run.outcome == Completed
    ensures var r := GroqRun(images, st, cap, client, handle, faults, made);
      && |r.run.images| == |images| && |r.run.committed| == |Flatten(r.run.flushed)|
      && Flatten(r.run.flushed) == PendingFrom(Ids(images), st.checkpoint, 0)
      && (forall k :: 0 <= k < |Flatten(r.run.flushed)| ==>
            && Flatten(r.run.flushed)[k] < |images|
            && r.run.committed[k].imgid == images[Flatten(r.run.flushed)[k]].imgid
            && r.run.images[Flatten(r.run.flushed)[k]] == r.run.committed[k])
      && (forall p :: 0 <= p < |images| && p !in Flatten(r.run.flushed) ==> r.run.images[p] == images[p])
      && (Sound(handle) ==> AllShort(images, Flatten(r.run.flushed)))
  {
    GroqMidwayStart(images, st.checkpoint, cap);
    UniqueDistinct(Ids(images), 0);
    GroqRunFromMeets(images, st.checkpoint, cap, client, handle, faults, made, 0, 0, [], [], [], [], [], images, st);
    ScheduleCovers(Ids(images), st.checkpoint, cap);
    var r := GroqRun(images, st, cap, client, handle, faults, made);
    assert [] + r.run.flushed == r.run.flushed && [] + r.rows == r.rows && [] + r.run.committed == r.run.committed;
  }

  /** Some request carrying `prompt` was answered with a text the handler
      accepted as `row`. */
  ghost predicate Answered(client: Client, handle: Handler, prompt: Prompt, row: seq<string>) {
    exists n: nat :: handle(client(prompt, n)).Accepted? && handle(client(prompt, n)).sentences == row
  }

  /** Every row of a run was accepted for the prompt of the image it
      rewrites, and the images a run flushes are queued ones or come at or
      after `i`. */
  lemma {:induction false} GroqRunFromAnswers(images: seq<Image>, st: Stores, cap: nat, client: Client, handle: Handler,
                                              faults: nat -> CommitFault, made: nat, i: nat, queue: seq<nat>, prompts: seq<Prompt>)
    requires i <= |images| && |prompts| == |queue|
    requires forall k :: 0 <= k < |queue| ==> queue[k] < i && prompts[k] == Payload(images[queue[k]])
    ensures var r := GroqRunFrom(images, st, cap, client, handle, faults, made, i, queue, prompts);
      && |r.rows| == |Flatten(r.run.flushed)|
      && (forall k :: 0 <= k < |Flatten(r.run.flushed)| ==>
            && (Flatten(r.run.flushed)[k] in queue || i <= Flatten(r.run.flushed)[k] < |images|)
            && Answered(client, handle, Payload(images[Flatten(r.run.flushed)[k]]), r.rows[k]))
    decreases |images| - i, 2
  {
    if i < |images| && made < DailyGuard {
      GroqVisitAnswers(images, st, cap, client, handle, faults, made, i, queue, prompts);
    }
  }

  lemma {:induction false} GroqVisitAnswers(images: seq<Image>, st: Stores, cap: nat, client: Client, handle: Handler,
                                            faults: nat -> CommitFault, made: nat, i: nat, queue: seq<nat>, prompts: seq<Prompt>)
    requires i < |images| && |prompts| == |queue| && made < DailyGuard
    requires forall k :: 0 <= k < |queue| ==> queue[k] < i && prompts[k] == Payload(images[queue[k]])
    ensures var r := GroqRunFrom(images, st, cap, client, handle, faults, made, i, queue, prompts);
      && |r.rows| == |Flatten(r.run.flushed)|
      && (forall k :: 0 <= k < |Flatten(r.run.flushed)| ==>
            && (Flatten(r.run.flushed)[k] in queue || i <= Flatten(r.run.flushed)[k] < |images|)
            && Answered(client, handle, Payload(images[Flatten(r.run.flushed)[k]]), r.rows[k]))
    decreases |images| - i, 1
  {
    var image := images[i];
    var q := if NatToString(image.imgid) in st.checkpoint then queue else queue + [i];
    var p := if NatToString(image.imgid) in st.checkpoint then prompts else prompts + [Payload(image)];
    if |q| >= cap || image.imgid == images[|images| - 1].imgid {
      GroqFlushFromAnswers(images, st, cap, client, handle, faults, made, i, q, p);
    } else {
      GroqRunFromAnswers(images, st, cap, client, handle, faults, made, i + 1, q, p);
    }
  }

  lemma {:induction false} GroqFlushFromAnswers(images: seq<Image>, st: Stores, cap: nat, client: Client, handle: Handler,
                                                faults: nat -> CommitFault, made: nat, i: nat, q: seq<nat>, p: seq<Prompt>)
    requires i < |images| && |p| == |q|
    requires forall k :: 0 <= k < |q| ==> q[k] <= i && p[k] == Payload(images[q[k]])
    ensures var r := GroqFlushFrom(images, st, cap, client, handle, faults, made, i, q, p);
      && |r.rows| == |Flatten(r.run.flushed)|
      && (forall k :: 0 <= k < |Flatten(r.run.flushed)| ==>
            && (Flatten(r.run.flushed)[k] in q || i < Flatten(r.run.flushed)[k] < |images|)
            && Answered(client, handle, Payload(images[Flatten(r.run.flushed)[k]]), r.rows[k]))
    decreases |images| - i, 0
  {
    var sent := AskAll(p, |p|, client, handle, made);
    if sent.outcome == Completed {
      var rw := RewriteAt(images, q, sent.rows);
      if rw.ok {
        var st1 := CommitAll(st, rw.rewritten, faults);
        GroqRunFromAnswers(rw.images, st1, cap, client, handle, faults, sent.made, i + 1, [], []);
        RewriteAtKeeps(images, q, sent.rows);
        var rest := GroqRunFrom(rw.images, st1, cap, client, handle, faults, sent.made, i + 1, [], []);
        forall k | 0 <= k < |q| ensures Answered(client, handle, p[k], sent.rows[k]) {
          AskAllRows(p, |p|, client, handle, made, k);
        }
        FlattenAppend([q], rest.run.flushed);
        assert Flatten([q]) == q + Flatten([]);
        AnswersJoin(images, rw.images, client, handle, i, q, p, sent.rows, Flatten(rest.run.flushed), rest.rows);
      }
    }
  }

  /** The rows of a flush followed by those of the rest of the run. */
  lemma AnswersJoin(images: seq<Image>, cur: seq<Image>, client: Client, handle: Handler, i: nat,
                    q: seq<nat>, p: seq<Prompt>, rows: seq<seq<string>>, later: seq<nat>, laterRows: seq<seq<string>>)
    requires |p| == |q| == |rows| && |cur| == |images|
    requires forall k :: 0 <= k < |q| ==> q[k] <= i < |images| && p[k] == Payload(images[q[k]])
    requires forall k :: 0 <= k < |q| ==> Answered(client, handle, p[k], rows[k])
    requires forall n :: 0 <= n < |images| && n !in q ==> cur[n] == images[n]
    requires |laterRows| == |later|
    requires forall k :: 0 <= k < |later| ==>
      i < later[k] < |cur| && Answered(client, handle, Payload(cur[later[k]]), laterRows[k])
    ensures |rows + laterRows| == |q + later|
    ensures forall k :: 0 <= k < |q + later| ==>
      && ((q + later)[k] in q || i < (q + later)[k] < |images|)
      && Answered(client, handle, Payload(images[(q + later)[k]]), (rows + laterRows)[k])
  {
    forall k | 0 <= k < |q + later|
      ensures ((q + later)[k] in q || i < (q + later)[k] < |images|)
      ensures Answered(client, handle, Payload(images[(q + later)[k]]), (rows + laterRows)[k])
    {
      if k >= |q| {
        var d := later[k - |q|];
        assert (q + later)[k] == d && (rows + laterRows)[k] == laterRows[k - |q|];
        assert d !in q;
      }
    }
  }

  /** Every image a whole run commits is rewritten with a row the handler
      accepted for that image's own prompt. */
  lemma GroqRunAnswers(images: seq<Image>, st: Stores, cap: nat, client: Client, handle: Handler,
                       faults: nat -> CommitFault, made: nat)
    ensures var r := GroqRun(images, st, cap, client, handle, faults, made);
      && |r.rows| == |Flatten(r.run.flushed)|
      && (forall k :: 0 <= k < |Flatten(r.run.flushed)| ==>
            && Flatten(r.run.flushed)[k] < |images|
            && Answered(client, handle, Payload(images[Flatten(r.run.flushed)[k]]), r.rows[k]))
  {
    GroqRunFromAnswers(images, st, cap, client, handle, faults, made, 0, [], []);
  }

  /** Without commit faults, a completed run marks every image of the
      dataset in the checkpoint and appends the committed images, in order,
      to the output. */
  lemma GroqRunMarksAll(images: seq<Image>, st: Stores, cap: nat, client: Client, handle: Handler,
                        faults: nat -> CommitFault, made: nat)
    requires Unique(Ids(images))
    requires forall n :: faults(n) == NoFault
    requires GroqRun(images, st, cap, client, handle, faults, made).run.outcome == Completed
    ensures var r := GroqRun(images, st, cap, client, handle, faults, made);
      && r.run.stores.output.images == st.output.images + r.run.committed
      && forall p :: 0 <= p < |images| ==> NatToString(images[p].imgid) in r.run.stores.checkpoint
  {
    var r := GroqRun(images, st, cap, client, handle, faults, made);
    GroqRunCommitsPending(images, st, cap, client, handle, faults, made);
    GroqRunFaultFreeStores(images, st, cap, client, handle, faults, made);
    MarksEvery(Ids(images), st.checkpoint, r.run.committed, r.run.stores.checkpoint);
    assert |Ids(images)| == |images| && forall p :: 0 <= p < |images| ==> Ids(images)[p] == images[p].imgid;
  }

  /** A completed run commits one image per pending position, in order. */
  lemma GroqRunCommitsPending(images: seq<Image>, st: Stores, cap: nat, client: Client, handle: Handler,
                              faults: nat -> CommitFault, made: nat)
    requires Unique(Ids(images))
    requires GroqRun(images, st, cap, client, handle, faults, made).run.outcome == Completed
    ensures var r := GroqRun(images, st, cap, client, handle, faults, made);
      var pending := PendingFrom(Ids(images), st.checkpoint, 0);
      && |r.run.committed| == |pending|
      && forall k :: 0 <= k < |r.run.committed| ==>
           pending[k] < |Ids(images)| && r.run.committed[k].imgid == Ids(images)[pending[k]]
  {
    GroqRunRewrites(images, st, cap, client, handle, faults, made);
  }

  /** Without commit faults a run appends what it commits to the output and
      adds the keys of what it commits to the checkpoint, dropping none. */
  lemma GroqRunFaultFreeStores(images: seq<Image>, st: Stores, cap: nat, client: Client, handle: Handler,
                               faults: nat -> CommitFault, made: nat)
    requires Unique(Ids(images))
    requires forall n :: faults(n) == NoFault
    ensures var r := GroqRun(images, st, cap, client, handle, faults, made);
      && r.run.stores.output.images == st.output.images + r.run.committed
      && st.checkpoint.Keys <= r.run.stores.checkpoint.Keys
      && KeysOf(r.run.committed) <= r.run.stores.checkpoint.Keys
  {
    var r := GroqRun(images, st, cap, client, handle, faults, made);
    GroqRunMeets(images, st, cap, client, handle, faults, made);
    CommitAllKeys(st, r.run.committed, faults);
    if r.run.committed != [] {
      CommitAllFaultFree(st, r.run.committed, faults);
    } else {
      assert st.output.images + r.run.committed == st.output.images;
    }
  }


  /** Whatever faults its commits meet and however it ends, a run keeps the
      stores synced and resumable. */
  lemma GroqRunResumable(images: seq<Image>, st: Stores, cap: nat, client: Client, handle: Handler,
                         faults: nat -> CommitFault, made: nat)
    requires Synced(st) && Marked(st)
    ensures var r := GroqRun(images, st, cap, client, handle, faults, made);
      Synced(r.run.stores) && Marked(r.run.stores) && Resumable(r.run.stores)
  {
    GroqRunFromStores(images, st, cap, client, handle, faults, made, 0, [], []);
    CommitAllResumable(st, GroqRun(images, st, cap, client, handle, faults, made).run.committed, faults);
  }

  class GroqTranslate {
    var base: BaseTranslator
    /** `requests_made` */
    var requestsMade: nat
    /** The lines appended to the log of invalid answers. */
    var invalidAnswers: seq<string>

    /** `__init__`: the base translator, with the batch cap lowered to 30,
        and no request made yet. */
    constructor (source: array<Image>, storedCheckpoint: Option<Checkpoint>, storedOutput: Option<Output>)
      ensures fresh(base) && base.source == source && base.maxSentenceBatches == GroqBatchCap
      ensures base.checkpoint == if storedCheckpoint.Some? then storedCheckpoint.value else map[]
      ensures base.outputFile == if storedOutput.Some? then storedOutput.value else Output([], DatasetName)
      ensures Synced(base.State())
      ensures requestsMade == 0 && invalidAnswers == []
    {
      base := new BaseTranslator(source, storedCheckpoint, storedOutput);
      requestsMade := 0;
      invalidAnswers := [];
      new;
      base.maxSentenceBatches := GroqBatchCap;
    }

    /** The `while True` loop of `send_sentences_to_api` for one prompt:
        every request is counted, an invalid answer is logged and retried. */
    method Request(prompt: Prompt, client: Client, handle: Handler) returns (outcome: Outcome, row: seq<string>)
      modifies this`requestsMade, this`invalidAnswers
      ensures var a := Ask(prompt, client, handle, old(requestsMade));
        && outcome == a.outcome && row == a.row
        && requestsMade == a.made && invalidAnswers == old(invalidAnswers) + a.logged
    {
      ghost var log0 := invalidAnswers;
      ghost var goal := Ask(prompt, client, handle, requestsMade);
      while true
        invariant Ask(prompt, client, handle, requestsMade).outcome == goal.outcome
        invariant Ask(prompt, client, handle, requestsMade).made == goal.made
        invariant Ask(prompt, client, handle, requestsMade).row == goal.row
        invariant invalidAnswers + Ask(prompt, client, handle, requestsMade).logged == log0 + goal.logged
        decreases DailyRequestCap - requestsMade
      {
        var text := client(prompt, requestsMade);
        requestsMade := requestsMade + 1;
        if requestsMade >= DailyRequestCap {
          return DailyLimit, [];
        }
        match handle(text)
        case Crash =>
          return Outcome.EmptyAnswer, [];
        case Retry(lines) =>
          AppendAssoc(invalidAnswers, lines, Ask(prompt, client, handle, requestsMade).logged);
          invalidAnswers := invalidAnswers + lines;
        case Accepted(sentences, lines) =>
          invalidAnswers := invalidAnswers + lines;
          return Completed, sentences;
      }
    }

    /** `send_sentences_to_api`: for each prompt in order, requests until an
        answer is accepted; reaching the daily ceiling or an empty answer
        raises. `handle` is what the loop does with an answer: `Handling`
        for the translator. */
    method SendSentencesToApi(prompts: seq<Prompt>, client: Client, handle: Handler)
      returns (outcome: Outcome, translated: seq<seq<string>>)
      modifies this`requestsMade, this`invalidAnswers
      ensures var s := AskAll(prompts, |prompts|, client, handle, old(requestsMade));
        && outcome == s.outcome && translated == s.rows
        && requestsMade == s.made && invalidAnswers == old(invalidAnswers) + s.logged
    {
      ghost var made0, log0 := requestsMade, invalidAnswers;
      outcome, translated := Completed, [];
      var k := 0;
      while k < |prompts| && outcome == Completed
        invariant k <= |prompts|
        invariant AskAll(prompts, k, client, handle, made0).outcome == outcome
        invariant AskAll(prompts, k, client, handle, made0).rows == translated
        invariant AskAll(prompts, k, client, handle, made0).made == requestsMade
        invariant invalidAnswers == log0 + AskAll(prompts, k, client, handle, made0).logged
      {
        ghost var prev := AskAll(prompts, k, client, handle, made0);
        var row;
        outcome, row := Request(prompts[k], client, handle);
        ghost var a := Ask(prompts[k], client, handle, prev.made);
        AppendAssoc(log0, prev.logged, a.logged);
        if outcome == Completed {
          translated := translated + [row];
        }
        k := k + 1;
      }
      if outcome != Completed {
        AskAllStops(prompts, |prompts|, client, handle, made0, k);
      }
    }

    /** The flush of `translate_sentences` at the image at position `i`,
        where the queue `queue` with its prompts `prompts` has become `q`
        with `p`: the prompts are sent and, when every one is answered, the
        queued images are rewritten and committed. `outcome` is `Completed`
        when the run goes on; `rows` are the rows accepted and `logged` the
        lines logged. */
    method Flush(i: nat, ghost queue: seq<nat>, ghost prompts: seq<Prompt>, q: seq<nat>, p: seq<Prompt>,
                 client: Client, decode: Decoder, faults: nat -> CommitFault)
      returns (outcome: Outcome, rows: seq<seq<string>>, batch: seq<Image>, ghost logged: seq<string>)
      requires i < base.source.Length && |prompts| == |queue| && requestsMade < DailyGuard
      requires forall k :: 0 <= k < |queue| ==> queue[k] < base.source.Length
      requires q == if NatToString(base.source[i].imgid) in base.checkpoint then queue else queue + [i]
      requires p == if NatToString(base.source[i].imgid) in base.checkpoint then prompts else prompts + [Payload(base.source[i])]
      requires |q| >= base.maxSentenceBatches || base.source[i].imgid == base.source[base.source.Length - 1].imgid
      modifies this`requestsMade, this`invalidAnswers, base, base.destJson.images, base.source
      ensures base.source == old(base.source) && base.destJson == old(base.destJson)
      ensures base.maxSentenceBatches == old(base.maxSentenceBatches)
      ensures invalidAnswers == old(invalidAnswers) + logged
      ensures GroqRunFrom(old(base.source[..]), old(base.State()), base.maxSentenceBatches, client, Handling(decode),
                          faults, old(requestsMade), i, queue, prompts)
        == if outcome == Completed
           then GroqAfter([q], batch, rows, logged, GroqRunFrom(base.source[..], base.State(), base.maxSentenceBatches,
                                                               client, Handling(decode), faults, requestsMade, i + 1, [], []))
           else GroqEnd(RunEnd(outcome, [], [], base.State(), base.source[..]), [], requestsMade, logged)
    {
      GroqRunFromFlushes(base.source[..], base.State(), base.maxSentenceBatches, client, Handling(decode), faults, requestsMade,
                         i, queue, prompts, q, p);
      ghost var made0 := requestsMade;
      var results;
      outcome, results := SendSentencesToApi(p, client, Handling(decode));
      logged := AskAll(p, |p|, client, Handling(decode), made0).logged;
      rows, batch := [], [];
      if outcome == Completed {
        var ok;
        ok, batch := FlushBatch(base, q, results, faults);
        if ok {
          rows := results;
        } else {
          outcome := MissingTranslation;
        }
      }
    }

    /** One iteration of the loop of `translate_sentences`, at the image at
        position `i`: raises at the daily guard, queues the image's prompt
        unless its key is checkpointed, and flushes the queue when it is
        full or the image's `imgid` is the last one's. `outcome` is
        `Completed` when the run goes on; `flushedNow`, `batch`, `rows` and
        `logged` are what the flush, if any, committed, accepted and logged. */
    method Visit(i: nat, queue: seq<nat>, prompts: seq<Prompt>, client: Client, decode: Decoder, faults: nat -> CommitFault)
      returns (outcome: Outcome, q: seq<nat>, p: seq<Prompt>, flushedNow: seq<seq<nat>>, batch: seq<Image>,
               rows: seq<seq<string>>, ghost logged: seq<string>)
      requires i < base.source.Length && |prompts| == |queue|
      requires forall k :: 0 <= k < |queue| ==> queue[k] < base.source.Length
      modifies this`requestsMade, this`invalidAnswers, base, base.destJson.images, base.source
      ensures base.source == old(base.source) && base.destJson == old(base.destJson)
      ensures base.maxSentenceBatches == old(base.maxSentenceBatches)
      ensures |p| == |q| && forall k :: 0 <= k < |q| ==> q[k] < base.source.Length
      ensures invalidAnswers == old(invalidAnswers) + logged
      ensures GroqRunFrom(old(base.source[..]), old(base.State()), base.maxSentenceBatches, client, Handling(decode),
                          faults, old(requestsMade), i, queue, prompts)
        == if outcome == Completed
           then GroqAfter(flushedNow, batch, rows, logged, GroqRunFrom(base.source[..], base.State(), base.maxSentenceBatches,
                                                                      client, Handling(decode), faults, requestsMade, i + 1, q, p))
           else GroqEnd(RunEnd(outcome, [], [], base.State(), base.source[..]), [], requestsMade, logged)
    {
      var images := base.source;
      ghost var st0, images0 := base.State(), images[..];
      q, p, flushedNow, batch, rows, logged := queue, prompts, [], [], [], [];
      if requestsMade >= DailyGuard {
        return DailyLimit, q, p, flushedNow, batch, rows, logged;
      }
      var image := images[i];
      if NatToString(image.imgid) !in base.checkpoint {
        q := q + [i];
        p := p + [Payload(image)];
      }
      if |q| >= base.maxSentenceBatches || image.imgid == images[images.Length - 1].imgid {
        outcome, rows, batch, logged := Flush(i, queue, prompts, q, p, client, decode, faults);
        flushedNow := [q];
        q, p := [], [];
      } else {
        GroqRunFromQueues(images0, st0, base.maxSentenceBatches, client, Handling(decode), faults, requestsMade,
                          i, queue, prompts, q, p);
        outcome := Completed;
        assert logged == [] && invalidAnswers == old(invalidAnswers) + [];
      }
    }

    /** `translate_sentences`: walks the dataset, raising once
        `requests_made` reaches the daily guard, queues the prompt of every
        image whose key is not checkpointed, and flushes the queue when it
        holds `max_sentence_batches` images or at the last image. `flushed`
        lists the batches committed (as positions in the dataset) and
        `committed` the rewritten images, in order. */
    method TranslateSentences(client: Client, decode: Decoder, faults: nat -> CommitFault)
      returns (outcome: Outcome, flushed: seq<seq<nat>>, committed: seq<Image>)
      modifies this`requestsMade, this`invalidAnswers, base, base.destJson.images, base.source
      ensures base.source == old(base.source) && base.destJson == old(base.destJson)
      ensures base.maxSentenceBatches == old(base.maxSentenceBatches)
      ensures var r := GroqRun(old(base.source[..]), old(base.State()), base.maxSentenceBatches, client, Handling(decode),
                               faults, old(requestsMade));
        && RunEnd(outcome, flushed, committed, base.State(), base.source[..]) == r.run
        && requestsMade == r.made && invalidAnswers == old(invalidAnswers) + r.logged
    {
      var images := base.source;
      var n := images.Length;
      var cap := base.maxSentenceBatches;
      ghost var log0 := invalidAnswers;
      ghost var total := GroqRun(images[..], base.State(), cap, client, Handling(decode), faults, requestsMade);
      // translating_img_ids, as positions in the dataset
      var translatingImgIds: seq<nat> := [];
      var translatingSentences: seq<Prompt> := [];
      flushed, committed := [], [];
      ghost var rows: seq<seq<string>>, logged: seq<string> := [], [];
      var i := 0;
      while i < n
        invariant i <= n
        invariant base.source == images && base.destJson == old(base.destJson)
        invariant base.maxSentenceBatches == cap
        invariant |translatingSentences| == |translatingImgIds|
        invariant forall k :: 0 <= k < |translatingImgIds| ==> translatingImgIds[k] < n
        invariant invalidAnswers == log0 + logged
        invariant total == GroqAfter(flushed, committed, rows, logged,
          GroqRunFrom(images[..], base.State(), cap, client, Handling(decode), faults, requestsMade,
                      i, translatingImgIds, translatingSentences))
      {
        var flushedNow, batch, rowsNow;
        ghost var loggedNow;
        outcome, translatingImgIds, translatingSentences, flushedNow, batch, rowsNow, loggedNow :=
          Visit(i, translatingImgIds, translatingSentences, client, decode, faults);
        AppendAssoc(log0, logged, loggedNow);
        if outcome != Completed {
          assert flushed + [] == flushed && committed + [] == committed;
          return;
        }
        GroqAfterAfter(flushed, committed, rows, logged, flushedNow, batch, rowsNow, loggedNow,
          GroqRunFrom(images[..], base.State(), cap, client, Handling(decode), faults, requestsMade,
                      i + 1, translatingImgIds, translatingSentences));
        flushed, committed, rows, logged := flushed + flushedNow, committed + batch, rows + rowsNow, logged + loggedNow;
        i := i + 1;
      }
      outcome := Completed;
      assert flushed + [] == flushed && committed + [] == committed && logged + [] == logged;
    }
  }
}
