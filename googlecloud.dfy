/**
 * The Google Cloud translator (translation/googlecloud_translator.py):
 * batches of up to 50 images, each image sent as the list of its raw
 * sentences, translated by the Translation API one list per request.
 */
module GoogleCloud {
  import opened Common
  import opened Strings
  import opened BaseTranslation
  import opened Batching

  /** `max_sentence_batches` of this translator. */
  const GoogleBatchCap: nat := 50

  /** `translate_text` with a fixed project and languages: the translations
      of a list of contents. */
  type TranslateApi = seq<string> -> seq<string>

  /** The rows the API returns for the images at `positions`. */
  function ApiRows(images: seq<Image>, positions: seq<nat>, api: TranslateApi): seq<seq<string>>
    requires forall k :: 0 <= k < |positions| ==> positions[k] < |images|
  {
    seq(|positions|, k requires 0 <= k < |positions| => api(Raws(images[positions[k]])))
  }

  /** The API's translation of every image at `positions` fits it. */
  predicate AllFit(images: seq<Image>, positions: seq<nat>, api: TranslateApi)
    requires forall k :: 0 <= k < |positions| ==> positions[k] < |images|
  {
    forall k :: 0 <= k < |positions| ==> Fits(images[positions[k]], api(Raws(images[positions[k]])))
  }

  lemma AllFitAppend(images: seq<Image>, a: seq<nat>, b: seq<nat>, api: TranslateApi)
    requires forall k :: 0 <= k < |a| ==> a[k] < |images|
    requires forall k :: 0 <= k < |b| ==> b[k] < |images|
    ensures AllFit(images, a + b, api) <==> AllFit(images, a, api) && AllFit(images, b, api)
  {
    if AllFit(images, a, api) && AllFit(images, b, api) {
      forall k | 0 <= k < |a + b|
        ensures Fits(images[(a + b)[k]], api(Raws(images[(a + b)[k]])))
      {
        if k >= |a| {
          assert (a + b)[k] == b[k - |a|];
        }
      }
    }
    if AllFit(images, a + b, api) {
      forall k | 0 <= k < |a| ensures Fits(images[a[k]], api(Raws(images[a[k]]))) {
        assert (a + b)[k] == a[k];
      }
      forall k | 0 <= k < |b| ensures Fits(images[b[k]], api(Raws(images[b[k]]))) {
        assert (a + b)[|a| + k] == b[k];
      }
    }
  }

  lemma ApiRowsAppend(images: seq<Image>, a: seq<nat>, b: seq<nat>, api: TranslateApi)
    requires forall k :: 0 <= k < |a| ==> a[k] < |images|
    requires forall k :: 0 <= k < |b| ==> b[k] < |images|
    ensures ApiRows(images, a + b, api) == ApiRows(images, a, api) + ApiRows(images, b, api)
  {
  }

  /** `send_sentences_to_api` as a value: one translated list per list of sentences. */
  function Translations(matrix: seq<seq<string>>, api: TranslateApi): seq<seq<string>> {
    seq(|matrix|, k requires 0 <= k < |matrix| => api(matrix[k]))
  }

  /** The batches `flushed` hold positions of the dataset, and the images
      committed are the images at those positions, in order, each rewritten
      with the API's translation of its raw sentences. */
  ghost predicate Done(images0: seq<Image>, api: TranslateApi, flushed: seq<seq<nat>>, committed: seq<Image>) {
    && (forall k :: 0 <= k < |Flatten(flushed)| ==> Flatten(flushed)[k] < |images0|)
    && committed == Rewritten(images0, Flatten(flushed), ApiRows(images0, Flatten(flushed), api))
  }

  /** What the rest `r` of a run achieves when `flushed` and `committed`
      precede it and `w` remains of the schedule: it flushes a prefix of `w`
      (all of it when it completes), it completes exactly when the API's
      translation of every image of `w` fits it, the images committed are
      those flushed rewritten with the API's rows, and when it completes the
      dataset holds them. */
  ghost predicate Meets(images0: seq<Image>, ckpt0: Checkpoint, cap: nat, api: TranslateApi,
                        flushed: seq<seq<nat>>, committed: seq<Image>, w: seq<seq<nat>>, r: RunEnd) {
    && r.flushed <= w
    && (r.outcome == Completed ==> r.flushed == w)
    && (forall k :: 0 <= k < |Flatten(w)| ==> Flatten(w)[k] < |images0|)
    && (r.outcome == Completed <==> AllFit(images0, Flatten(w), api))
    && Done(images0, api, flushed + r.flushed, committed + r.committed)
    && (r.outcome == Completed ==> Translated(images0, Flatten(flushed + r.flushed),
          ApiRows(images0, Flatten(flushed + r.flushed), api), committed + r.committed, r.images, |images0|))
  }

  /** The loop of `translate_sentences` from image `i` on, as a value:
      `queue` and `sentences` are `translating_img_ids` (as positions) and
      `translating_sentences`, and `st` the stores at that point. The image
      is queued unless its key is in the live checkpoint; a full queue, or
      any queue at the image whose `imgid` is the last one's, is translated,
      rewritten in place and committed. A row too short ends the run. */
  function RunFrom(images: seq<Image>, st: Stores, cap: nat, api: TranslateApi, faults: nat -> CommitFault,
                   i: nat, queue: seq<nat>, sentences: seq<seq<string>>): (r: RunEnd)
    requires i <= |images| && |sentences| == |queue|
    requires forall k :: 0 <= k < |queue| ==> queue[k] < |images|
    ensures r.outcome == Completed || r.outcome == MissingTranslation
    decreases |images| - i, 1
  {
    if i == |images| then RunEnd(Completed, [], [], st, images)
    else
      var image := images[i];
      var q := if NatToString(image.imgid) in st.checkpoint then queue else queue + [i];
      var s := if NatToString(image.imgid) in st.checkpoint then sentences else sentences + [Raws(image)];
      if |q| >= cap || image.imgid == images[|images| - 1].imgid then FlushFrom(images, st, cap, api, faults, i, q, s)
      else RunFrom(images, st, cap, api, faults, i + 1, q, s)
  }

  /** The flush at image `i` and the rest of the run: the queue is
      translated, rewritten in place and committed. */
  function FlushFrom(images: seq<Image>, st: Stores, cap: nat, api: TranslateApi, faults: nat -> CommitFault,
                     i: nat, q: seq<nat>, s: seq<seq<string>>): (r: RunEnd)
    requires i < |images| && |s| == |q|
    requires forall k :: 0 <= k < |q| ==> q[k] < |images|
    ensures r.outcome == Completed || r.outcome == MissingTranslation
    decreases |images| - i, 0
  {
    var rw := RewriteAt(images, q, Translations(s, api));
    if !rw.ok then RunEnd(MissingTranslation, [], [], st, rw.images)
    else After([q], rw.rewritten, RunFrom(rw.images, CommitAll(st, rw.rewritten, faults), cap, api, faults, i + 1, [], []))
  }

  /** A flush whose rewrite succeeds commits the rewritten images and
      carries on from the next image with an empty queue. */
  lemma FlushFromOk(images: seq<Image>, st: Stores, cap: nat, api: TranslateApi, faults: nat -> CommitFault,
                    i: nat, q: seq<nat>, s: seq<seq<string>>, rw: Rewrite)
    requires i < |images| && |s| == |q|
    requires forall k :: 0 <= k < |q| ==> q[k] < |images|
    requires rw == RewriteAt(images, q, Translations(s, api)) && rw.ok
    ensures |rw.images| == |images|
    ensures FlushFrom(images, st, cap, api, faults, i, q, s)
         == After([q], rw.rewritten, RunFrom(rw.images, CommitAll(st, rw.rewritten, faults), cap, api, faults, i + 1, [], []))
  {
  }

  /** One step of `RunFrom` at an image that does not flush the queue. */
  lemma RunFromQueues(images: seq<Image>, st: Stores, cap: nat, api: TranslateApi, faults: nat -> CommitFault,
                      i: nat, queue: seq<nat>, sentences: seq<seq<string>>, q: seq<nat>, s: seq<seq<string>>)
    requires i < |images| && |sentences| == |queue|
    requires forall k :: 0 <= k < |queue| ==> queue[k] < |images|
    requires q == if NatToString(images[i].imgid) in st.checkpoint then queue else queue + [i]
    requires s == if NatToString(images[i].imgid) in st.checkpoint then sentences else sentences + [Raws(images[i])]
    requires !(|q| >= cap || images[i].imgid == images[|images| - 1].imgid)
    ensures RunFrom(images, st, cap, api, faults, i, queue, sentences) == RunFrom(images, st, cap, api, faults, i + 1, q, s)
  {
  }

  /** One step of `RunFrom` at an image that flushes the queue. */
  lemma RunFromFlushes(images: seq<Image>, st: Stores, cap: nat, api: TranslateApi, faults: nat -> CommitFault,
                       i: nat, queue: seq<nat>, sentences: seq<seq<string>>, q: seq<nat>, s: seq<seq<string>>)
    requires i < |images| && |sentences| == |queue|
    requires forall k :: 0 <= k < |queue| ==> queue[k] < |images|
    requires q == if NatToString(images[i].imgid) in st.checkpoint then queue else queue + [i]
    requires s == if NatToString(images[i].imgid) in st.checkpoint then sentences else sentences + [Raws(images[i])]
    requires |q| >= cap || images[i].imgid == images[|images| - 1].imgid
    ensures var rw := RewriteAt(images, q, Translations(s, api));
      RunFrom(images, st, cap, api, faults, i, queue, sentences) ==
        if !rw.ok then RunEnd(MissingTranslation, [], [], st, rw.images)
        else After([q], rw.rewritten, RunFrom(rw.images, CommitAll(st, rw.rewritten, faults), cap, api, faults, i + 1, [], []))
  {
  }

  /** A whole run of `translate_sentences` on the dataset `images` from the stores `st`. */
  function GoogleRun(images: seq<Image>, st: Stores, cap: nat, api: TranslateApi, faults: nat -> CommitFault): RunEnd {
    RunFrom(images, st, cap, api, faults, 0, [], [])
  }

  // ---------------------------------------------------------------------
  // What a run achieves
  // ---------------------------------------------------------------------

  /** The state of `RunFrom` at image `i` of a run that started on
      `images0` with the checkpoint `ckpt0`: the batches flushed so far
      follow the schedule, the dataset `cur` holds their images rewritten
      with the API's rows, the live checkpoint `live` agrees with `ckpt0`
      on the images still to come, and `sentences` are the raw sentences of
      the queued images. */
  ghost predicate Midway(images0: seq<Image>, ckpt0: Checkpoint, cap: nat, api: TranslateApi,
                         lo: nat, i: nat, queue: seq<nat>, sentences: seq<seq<string>>,
                         flushed: seq<seq<nat>>, committed: seq<Image>, cur: seq<Image>, live: Checkpoint) {
    && Progress(Ids(images0), ckpt0, cap, lo, i, queue, flushed)
    && Translated(images0, Flatten(flushed), ApiRows(images0, Flatten(flushed), api), committed, cur, lo)
    && Agrees(Ids(images0), ckpt0, live, i)
    && |sentences| == |queue|
    && (forall k :: 0 <= k < |queue| ==> sentences[k] == Raws(images0[queue[k]]))
  }

  lemma MidwayStart(images0: seq<Image>, ckpt0: Checkpoint, cap: nat, api: TranslateApi)
    ensures Midway(images0, ckpt0, cap, api, 0, 0, [], [], [], [], images0, ckpt0)
  {
    ProgressStart(Ids(images0), ckpt0, cap);
    TranslatedStart(images0);
  }

  /** The live checkpoint queues image `i` exactly as the loaded one would,
      and image `i` is still as loaded. */
  lemma MidwayEnqueue(images0: seq<Image>, ckpt0: Checkpoint, cap: nat, api: TranslateApi,
                      lo: nat, i: nat, queue: seq<nat>, sentences: seq<seq<string>>,
                      flushed: seq<seq<nat>>, committed: seq<Image>, cur: seq<Image>, live: Checkpoint)
    requires i < |images0|
    requires Midway(images0, ckpt0, cap, api, lo, i, queue, sentences, flushed, committed, cur, live)
    ensures (NatToString(cur[i].imgid) in live) == (NatToString(Ids(images0)[i]) in ckpt0)
    ensures cur[i] == images0[i] && cur[i].imgid == Ids(images0)[i]
    ensures cur[|cur| - 1].imgid == Ids(images0)[|images0| - 1]
    ensures var q := if NatToString(cur[i].imgid) in live then queue else queue + [i];
      var s := if NatToString(cur[i].imgid) in live then sentences else sentences + [Raws(cur[i])];
      && q == Enqueue(Ids(images0), ckpt0, i, queue)
      && s == (if q == queue then sentences else sentences + [Raws(images0[i])])
      && (FlushesAt(Ids(images0), cap, i, q) <==> |q| >= cap || cur[i].imgid == cur[|cur| - 1].imgid)
  {
    var ids := Ids(images0);
    assert KeyAt(ids, i) in live <==> KeyAt(ids, i) in ckpt0;
    assert |cur| == |ids| && cur[i] == images0[i];
    assert cur[|cur| - 1].imgid == images0[|images0| - 1].imgid == ids[|ids| - 1];
  }

  lemma QueuedRaws(images0: seq<Image>, queue: seq<nat>, sentences: seq<seq<string>>, i: nat)
    requires i < |images0| && |sentences| == |queue|
    requires forall k :: 0 <= k < |queue| ==> queue[k] < |images0| && sentences[k] == Raws(images0[queue[k]])
    ensures forall k :: 0 <= k < |queue| + 1 ==>
      (queue + [i])[k] < |images0| && (sentences + [Raws(images0[i])])[k] == Raws(images0[(queue + [i])[k]])
  {
  }

  /** The requests for the raw sentences of the images at `q` are the API's rows for them. */
  lemma TranslationsOfRaws(images0: seq<Image>, q: seq<nat>, s: seq<seq<string>>, api: TranslateApi)
    requires |s| == |q|
    requires forall k :: 0 <= k < |q| ==> q[k] < |images0| && s[k] == Raws(images0[q[k]])
    ensures Translations(s, api) == ApiRows(images0, q, api)
  {
  }

  /** A pass that does not flush keeps the run midway. */
  lemma MidwayQueues(images0: seq<Image>, ckpt0: Checkpoint, cap: nat, api: TranslateApi,
                     lo: nat, i: nat, queue: seq<nat>, sentences: seq<seq<string>>,
                     flushed: seq<seq<nat>>, committed: seq<Image>, cur: seq<Image>, live: Checkpoint,
                     q: seq<nat>, s: seq<seq<string>>)
    requires i < |images0|
    requires Midway(images0, ckpt0, cap, api, lo, i, queue, sentences, flushed, committed, cur, live)
    requires q == Enqueue(Ids(images0), ckpt0, i, queue)
    requires s == if q == queue then sentences else sentences + [Raws(images0[i])]
    requires !FlushesAt(Ids(images0), cap, i, q)
    ensures Walk(Ids(images0), ckpt0, cap, i, queue) == Walk(Ids(images0), ckpt0, cap, i + 1, q)
    ensures Midway(images0, ckpt0, cap, api, lo, i + 1, q, s, flushed, committed, cur, live)
  {
    ProgressStep(Ids(images0), ckpt0, cap, lo, i, queue, flushed);
    if q != queue {
      QueuedRaws(images0, queue, sentences, i);
    }
  }

  /** The requests built for a queue are the API's rows for its images. */
  lemma FlushRows(images0: seq<Image>, queue: seq<nat>, sentences: seq<seq<string>>, i: nat,
                  q: seq<nat>, s: seq<seq<string>>, api: TranslateApi)
    requires i < |images0| && |sentences| == |queue|
    requires forall k :: 0 <= k < |queue| ==> queue[k] < |images0| && sentences[k] == Raws(images0[queue[k]])
    requires q == queue || q == queue + [i]
    requires s == if q == queue then sentences else sentences + [Raws(images0[i])]
    ensures forall k :: 0 <= k < |q| ==> q[k] < |images0|
    ensures Translations(s, api) == ApiRows(images0, q, api)
  {
    if q != queue {
      QueuedRaws(images0, queue, sentences, i);
    }
    TranslationsOfRaws(images0, q, s, api);
  }

  /** Rewriting images still as loaded at increasing positions with the
      API's rows succeeds exactly when every row fits. */
  lemma FlushFits(images0: seq<Image>, cur: seq<Image>, q: seq<nat>, rows: seq<seq<string>>, api: TranslateApi)
    requires |cur| == |images0|
    requires forall k :: 0 <= k < |q| ==> q[k] < |images0| && cur[q[k]] == images0[q[k]]
    requires forall j, k :: 0 <= j < k < |q| ==> q[j] < q[k]
    requires rows == ApiRows(images0, q, api)
    ensures RewriteAt(cur, q, rows).ok <==> AllFit(images0, q, api)
  {
    RewriteAtOk(cur, q, rows);
  }

  /** A pass that flushes sends the API the raw sentences of the queued
      images and succeeds exactly when every translation fits. */
  lemma MidwayFlushes(images0: seq<Image>, ckpt0: Checkpoint, cap: nat, api: TranslateApi,
                      lo: nat, i: nat, queue: seq<nat>, sentences: seq<seq<string>>,
                      flushed: seq<seq<nat>>, committed: seq<Image>, cur: seq<Image>, live: Checkpoint,
                      q: seq<nat>, s: seq<seq<string>>)
    requires i < |images0|
    requires Midway(images0, ckpt0, cap, api, lo, i, queue, sentences, flushed, committed, cur, live)
    requires q == Enqueue(Ids(images0), ckpt0, i, queue)
    requires s == if q == queue then sentences else sentences + [Raws(images0[i])]
    requires FlushesAt(Ids(images0), cap, i, q)
    ensures forall k :: 0 <= k < |q| ==> q[k] < |images0|
    ensures Walk(Ids(images0), ckpt0, cap, i, queue) == [q] + Walk(Ids(images0), ckpt0, cap, i + 1, [])
    ensures Translations(s, api) == ApiRows(images0, q, api)
    ensures RewriteAt(cur, q, Translations(s, api)).ok <==> AllFit(images0, q, api)
  {
    WalkFlushes(Ids(images0), ckpt0, cap, i, queue);
    FlushRows(images0, queue, sentences, i, q, s, api);
    assert (forall k :: 0 <= k < |q| ==> cur[q[k]] == images0[q[k]]) && (forall j, k :: 0 <= j < k < |q| ==> q[j] < q[k]) by {
      FlushedQueue(images0, ckpt0, cap, lo, i, queue, flushed, ApiRows(images0, Flatten(flushed), api), committed, cur, q);
    }
    FlushFits(images0, cur, q, Translations(s, api), api);
  }

  /** A successful flush keeps the run midway past `i`. */
  lemma MidwayFlushOk(images0: seq<Image>, ckpt0: Checkpoint, cap: nat, api: TranslateApi,
                      lo: nat, i: nat, queue: seq<nat>, sentences: seq<seq<string>>,
                      flushed: seq<seq<nat>>, committed: seq<Image>, cur: seq<Image>, st: Stores,
                      faults: nat -> CommitFault, q: seq<nat>, rows: seq<seq<string>>)
    requires DistinctFrom(Ids(images0), 0) && i < |images0|
    requires Midway(images0, ckpt0, cap, api, lo, i, queue, sentences, flushed, committed, cur, st.checkpoint)
    requires q == Enqueue(Ids(images0), ckpt0, i, queue) && FlushesAt(Ids(images0), cap, i, q)
    requires forall k :: 0 <= k < |q| ==> q[k] < |images0|
    requires rows == ApiRows(images0, q, api)
    requires RewriteAt(cur, q, rows).ok
    ensures var rw := RewriteAt(cur, q, rows);
      Midway(images0, ckpt0, cap, api, i + 1, i + 1, [], [], flushed + [q],
             committed + rw.rewritten, rw.images, CommitAll(st, rw.rewritten, faults).checkpoint)
  {
    var ids := Ids(images0);
    ProgressStep(ids, ckpt0, cap, lo, i, queue, flushed);
    FlushedQueue(images0, ckpt0, cap, lo, i, queue, flushed, ApiRows(images0, Flatten(flushed), api), committed, cur, q);
    var rw := RewriteAt(cur, q, rows);
    var done := Flatten(flushed);
    RewriteAtOk(cur, q, rows);
    RewriteAtRewritten(cur, q, rows);
    RewriteAtPlaces(cur, q, rows);
    RewriteAtKeeps(cur, q, rows);
    TranslatedFlush(images0, done, ApiRows(images0, done, api), committed, cur, lo, q, rows, rw.images, i);
    FlattenPush(flushed, q);
    ApiRowsAppend(images0, done, q, api);
    forall k | 0 <= k < |q| ensures q[k] <= i && rw.rewritten[k].imgid == ids[q[k]] {
      RewriteImageMeaning(cur[q[k]], rows[k]);
    }
    DistinctUnique(ids);
    AgreesAfterCommit(ids, ckpt0, st, rw.rewritten, q, faults, i);
  }

  /** The stores at the end of a run are those at its start with every
      image the run committed committed in order. */
  lemma {:induction false} RunFromStores(images: seq<Image>, st: Stores, cap: nat, api: TranslateApi, faults: nat -> CommitFault,
                                         i: nat, queue: seq<nat>, sentences: seq<seq<string>>)
    requires i <= |images| && |sentences| == |queue|
    requires forall k :: 0 <= k < |queue| ==> queue[k] < |images|
    ensures var r := RunFrom(images, st, cap, api, faults, i, queue, sentences);
      r.stores == CommitAll(st, r.committed, faults)
    decreases |images| - i, 1
  {
    if i < |images| {
      var image := images[i];
      var q := if NatToString(image.imgid) in st.checkpoint then queue else queue + [i];
      var s := if NatToString(image.imgid) in st.checkpoint then sentences else sentences + [Raws(image)];
      if |q| >= cap || image.imgid == images[|images| - 1].imgid {
        FlushFromStores(images, st, cap, api, faults, i, q, s);
      } else {
        RunFromStores(images, st, cap, api, faults, i + 1, q, s);
      }
    }
  }

  lemma {:induction false} FlushFromStores(images: seq<Image>, st: Stores, cap: nat, api: TranslateApi, faults: nat -> CommitFault,
                                           i: nat, q: seq<nat>, s: seq<seq<string>>)
    requires i < |images| && |s| == |q|
    requires forall k :: 0 <= k < |q| ==> q[k] < |images|
    ensures var r := FlushFrom(images, st, cap, api, faults, i, q, s);
      r.stores == CommitAll(st, r.committed, faults)
    decreases |images| - i, 0
  {
    var rw := RewriteAt(images, q, Translations(s, api));
    if rw.ok {
      var st1 := CommitAll(st, rw.rewritten, faults);
      RunFromStores(rw.images, st1, cap, api, faults, i + 1, [], []);
      var rest := RunFrom(rw.images, st1, cap, api, faults, i + 1, [], []);
      CommitAllAppend(st, rw.rewritten, rest.committed, faults);
    }
  }

  /** A successful flush of `q` followed by a rest that meets the remaining
      schedule `rest` meets the schedule `[q] + rest`. */
  lemma MeetsAfter(images0: seq<Image>, ckpt0: Checkpoint, cap: nat, api: TranslateApi,
                   flushed: seq<seq<nat>>, committed: seq<Image>, q: seq<nat>, batch: seq<Image>,
                   rest: seq<seq<nat>>, r: RunEnd)
    requires forall k :: 0 <= k < |q| ==> q[k] < |images0|
    requires AllFit(images0, q, api)
    requires Meets(images0, ckpt0, cap, api, flushed + [q], committed + batch, rest, r)
    ensures Meets(images0, ckpt0, cap, api, flushed, committed, [q] + rest, After([q], batch, r))
  {
    assert flushed + [q] + r.flushed == flushed + ([q] + r.flushed);
    assert committed + batch + r.committed == committed + (batch + r.committed);
    FlattenAppend([q], rest);
    assert Flatten([q]) == q + Flatten([]);
    AllFitAppend(images0, q, Flatten(rest), api);
  }

  /** A flush of `q` whose translations do not all fit ends the run. */
  lemma MeetsMissing(images0: seq<Image>, ckpt0: Checkpoint, cap: nat, api: TranslateApi,
                     flushed: seq<seq<nat>>, committed: seq<Image>, q: seq<nat>, rest: seq<seq<nat>>,
                     st: Stores, images: seq<Image>)
    requires forall k :: 0 <= k < |q| ==> q[k] < |images0|
    requires forall k :: 0 <= k < |Flatten(rest)| ==> Flatten(rest)[k] < |images0|
    requires !AllFit(images0, q, api)
    requires Done(images0, api, flushed, committed)
    ensures Meets(images0, ckpt0, cap, api, flushed, committed, [q] + rest, RunEnd(MissingTranslation, [], [], st, images))
  {
    assert flushed + [] == flushed && committed + [] == committed;
    FlattenAppend([q], rest);
    assert Flatten([q]) == q + Flatten([]);
    AllFitAppend(images0, q, Flatten(rest), api);
  }

  /** From a midway state, the rest of the run flushes a prefix of the
      remaining schedule (all of it when it completes), completes exactly
      when the API's translation of every remaining image fits it, commits
      exactly the flushed images rewritten with the API's rows, and, when it
      completes, leaves them in the dataset. */
  lemma {:induction false} RunFromMeets(images0: seq<Image>, ckpt0: Checkpoint, cap: nat, api: TranslateApi,
                                        faults: nat -> CommitFault, lo: nat, i: nat, queue: seq<nat>,
                                        sentences: seq<seq<string>>, flushed: seq<seq<nat>>,
                                        committed: seq<Image>, cur: seq<Image>, st: Stores)
    requires DistinctFrom(Ids(images0), 0)
    requires Midway(images0, ckpt0, cap, api, lo, i, queue, sentences, flushed, committed, cur, st.checkpoint)
    ensures Meets(images0, ckpt0, cap, api, flushed, committed, Walk(Ids(images0), ckpt0, cap, i, queue),
                  RunFrom(cur, st, cap, api, faults, i, queue, sentences))
    decreases |images0| - i, 4
  {
    if i == |images0| {
      MidwayEnd(images0, ckpt0, cap, api, faults, lo, queue, sentences, flushed, committed, cur, st);
    } else {
      VisitMeets(images0, ckpt0, cap, api, faults, lo, i, queue, sentences, flushed, committed, cur, st);
    }
  }

  /** The pass at image `i`. */
  lemma {:induction false} VisitMeets(images0: seq<Image>, ckpt0: Checkpoint, cap: nat, api: TranslateApi,
                                      faults: nat -> CommitFault, lo: nat, i: nat, queue: seq<nat>,
                                      sentences: seq<seq<string>>, flushed: seq<seq<nat>>,
                                      committed: seq<Image>, cur: seq<Image>, st: Stores)
    requires DistinctFrom(Ids(images0), 0) && i < |images0|
    requires Midway(images0, ckpt0, cap, api, lo, i, queue, sentences, flushed, committed, cur, st.checkpoint)
    ensures Meets(images0, ckpt0, cap, api, flushed, committed, Walk(Ids(images0), ckpt0, cap, i, queue),
                  RunFrom(cur, st, cap, api, faults, i, queue, sentences))
    decreases |images0| - i, 3
  {
    MidwayEnqueue(images0, ckpt0, cap, api, lo, i, queue, sentences, flushed, committed, cur, st.checkpoint);
    var q := if NatToString(cur[i].imgid) in st.checkpoint then queue else queue + [i];
    var s := if NatToString(cur[i].imgid) in st.checkpoint then sentences else sentences + [Raws(cur[i])];
    if |q| >= cap || cur[i].imgid == cur[|cur| - 1].imgid {
      RunFromFlushes(cur, st, cap, api, faults, i, queue, sentences, q, s);
      FlushFromMeets(images0, ckpt0, cap, api, faults, lo, i, queue, sentences, flushed, committed, cur, st, q, s);
    } else {
      RunFromQueues(cur, st, cap, api, faults, i, queue, sentences, q, s);
      MidwayQueues(images0, ckpt0, cap, api, lo, i, queue, sentences, flushed, committed, cur, st.checkpoint, q, s);
      QueueFromMeets(images0, ckpt0, cap, api, faults, lo, i, queue, sentences, flushed, committed, cur, st, q, s);
    }
  }

  /** `Meets` of equal schedules and equal ends. */
  lemma MeetsSame(images0: seq<Image>, ckpt0: Checkpoint, cap: nat, api: TranslateApi,
                  flushed: seq<seq<nat>>, committed: seq<Image>, w: seq<seq<nat>>, r: RunEnd,
                  w2: seq<seq<nat>>, r2: RunEnd)
    requires w == w2 && r == r2
    requires Meets(images0, ckpt0, cap, api, flushed, committed, w2, r2)
    ensures Meets(images0, ckpt0, cap, api, flushed, committed, w, r)
  {
  }

  /** The pass at image `i` that only queues: the rest of the run from
      `i + 1` meets the rest of the schedule. */
  lemma {:induction false} QueueFromMeets(images0: seq<Image>, ckpt0: Checkpoint, cap: nat, api: TranslateApi,
                                          faults: nat -> CommitFault, lo: nat, i: nat, queue: seq<nat>,
                                          sentences: seq<seq<string>>, flushed: seq<seq<nat>>,
                                          committed: seq<Image>, cur: seq<Image>, st: Stores,
                                          q: seq<nat>, s: seq<seq<string>>)
    requires DistinctFrom(Ids(images0), 0) && i < |images0| && |cur| == |images0| && |s| == |q|
    requires forall k :: 0 <= k < |queue| ==> queue[k] < |cur|
    requires forall k :: 0 <= k < |q| ==> q[k] < |cur|
    requires |sentences| == |queue|
    requires Midway(images0, ckpt0, cap, api, lo, i + 1, q, s, flushed, committed, cur, st.checkpoint)
    requires Walk(Ids(images0), ckpt0, cap, i, queue) == Walk(Ids(images0), ckpt0, cap, i + 1, q)
    requires RunFrom(cur, st, cap, api, faults, i, queue, sentences) == RunFrom(cur, st, cap, api, faults, i + 1, q, s)
    ensures Meets(images0, ckpt0, cap, api, flushed, committed, Walk(Ids(images0), ckpt0, cap, i, queue),
                  RunFrom(cur, st, cap, api, faults, i, queue, sentences))
    decreases |images0| - i, 2
  {
    RunFromMeets(images0, ckpt0, cap, api, faults, lo, i + 1, q, s, flushed, committed, cur, st);
    MeetsSame(images0, ckpt0, cap, api, flushed, committed,
              Walk(Ids(images0), ckpt0, cap, i, queue), RunFrom(cur, st, cap, api, faults, i, queue, sentences),
              Walk(Ids(images0), ckpt0, cap, i + 1, q), RunFrom(cur, st, cap, api, faults, i + 1, q, s));
  }

  /** At the end of the dataset the run has met its whole schedule. */
  lemma MidwayEnd(images0: seq<Image>, ckpt0: Checkpoint, cap: nat, api: TranslateApi,
                  faults: nat -> CommitFault, lo: nat, queue: seq<nat>, sentences: seq<seq<string>>,
                  flushed: seq<seq<nat>>, committed: seq<Image>, cur: seq<Image>, st: Stores)
    requires Midway(images0, ckpt0, cap, api, lo, |images0|, queue, sentences, flushed, committed, cur, st.checkpoint)
    ensures Meets(images0, ckpt0, cap, api, flushed, committed, Walk(Ids(images0), ckpt0, cap, |images0|, queue),
                  RunFrom(cur, st, cap, api, faults, |images0|, queue, sentences))
  {
    assert flushed + [] == flushed && committed + [] == committed;
  }

  /** The pass at image `i` that flushes the queue, and the rest of the run. */
  lemma {:induction false} FlushFromMeets(images0: seq<Image>, ckpt0: Checkpoint, cap: nat, api: TranslateApi,
                                          faults: nat -> CommitFault, lo: nat, i: nat, queue: seq<nat>,
                                          sentences: seq<seq<string>>, flushed: seq<seq<nat>>,
                                          committed: seq<Image>, cur: seq<Image>, st: Stores,
                                          q: seq<nat>, s: seq<seq<string>>)
    requires DistinctFrom(Ids(images0), 0) && i < |images0|
    requires Midway(images0, ckpt0, cap, api, lo, i, queue, sentences, flushed, committed, cur, st.checkpoint)
    requires q == Enqueue(Ids(images0), ckpt0, i, queue)
    requires s == if q == queue then sentences else sentences + [Raws(images0[i])]
    requires FlushesAt(Ids(images0), cap, i, q)
    ensures |s| == |q| && forall k :: 0 <= k < |q| ==> q[k] < |cur|
    ensures Meets(images0, ckpt0, cap, api, flushed, committed, Walk(Ids(images0), ckpt0, cap, i, queue),
                  FlushFrom(cur, st, cap, api, faults, i, q, s))
    decreases |images0| - i, 2
  {
    MidwayFlushes(images0, ckpt0, cap, api, lo, i, queue, sentences, flushed, committed, cur, st.checkpoint, q, s);
    var ids := Ids(images0);
    var rw := RewriteAt(cur, q, Translations(s, api));
    if rw.ok {
      FlushOkFrom(images0, ckpt0, cap, api, faults, lo, i, queue, sentences, flushed, committed, cur, st, q, s);
      MeetsSame(images0, ckpt0, cap, api, flushed, committed,
                Walk(ids, ckpt0, cap, i, queue), FlushFrom(cur, st, cap, api, faults, i, q, s),
                [q] + Walk(ids, ckpt0, cap, i + 1, []), FlushFrom(cur, st, cap, api, faults, i, q, s));
    } else {
      WalkBelow(ids, ckpt0, cap, i + 1, []);
      MeetsMissing(images0, ckpt0, cap, api, flushed, committed, q, Walk(ids, ckpt0, cap, i + 1, []),
                   st, rw.images);
    }
  }

  /** A flush at `i` whose rows all fit, from a midway state. */
  lemma {:induction false} FlushOkFrom(images0: seq<Image>, ckpt0: Checkpoint, cap: nat, api: TranslateApi,
                                       faults: nat -> CommitFault, lo: nat, i: nat, queue: seq<nat>,
                                       sentences: seq<seq<string>>, flushed: seq<seq<nat>>,
                                       committed: seq<Image>, cur: seq<Image>, st: Stores,
                                       q: seq<nat>, s: seq<seq<string>>)
    requires DistinctFrom(Ids(images0), 0) && i < |images0|
    requires Midway(images0, ckpt0, cap, api, lo, i, queue, sentences, flushed, committed, cur, st.checkpoint)
    requires q == Enqueue(Ids(images0), ckpt0, i, queue) && FlushesAt(Ids(images0), cap, i, q)
    requires |s| == |q| && forall k :: 0 <= k < |q| ==> q[k] < |images0|
    requires Translations(s, api) == ApiRows(images0, q, api)
    requires RewriteAt(cur, q, Translations(s, api)).ok <==> AllFit(images0, q, api)
    requires RewriteAt(cur, q, Translations(s, api)).ok
    ensures Meets(images0, ckpt0, cap, api, flushed, committed, [q] + Walk(Ids(images0), ckpt0, cap, i + 1, []),
                  FlushFrom(cur, st, cap, api, faults, i, q, s))
    decreases |images0| - i, 1
  {
    var rw := RewriteAt(cur, q, Translations(s, api));
    MidwayFlushOk(images0, ckpt0, cap, api, lo, i, queue, sentences, flushed, committed, cur, st, faults, q,
                  Translations(s, api));
    var st1 := CommitAll(st, rw.rewritten, faults);
    FlushOkMeets(images0, ckpt0, cap, api, faults, i, flushed, committed, q, rw.rewritten, rw.images, st1);
    FlushFromOk(cur, st, cap, api, faults, i, q, s, rw);
    MeetsSame(images0, ckpt0, cap, api, flushed, committed,
              [q] + Walk(Ids(images0), ckpt0, cap, i + 1, []), FlushFrom(cur, st, cap, api, faults, i, q, s),
              [q] + Walk(Ids(images0), ckpt0, cap, i + 1, []),
              After([q], rw.rewritten, RunFrom(rw.images, st1, cap, api, faults, i + 1, [], [])));
  }

  /** A flush whose rows all fit, followed by the rest of the run from the
      dataset `cur1` and the stores `st1` the flush leaves. */
  lemma {:induction false} FlushOkMeets(images0: seq<Image>, ckpt0: Checkpoint, cap: nat, api: TranslateApi,
                                        faults: nat -> CommitFault, i: nat, flushed: seq<seq<nat>>,
                                        committed: seq<Image>, q: seq<nat>, batch: seq<Image>,
                                        cur1: seq<Image>, st1: Stores)
    requires DistinctFrom(Ids(images0), 0) && i < |images0| && |cur1| == |images0|
    requires forall k :: 0 <= k < |q| ==> q[k] < |images0|
    requires AllFit(images0, q, api)
    requires Midway(images0, ckpt0, cap, api, i + 1, i + 1, [], [], flushed + [q], committed + batch, cur1, st1.checkpoint)
    ensures Meets(images0, ckpt0, cap, api, flushed, committed, [q] + Walk(Ids(images0), ckpt0, cap, i + 1, []),
                  After([q], batch, RunFrom(cur1, st1, cap, api, faults, i + 1, [], [])))
    decreases |images0| - i, 0
  {
    RunFromMeets(images0, ckpt0, cap, api, faults, i + 1, i + 1, [], [], flushed + [q], committed + batch, cur1, st1);
    MeetsAfter(images0, ckpt0, cap, api, flushed, committed, q, batch, Walk(Ids(images0), ckpt0, cap, i + 1, []),
               RunFrom(cur1, st1, cap, api, faults, i + 1, [], []));
  }

  /** A whole run flushes a prefix of the schedule (all of it when it
      completes) and completes exactly when the API's translation of every
      pending image fits it. The images committed are the flushed ones
      rewritten with the API's rows, in order; the stores are the starting
      ones with those commits applied; and a completed run leaves every
      flushed image rewritten in the dataset and every other one as it was. */
  lemma GoogleRunMeets(images: seq<Image>, st: Stores, cap: nat, api: TranslateApi, faults: nat -> CommitFault)
    requires Unique(Ids(images))
    ensures forall k :: 0 <= k < |PendingFrom(Ids(images), st.checkpoint, 0)| ==>
      PendingFrom(Ids(images), st.checkpoint, 0)[k] < |images|
    ensures var r := GoogleRun(images, st, cap, api, faults);
      var plan := Schedule(Ids(images), st.checkpoint, cap);
      && r.flushed <= plan
      && (r.outcome == Completed ==> r.flushed == plan)
      && (r.outcome == Completed <==> AllFit(images, PendingFrom(Ids(images), st.checkpoint, 0), api))
      && (forall k :: 0 <= k < |Flatten(r.flushed)| ==> Flatten(r.flushed)[k] < |images|)
      && r.committed == Rewritten(images, Flatten(r.flushed), ApiRows(images, Flatten(r.flushed), api))
      && r.stores == CommitAll(st, r.committed, faults)
  {
    var ids := Ids(images);
    MidwayStart(images, st.checkpoint, cap, api);
    UniqueDistinct(Ids(images), 0);
    RunFromMeets(images, st.checkpoint, cap, api, faults, 0, 0, [], [], [], [], images, st);
    RunFromStores(images, st, cap, api, faults, 0, [], []);
    ScheduleCovers(ids, st.checkpoint, cap);
    PendingFromBelow(ids, st.checkpoint, 0);
    var r := GoogleRun(images, st, cap, api, faults);
    assert [] + r.flushed == r.flushed && [] + r.committed == r.committed;
  }

  /** A completed run leaves each flushed image rewritten with the API's row
      at its position, and every image it did not flush as it was. */
  lemma GoogleRunRewrites(images: seq<Image>, st: Stores, cap: nat, api: TranslateApi, faults: nat -> CommitFault)
    requires Unique(Ids(images))
    requires GoogleRun(images, st, cap, api, faults).outcome == Completed
    ensures var r := GoogleRun(images, st, cap, api, faults);
      && |r.images| == |images| && |r.committed| == |Flatten(r.flushed)|
      && (forall k :: 0 <= k < |Flatten(r.flushed)| ==>
            && Flatten(r.flushed)[k] < |images|
            && r.committed[k].imgid == images[Flatten(r.flushed)[k]].imgid
            && r.images[Flatten(r.flushed)[k]] == r.committed[k])
      && (forall p :: 0 <= p < |images| && p !in Flatten(r.flushed) ==> r.images[p] == images[p])
  {
    MidwayStart(images, st.checkpoint, cap, api);
    UniqueDistinct(Ids(images), 0);
    RunFromMeets(images, st.checkpoint, cap, api, faults, 0, 0, [], [], [], [], images, st);
    var r := GoogleRun(images, st, cap, api, faults);
    assert [] + r.flushed == r.flushed && [] + r.committed == r.committed;
  }

  /** Without commit faults, a completed run marks every image of the
      dataset in the checkpoint and appends the committed images, in order,
      to the output. */
  lemma GoogleRunMarksAll(images: seq<Image>, st: Stores, cap: nat, api: TranslateApi, faults: nat -> CommitFault)
    requires Unique(Ids(images))
    requires forall n :: faults(n) == NoFault
    requires GoogleRun(images, st, cap, api, faults).outcome == Completed
    ensures var r := GoogleRun(images, st, cap, api, faults);
      && r.stores.output.images == st.output.images + r.committed
      && forall p :: 0 <= p < |images| ==> NatToString(images[p].imgid) in r.stores.checkpoint
  {
    var ids := Ids(images);
    var ckpt := st.checkpoint;
    var r := GoogleRun(images, st, cap, api, faults);
    assert Flatten(r.flushed) == PendingFrom(ids, ckpt, 0) by {
      GoogleRunMeets(images, st, cap, api, faults);
      ScheduleCovers(ids, ckpt, cap);
    }
    assert |r.committed| == |Flatten(r.flushed)|
      && forall k :: 0 <= k < |r.committed| ==>
           Flatten(r.flushed)[k] < |ids| && r.committed[k].imgid == ids[Flatten(r.flushed)[k]]
    by {
      GoogleRunRewrites(images, st, cap, api, faults);
    }
    assert r.stores.output.images == st.output.images + r.committed
      && ckpt.Keys <= r.stores.checkpoint.Keys && KeysOf(r.committed) <= r.stores.checkpoint.Keys
    by {
      GoogleRunMeets(images, st, cap, api, faults);
      CommitAllKeys(st, r.committed, faults);
      if r.committed != [] {
        CommitAllFaultFree(st, r.committed, faults);
      } else {
        assert st.output.images + r.committed == st.output.images;
      }
    }
    MarksEvery(ids, ckpt, r.committed, r.stores.checkpoint);
    assert |ids| == |images| && forall p :: 0 <= p < |images| ==> ids[p] == images[p].imgid;
  }


  /** Whatever faults its commits meet, a run keeps the stores synced and
      resumable: every image the checkpoint file marks is in the output file. */
  lemma GoogleRunResumable(images: seq<Image>, st: Stores, cap: nat, api: TranslateApi, faults: nat -> CommitFault)
    requires Synced(st) && Marked(st)
    ensures var r := GoogleRun(images, st, cap, api, faults);
      Synced(r.stores) && Marked(r.stores) && Resumable(r.stores)
  {
    RunFromStores(images, st, cap, api, faults, 0, [], []);
    CommitAllResumable(st, GoogleRun(images, st, cap, api, faults).committed, faults);
  }

  class GoogleCloudTranslate {
    var base: BaseTranslator

    /** `__init__`: the base translator, with the batch cap raised to 50. */
    constructor (source: array<Image>, storedCheckpoint: Option<Checkpoint>, storedOutput: Option<Output>)
      ensures fresh(base) && base.source == source && base.maxSentenceBatches == GoogleBatchCap
      ensures base.checkpoint == if storedCheckpoint.Some? then storedCheckpoint.value else map[]
      ensures base.outputFile == if storedOutput.Some? then storedOutput.value else Output([], DatasetName)
      ensures Synced(base.State())
    {
      base := new BaseTranslator(source, storedCheckpoint, storedOutput);
      new;
      base.maxSentenceBatches := GoogleBatchCap;
    }

    /** `send_sentences_to_api`: one request per list of sentences, in order. */
    method SendSentencesToApi(sentencesMatrix: seq<seq<string>>, api: TranslateApi)
      returns (translated: seq<seq<string>>)
      ensures translated == Translations(sentencesMatrix, api)
    {
      translated := [];
      var k := 0;
      while k < |sentencesMatrix|
        invariant 0 <= k <= |sentencesMatrix| && |translated| == k
        invariant forall m :: 0 <= m < k ==> translated[m] == api(sentencesMatrix[m])
      {
        translated := translated + [api(sentencesMatrix[k])];
        k := k + 1;
      }
    }

    /** One iteration of the loop of `translate_sentences`, at the image at
        position `i`: queues it unless checkpointed, and flushes the queue
        when it is full or the image's `imgid` is the last one's. `flushedNow`
        is the batch flushed, if any; `ok` is false when a row is too short. */
    method Visit(i: nat, queue: seq<nat>, sentences: seq<seq<string>>, api: TranslateApi, faults: nat -> CommitFault)
      returns (ok: bool, q: seq<nat>, s: seq<seq<string>>, flushedNow: seq<seq<nat>>, batch: seq<Image>)
      requires i < base.source.Length && |sentences| == |queue|
      requires forall k :: 0 <= k < |queue| ==> queue[k] < base.source.Length
      modifies base, base.destJson.images, base.source
      ensures base.source == old(base.source) && base.destJson == old(base.destJson)
      ensures base.maxSentenceBatches == old(base.maxSentenceBatches)
      ensures |s| == |q| && forall k :: 0 <= k < |q| ==> q[k] < base.source.Length
      ensures RunFrom(old(base.source[..]), old(base.State()), base.maxSentenceBatches, api, faults, i, queue, sentences)
        == if ok then After(flushedNow, batch, RunFrom(base.source[..], base.State(), base.maxSentenceBatches, api, faults, i + 1, q, s))
           else RunEnd(MissingTranslation, [], [], base.State(), base.source[..])
    {
      var images := base.source;
      ghost var st0, images0 := base.State(), images[..];
      var image := images[i];
      q, s := queue, sentences;
      if NatToString(image.imgid) !in base.checkpoint {
        q := q + [i];
        s := s + [Raws(image)];
      }
      if |q| >= base.maxSentenceBatches || image.imgid == images[images.Length - 1].imgid {
        var results := SendSentencesToApi(s, api);
        RunFromFlushes(images0, st0, base.maxSentenceBatches, api, faults, i, queue, sentences, q, s);
        ok, batch := FlushBatch(base, q, results, faults);
        flushedNow := [q];
        q, s := [], [];
      } else {
        RunFromQueues(images0, st0, base.maxSentenceBatches, api, faults, i, queue, sentences, q, s);
        ok, flushedNow, batch := true, [], [];
      }
    }

    /** `translate_sentences`: walks the dataset, queues every image whose
        key is not checkpointed, and flushes the queue when it holds
        `max_sentence_batches` images or at the last image. `flushed` lists
        the batches committed (as positions in the dataset) and `committed`
        the rewritten images, in order. */
    method TranslateSentences(api: TranslateApi, faults: nat -> CommitFault)
      returns (outcome: Outcome, flushed: seq<seq<nat>>, committed: seq<Image>)
      modifies base, base.destJson.images, base.source
      ensures base.source == old(base.source) && base.destJson == old(base.destJson)
      ensures base.maxSentenceBatches == old(base.maxSentenceBatches)
      ensures RunEnd(outcome, flushed, committed, base.State(), base.source[..])
        == GoogleRun(old(base.source[..]), old(base.State()), base.maxSentenceBatches, api, faults)
    {
      var images := base.source;
      var n := images.Length;
      var cap := base.maxSentenceBatches;
      ghost var total := GoogleRun(images[..], base.State(), cap, api, faults);
      // translating_img_ids, as positions in the dataset
      var translatingImgIds: seq<nat> := [];
      var translatingSentences: seq<seq<string>> := [];
      flushed, committed := [], [];
      var i := 0;
      while i < n
        invariant i <= n
        invariant base.source == images && base.destJson == old(base.destJson)
        invariant base.maxSentenceBatches == cap
        invariant |translatingSentences| == |translatingImgIds|
        invariant forall k :: 0 <= k < |translatingImgIds| ==> translatingImgIds[k] < n
        invariant total == After(flushed, committed,
          RunFrom(images[..], base.State(), cap, api, faults, i, translatingImgIds, translatingSentences))
      {
        var ok, flushedNow, batch;
        ok, translatingImgIds, translatingSentences, flushedNow, batch :=
          Visit(i, translatingImgIds, translatingSentences, api, faults);
        if !ok {
          outcome := MissingTranslation;
          return;
        }
        AfterAfter(flushed, committed, flushedNow, batch,
          RunFrom(images[..], base.State(), cap, api, faults, i + 1, translatingImgIds, translatingSentences));
        flushed, committed := flushed + flushedNow, committed + batch;
        i := i + 1;
      }
      outcome := Completed;
    }
  }
}
