/**
 * The batch formation and commit logic that `translate_sentences` repeats in
 * translation/groq_translator.py and translation/googlecloud_translator.py:
 * which images are queued, where the queue is flushed, how a translated row
 * rewrites an image's sentences, and the commits that follow.
 *
 * A queued image is identified by its position in the source dataset; with
 * unique `imgid`s a position determines the id and the `infos_dict` entry.
 */
module Batching {
  import opened Common
  import opened Strings
  import opened BaseTranslation

  /** How a run of `translate_sentences` ends. */
  datatype Outcome =
    | Completed
    | DailyLimit           // the Groq request ceiling raised
    | EmptyAnswer          // an empty Groq answer raised IndexError
    | MissingTranslation   // a row shorter than the image's sentences raised IndexError

  // ---------------------------------------------------------------------
  // Pending images and the batch schedule
  // ---------------------------------------------------------------------

  function Ids(images: seq<Image>): seq<nat> {
    seq(|images|, k requires 0 <= k < |images| => images[k].imgid)
  }

  predicate Unique(ids: seq<nat>) {
    forall j, k :: 0 <= j < k < |ids| ==> ids[j] != ids[k]
  }

  /** No id at position `i` or later occurs again after its own position:
      the ids from `i` on are pairwise distinct, stated one position at a
      time (`UniqueDistinct` derives it from `Unique`). */
  ghost predicate DistinctFrom(ids: seq<nat>, i: nat)
    decreases |ids| - i
  {
    i < |ids| ==> ids[i] !in ids[i + 1..] && DistinctFrom(ids, i + 1)
  }

  lemma {:induction false} UniqueDistinct(ids: seq<nat>, i: nat)
    requires Unique(ids)
    ensures DistinctFrom(ids, i)
    decreases |ids| - i
  {
    if i < |ids| {
      UniqueDistinct(ids, i + 1);
    }
  }

  lemma {:induction false} DistinctUniqueFrom(ids: seq<nat>, i: nat)
    requires DistinctFrom(ids, i)
    ensures forall j, k :: i <= j < k < |ids| ==> ids[j] != ids[k]
    decreases |ids| - i
  {
    if i < |ids| {
      DistinctUniqueFrom(ids, i + 1);
      forall k | i < k < |ids| ensures ids[i] != ids[k] {
        assert ids[k] == ids[i + 1..][k - i - 1];
      }
    }
  }

  lemma DistinctUnique(ids: seq<nat>)
    requires DistinctFrom(ids, 0)
    ensures Unique(ids)
  {
    DistinctUniqueFrom(ids, 0);
  }

  /** The positions from `i` on whose `str(imgid)` is not checkpointed, in order. */
  function PendingFrom(ids: seq<nat>, ckpt: Checkpoint, i: nat): seq<nat>
    requires i <= |ids|
    decreases |ids| - i
  {
    if i == |ids| then []
    else (if NatToString(ids[i]) in ckpt then [] else [i]) + PendingFrom(ids, ckpt, i + 1)
  }

  /** A position is pending exactly when it is in range and its key is not checkpointed. */
  lemma {:induction false} PendingFromIff(ids: seq<nat>, ckpt: Checkpoint, i: nat, p: nat)
    requires i <= |ids|
    ensures p in PendingFrom(ids, ckpt, i) <==> i <= p < |ids| && NatToString(ids[p]) !in ckpt
    decreases |ids| - i
  {
    if i < |ids| {
      PendingFromIff(ids, ckpt, i + 1, p);
    }
  }

  lemma {:induction false} PendingFromBelow(ids: seq<nat>, ckpt: Checkpoint, i: nat)
    requires i <= |ids|
    ensures forall k :: 0 <= k < |PendingFrom(ids, ckpt, i)| ==> PendingFrom(ids, ckpt, i)[k] < |ids|
  {
    forall k | 0 <= k < |PendingFrom(ids, ckpt, i)| ensures PendingFrom(ids, ckpt, i)[k] < |ids| {
      PendingFromIff(ids, ckpt, i, PendingFrom(ids, ckpt, i)[k]);
    }
  }

  /** Putting `lo` in front of an ascending sequence of larger values keeps
      it ascending. */
  lemma ConsAscending(lo: nat, rest: seq<nat>, s: seq<nat>)
    requires s == [lo] + rest
    requires forall j :: 0 <= j < |rest| ==> lo < rest[j]
    requires forall j, k :: 0 <= j < k < |rest| ==> rest[j] < rest[k]
    ensures forall j :: 0 <= j < |s| ==> lo <= s[j]
    ensures forall j, k :: 0 <= j < k < |s| ==> s[j] < s[k]
  {
    forall j, k | 0 <= j < k < |s| ensures s[j] < s[k] {
      assert s[k] == rest[k - 1];
    }
  }

  /** Pending positions come in dataset order, each at least `i`. */
  lemma {:induction false} PendingFromSorted(ids: seq<nat>, ckpt: Checkpoint, i: nat)
    requires i <= |ids|
    ensures forall j :: 0 <= j < |PendingFrom(ids, ckpt, i)| ==> i <= PendingFrom(ids, ckpt, i)[j]
    ensures forall j, k :: 0 <= j < k < |PendingFrom(ids, ckpt, i)| ==>
      PendingFrom(ids, ckpt, i)[j] < PendingFrom(ids, ckpt, i)[k]
    decreases |ids| - i
  {
    if i < |ids| {
      PendingFromSorted(ids, ckpt, i + 1);
      var rest := PendingFrom(ids, ckpt, i + 1);
      if NatToString(ids[i]) !in ckpt {
        ConsAscending(i, rest, PendingFrom(ids, ckpt, i));
      }
    }
  }

  function Flatten(batches: seq<seq<nat>>): seq<nat> {
    if batches == [] then [] else batches[0] + Flatten(batches[1..])
  }

  lemma {:induction false} FlattenAppend(a: seq<seq<nat>>, b: seq<seq<nat>>)
    ensures Flatten(a + b) == Flatten(a) + Flatten(b)
    decreases |a|
  {
    if a == [] {
      assert a + b == b;
    } else {
      assert (a + b)[1..] == a[1..] + b;
      FlattenAppend(a[1..], b);
    }
  }

  /** The loop of `translate_sentences` from position `i` with `queue` already
      queued: the batches it flushes. An image is queued unless its key is
      checkpointed; the queue is flushed once it holds `cap` positions or at
      an image whose id is the last image's id. */
  function Walk(ids: seq<nat>, ckpt: Checkpoint, cap: nat, i: nat, queue: seq<nat>): seq<seq<nat>>
    requires i <= |ids|
    decreases |ids| - i
  {
    if i == |ids| then []
    else
      var q := if NatToString(ids[i]) in ckpt then queue else queue + [i];
      if |q| >= cap || ids[i] == ids[|ids| - 1] then [q] + Walk(ids, ckpt, cap, i + 1, [])
      else Walk(ids, ckpt, cap, i + 1, q)
  }

  lemma FlattenCons(q: seq<nat>, rest: seq<seq<nat>>)
    ensures Flatten([q] + rest) == q + Flatten(rest)
  {
    assert ([q] + rest)[1..] == rest;
  }

  /** Queueing position `i` unless it is checkpointed moves it from the
      pending positions to the queue. */
  lemma PendingFromStep(ids: seq<nat>, ckpt: Checkpoint, i: nat, queue: seq<nat>)
    requires i < |ids|
    ensures (if NatToString(ids[i]) in ckpt then queue else queue + [i]) + PendingFrom(ids, ckpt, i + 1)
         == queue + PendingFrom(ids, ckpt, i)
  {
    if NatToString(ids[i]) !in ckpt {
      assert queue + [i] + PendingFrom(ids, ckpt, i + 1) == queue + ([i] + PendingFrom(ids, ckpt, i + 1));
    }
  }

  lemma FlattenPush(a: seq<seq<nat>>, q: seq<nat>)
    ensures Flatten(a + [q]) == Flatten(a) + q
  {
    FlattenAppend(a, [q]);
    assert Flatten([q]) == q + Flatten([]);
  }

  /** The batches of a whole run. */
  function Schedule(ids: seq<nat>, ckpt: Checkpoint, cap: nat): seq<seq<nat>> {
    Walk(ids, ckpt, cap, 0, [])
  }

  /** The batches, concatenated, are the queue followed by the pending
      positions: every pending image is sent exactly once, in order. */
  lemma {:induction false} WalkCovers(ids: seq<nat>, ckpt: Checkpoint, cap: nat, i: nat, queue: seq<nat>)
    requires i <= |ids| && (i == |ids| ==> queue == [])
    ensures Flatten(Walk(ids, ckpt, cap, i, queue)) == queue + PendingFrom(ids, ckpt, i)
    decreases |ids| - i
  {
    if i < |ids| {
      var q := if NatToString(ids[i]) in ckpt then queue else queue + [i];
      PendingFromStep(ids, ckpt, i, queue);
      if |q| >= cap || ids[i] == ids[|ids| - 1] {
        WalkCovers(ids, ckpt, cap, i + 1, []);
        FlattenCons(q, Walk(ids, ckpt, cap, i + 1, []));
      } else {
        WalkCovers(ids, ckpt, cap, i + 1, q);
      }
    }
  }

  /** The batches hold positions of the dataset. */
  lemma WalkBelow(ids: seq<nat>, ckpt: Checkpoint, cap: nat, i: nat, queue: seq<nat>)
    requires i <= |ids| && (i == |ids| ==> queue == [])
    requires forall k :: 0 <= k < |queue| ==> queue[k] < |ids|
    ensures forall k :: 0 <= k < |Flatten(Walk(ids, ckpt, cap, i, queue))| ==> Flatten(Walk(ids, ckpt, cap, i, queue))[k] < |ids|
  {
    WalkCovers(ids, ckpt, cap, i, queue);
    PendingFromBelow(ids, ckpt, i);
    var w := Flatten(Walk(ids, ckpt, cap, i, queue));
    forall k | 0 <= k < |w| ensures w[k] < |ids| {
      if k >= |queue| {
        assert w[k] == PendingFrom(ids, ckpt, i)[k - |queue|];
      }
    }
  }

  lemma ScheduleCovers(ids: seq<nat>, ckpt: Checkpoint, cap: nat)
    ensures Flatten(Schedule(ids, ckpt, cap)) == PendingFrom(ids, ckpt, 0)
  {
    WalkCovers(ids, ckpt, cap, 0, []);
  }

  /** No batch is larger than the cap. */
  lemma {:induction false} WalkWithinCap(ids: seq<nat>, ckpt: Checkpoint, cap: nat, i: nat, queue: seq<nat>)
    requires i <= |ids| && |queue| < cap
    ensures forall b :: b in Walk(ids, ckpt, cap, i, queue) ==> |b| <= cap
    decreases |ids| - i
  {
    if i < |ids| {
      var q := if NatToString(ids[i]) in ckpt then queue else queue + [i];
      if |q| >= cap || ids[i] == ids[|ids| - 1] {
        WalkWithinCap(ids, ckpt, cap, i + 1, []);
      } else {
        WalkWithinCap(ids, ckpt, cap, i + 1, q);
      }
    }
  }

  /** With unique ids, every batch but the last is exactly full, and the
      last image always closes a batch. */
  lemma {:induction false} WalkFullBatches(ids: seq<nat>, ckpt: Checkpoint, cap: nat, i: nat, queue: seq<nat>)
    requires Unique(ids) && i < |ids| && |queue| < cap
    ensures var w := Walk(ids, ckpt, cap, i, queue);
      w != [] && forall k :: 0 <= k < |w| - 1 ==> |w[k]| == cap
    decreases |ids| - i
  {
    var q := if NatToString(ids[i]) in ckpt then queue else queue + [i];
    if |q| >= cap || ids[i] == ids[|ids| - 1] {
      if i + 1 < |ids| {
        assert ids[i] != ids[|ids| - 1];
        WalkFullBatches(ids, ckpt, cap, i + 1, []);
      }
    } else {
      WalkFullBatches(ids, ckpt, cap, i + 1, q);
    }
  }

  /** The shape of a whole run: batches within the cap, all but the last full,
      together exactly the pending positions in dataset order. */
  lemma ScheduleShape(ids: seq<nat>, ckpt: Checkpoint, cap: nat)
    requires Unique(ids) && ids != [] && cap >= 1
    ensures var s := Schedule(ids, ckpt, cap);
      && s != []
      && Flatten(s) == PendingFrom(ids, ckpt, 0)
      && (forall b :: b in s ==> |b| <= cap)
      && (forall k :: 0 <= k < |s| - 1 ==> |s[k]| == cap)
  {
    ScheduleCovers(ids, ckpt, cap);
    WalkWithinCap(ids, ckpt, cap, 0, []);
    WalkFullBatches(ids, ckpt, cap, 0, []);
  }

  /** Resuming a finished run sends one empty batch, at the last image. */
  lemma {:induction false} WalkAllDone(ids: seq<nat>, ckpt: Checkpoint, cap: nat, i: nat)
    requires Unique(ids) && cap >= 1 && i < |ids|
    requires forall p :: i <= p < |ids| ==> NatToString(ids[p]) in ckpt
    ensures Walk(ids, ckpt, cap, i, []) == [[]]
    decreases |ids| - i
  {
    if i + 1 < |ids| {
      assert ids[i] != ids[|ids| - 1];
      WalkAllDone(ids, ckpt, cap, i + 1);
    }
  }

  // ---------------------------------------------------------------------
  // Rewriting an image with its translated row
  // ---------------------------------------------------------------------

  /** The characters `strip(". ")` removes. */
  const StripChars: set<char> := {'.', ' '}

  /** `sentence.strip(". ").lower().split()` */
  function Tokens(s: string): seq<string> {
    Split(Lower(Strip(s, StripChars)))
  }

  /** Tokens are non-empty, hold no whitespace and no upper-case letter, and
      glued together they are the stripped, lowered sentence without its
      whitespace. */
  lemma TokensAreWords(s: string)
    ensures forall k :: 0 <= k < |Tokens(s)| ==> IsToken(Tokens(s)[k])
    ensures forall k, j :: 0 <= k < |Tokens(s)| && 0 <= j < |Tokens(s)[k]| ==> !IsUpper(Tokens(s)[k][j])
    ensures Concat(Tokens(s)) == RemoveSpaces(Lower(Strip(s, StripChars)))
  {
    var low := Lower(Strip(s, StripChars));
    SplitKeepsChars(low);
    SplitConcat(low);
    forall c | c in low ensures !IsUpper(c) {
      var j :| 0 <= j < |low| && low[j] == c;
    }
  }

  /** The raw sentences of an image, in sentence order: the Google payload. */
  function Raws(img: Image): seq<string> {
    seq(|img.sentences|, j requires 0 <= j < |img.sentences| => img.sentences[j].raw)
  }

  /** The map from sentence index to raw sentence: the Groq payload. */
  function Payload(img: Image): map<nat, string> {
    map j | 0 <= j < |img.sentences| :: img.sentences[j].raw
  }

  /** Whether the row has a translation for every sentence of the image;
      otherwise `translated_sentences[sentid]` raises IndexError. */
  predicate Fits(img: Image, row: seq<string>) {
    |row| >= |img.sentences|
  }

  /** Sentence `j` takes `raw := row[j]` and the tokens of `row[j]`; a
      sentence the row does not reach is left as it is. */
  function RewriteSentence(s: Sentence, j: nat, row: seq<string>): Sentence {
    if j < |row| then s.(raw := row[j], tokens := Tokens(row[j])) else s
  }

  function RewriteImage(img: Image, row: seq<string>): Image {
    img.(sentences := seq(|img.sentences|, j requires 0 <= j < |img.sentences| => RewriteSentence(img.sentences[j], j, row)))
  }

  /** A rewritten image keeps its id, its number of sentences and their
      `sentid`s; when the row fits, its raw sentences are the row's and its
      tokens are derived from them. */
  lemma RewriteImageMeaning(img: Image, row: seq<string>)
    ensures var r := RewriteImage(img, row);
      && r.imgid == img.imgid && |r.sentences| == |img.sentences|
      && (forall j :: 0 <= j < |r.sentences| ==> r.sentences[j].sentid == img.sentences[j].sentid)
      && (Fits(img, row) ==> Raws(r) == row[..|img.sentences|])
      && (forall j :: 0 <= j < |r.sentences| && j < |row| ==> r.sentences[j].tokens == Tokens(row[j]))
  {
    var r := RewriteImage(img, row);
    if Fits(img, row) {
      assert Raws(r) == row[..|img.sentences|];
    }
  }

  /** The images at `positions`, each rewritten with its row. */
  function Rewritten(images: seq<Image>, positions: seq<nat>, rows: seq<seq<string>>): (r: seq<Image>)
    requires |rows| == |positions|
    requires forall k :: 0 <= k < |positions| ==> positions[k] < |images|
    ensures |r| == |positions|
  {
    seq(|positions|, k requires 0 <= k < |positions| => RewriteImage(images[positions[k]], rows[k]))
  }

  lemma RewrittenAppend(images: seq<Image>, p1: seq<nat>, r1: seq<seq<string>>, p2: seq<nat>, r2: seq<seq<string>>)
    requires |r1| == |p1| && |r2| == |p2|
    requires forall k :: 0 <= k < |p1| ==> p1[k] < |images|
    requires forall k :: 0 <= k < |p2| ==> p2[k] < |images|
    ensures Rewritten(images, p1 + p2, r1 + r2) == Rewritten(images, p1, r1) + Rewritten(images, p2, r2)
  {
  }

  // ---------------------------------------------------------------------
  // The commits of a run
  // ---------------------------------------------------------------------

  /** The stores after committing `entries` in order, each with its
      `{imgid: "ok"}` and the faults its commit meets. */
  function CommitAll(st: Stores, entries: seq<Image>, faults: nat -> CommitFault): Stores
    decreases |entries|
  {
    if entries == [] then st
    else
      var last := entries[|entries| - 1];
      Commit(CommitAll(st, entries[..|entries| - 1], faults), last, CheckpointData(last.imgid), faults(last.imgid))
  }

  function KeysOf(entries: seq<Image>): set<string> {
    set k | 0 <= k < |entries| :: NatToString(entries[k].imgid)
  }

  /** The checkpoint only grows, and only by the keys of committed images. */
  lemma {:induction false} CommitAllKeys(st: Stores, entries: seq<Image>, faults: nat -> CommitFault)
    ensures var r := CommitAll(st, entries, faults);
      st.checkpoint.Keys <= r.checkpoint.Keys <= st.checkpoint.Keys + KeysOf(entries)
    decreases |entries|
  {
    if entries != [] {
      var init := entries[..|entries| - 1];
      var last := entries[|entries| - 1];
      CommitAllKeys(st, init, faults);
      var mid := CommitAll(st, init, faults);
      CommitGrows(mid, last, CheckpointData(last.imgid), faults(last.imgid));
      assert KeysOf(init) <= KeysOf(entries) by {
        forall key | key in KeysOf(init) ensures key in KeysOf(entries) {
          var k :| 0 <= k < |init| && NatToString(init[k].imgid) == key;
          assert entries[k] == init[k];
        }
      }
      assert NatToString(last.imgid) in KeysOf(entries);
    }
  }

  /** Whatever faults the commits meet, the stores stay synced and resumable. */
  lemma {:induction false} CommitAllResumable(st: Stores, entries: seq<Image>, faults: nat -> CommitFault)
    requires Synced(st) && Marked(st)
    ensures var r := CommitAll(st, entries, faults);
      Synced(r) && Marked(r) && Resumable(r)
    decreases |entries|
  {
    if entries == [] {
      SyncedMarkedIsResumable(st);
    } else {
      var init := entries[..|entries| - 1];
      var last := entries[|entries| - 1];
      CommitAllResumable(st, init, faults);
      var mid := CommitAll(st, init, faults);
      CommitKeepsSynced(mid, last, CheckpointData(last.imgid), faults(last.imgid));
      CommitKeepsResumable(mid, last, faults(last.imgid));
    }
  }

  /** The checkpoint after committing every entry without a fault. */
  function Marks(ckpt: Checkpoint, entries: seq<Image>): Checkpoint
    decreases |entries|
  {
    if entries == [] then ckpt
    else
      var last := entries[|entries| - 1];
      Marks(ckpt, entries[..|entries| - 1]) + CheckpointData(last.imgid)
  }

  /** Without faults, the output gains exactly the entries, in order, the
      checkpoint marks each of them, and both files hold the whole stores. */
  lemma {:induction false} CommitAllFaultFree(st: Stores, entries: seq<Image>, faults: nat -> CommitFault)
    requires forall k :: 0 <= k < |entries| ==> faults(entries[k].imgid) == NoFault
    requires entries != []
    ensures var r := CommitAll(st, entries, faults);
      && r.output == st.output.(images := st.output.images + entries)
      && r.checkpoint == Marks(st.checkpoint, entries)
      && r.checkpointFile == Some(r.checkpoint) && r.outputFile == r.output
      && KeysOf(entries) <= r.checkpoint.Keys
    decreases |entries|
  {
    if entries != [] {
      var init := entries[..|entries| - 1];
      var last := entries[|entries| - 1];
      var mid := CommitAll(st, init, faults);
      if init != [] {
        CommitAllFaultFree(st, init, faults);
      } else {
        assert KeysOf(init) == {} && st.output.images + init == st.output.images;
      }
      CommitSucceeds(mid, last, CheckpointData(last.imgid));
      assert init + [last] == entries;
      assert st.output.images + init + [last] == st.output.images + entries;
      KeysOfPush(init, last);
    }
  }

  lemma KeysOfPush(init: seq<Image>, last: Image)
    ensures KeysOf(init + [last]) == KeysOf(init) + {NatToString(last.imgid)}
  {
    var e := init + [last];
    forall key | key in KeysOf(e) ensures key in KeysOf(init) + {NatToString(last.imgid)} {
      var k :| 0 <= k < |e| && NatToString(e[k].imgid) == key;
      if k < |init| {
        assert e[k] == init[k];
      }
    }
    forall key | key in KeysOf(init) ensures key in KeysOf(e) {
      var k :| 0 <= k < |init| && NatToString(init[k].imgid) == key;
      assert e[k] == init[k];
    }
    assert e[|init|] == last;
  }

  /** When the images committed are exactly the pending ones, in order, a
      map holding the old checkpoint and the committed keys marks every id. */
  lemma MarksEvery(ids: seq<nat>, ckpt: Checkpoint, committed: seq<Image>, marks: Checkpoint)
    requires |committed| == |PendingFrom(ids, ckpt, 0)|
    requires forall k :: 0 <= k < |committed| ==>
      PendingFrom(ids, ckpt, 0)[k] < |ids| && committed[k].imgid == ids[PendingFrom(ids, ckpt, 0)[k]]
    requires ckpt.Keys <= marks.Keys && KeysOf(committed) <= marks.Keys
    ensures forall p :: 0 <= p < |ids| ==> NatToString(ids[p]) in marks
  {
    var done := PendingFrom(ids, ckpt, 0);
    forall p | 0 <= p < |ids| ensures NatToString(ids[p]) in marks {
      if NatToString(ids[p]) !in ckpt {
        PendingFromIff(ids, ckpt, 0, p);
        var k :| 0 <= k < |done| && done[k] == p;
        assert NatToString(committed[k].imgid) in KeysOf(committed);
      }
    }
  }

  lemma {:induction false} CommitAllAppend(st: Stores, a: seq<Image>, b: seq<Image>, faults: nat -> CommitFault)
    ensures CommitAll(st, a + b, faults) == CommitAll(CommitAll(st, a, faults), b, faults)
    decreases |b|
  {
    if b == [] {
      assert a + b == a;
    } else {
      var init := b[..|b| - 1];
      CommitAllAppend(st, a, init, faults);
      assert (a + b)[..|a + b| - 1] == a + init;
    }
  }

  /** During a run, the live checkpoint answers for a later image as the
      checkpoint loaded at the start does: the commits so far only added the
      keys of earlier images, and with unique ids those keys differ. */
  lemma LiveCheckpoint(st: Stores, committed: seq<Image>, faults: nat -> CommitFault,
                       ids: seq<nat>, done: seq<nat>, i: nat)
    requires Unique(ids) && i < |ids| && |committed| == |done|
    requires forall k :: 0 <= k < |done| ==> done[k] < i && committed[k].imgid == ids[done[k]]
    ensures NatToString(ids[i]) in CommitAll(st, committed, faults).checkpoint
        <==> NatToString(ids[i]) in st.checkpoint
  {
    CommitAllKeys(st, committed, faults);
    if NatToString(ids[i]) in KeysOf(committed) {
      var k :| 0 <= k < |committed| && NatToString(committed[k].imgid) == NatToString(ids[i]);
      NatToStringInjective(committed[k].imgid, ids[i]);
      assert false;
    }
  }

  /** The checkpoint key of the image at position `p`. */
  function KeyAt(ids: seq<nat>, p: nat): string
    requires p < |ids|
  {
    NatToString(ids[p])
  }

  /** The live checkpoint answers for every image from `i` on as the
      checkpoint loaded at the start does. */
  ghost predicate Agrees(ids: seq<nat>, ckpt0: Checkpoint, live: Checkpoint, i: nat) {
    forall p :: i <= p < |ids| ==> (KeyAt(ids, p) in live <==> KeyAt(ids, p) in ckpt0)
  }

  /** Committing images of positions up to `i` keeps the live checkpoint
      agreeing from `i + 1` on. */
  lemma AgreesAfterCommit(ids: seq<nat>, ckpt0: Checkpoint, st: Stores, entries: seq<Image>,
                          positions: seq<nat>, faults: nat -> CommitFault, i: nat)
    requires Unique(ids) && Agrees(ids, ckpt0, st.checkpoint, i) && |entries| == |positions| && i < |ids|
    requires forall k :: 0 <= k < |positions| ==> positions[k] <= i && entries[k].imgid == ids[positions[k]]
    ensures Agrees(ids, ckpt0, CommitAll(st, entries, faults).checkpoint, i + 1)
  {
    forall p | i + 1 <= p < |ids|
      ensures KeyAt(ids, p) in CommitAll(st, entries, faults).checkpoint <==> KeyAt(ids, p) in st.checkpoint
    {
      LiveCheckpoint(st, entries, faults, ids, positions, p);
    }
  }

  // ---------------------------------------------------------------------
  // The flush of one batch
  // ---------------------------------------------------------------------

  /** The loop over `enumerate(translation_dict["sentences"])`: sentence `j`
      takes `row[j]` and its tokens. `ok` is false when some `row[j]` does not
      exist; the sentences before it have been rewritten by then. */
  method RewriteSentences(img: Image, row: seq<string>) returns (r: Image, ok: bool)
    ensures ok == Fits(img, row)
    ensures r == RewriteImage(img, row)
  {
    var sentences := img.sentences;
    var j := 0;
    while j < |sentences|
      invariant 0 <= j <= |sentences| == |img.sentences| && j <= |row|
      invariant forall m :: 0 <= m < j ==> sentences[m] == RewriteSentence(img.sentences[m], m, row)
      invariant sentences[j..] == img.sentences[j..]
    {
      if j >= |row| {
        r, ok := img.(sentences := sentences), false;
        assert r.sentences == RewriteImage(img, row).sentences;
        return;
      }
      sentences := sentences[j := sentences[j].(raw := row[j], tokens := Tokens(row[j]))];
      j := j + 1;
    }
    r, ok := img.(sentences := sentences), true;
    assert r.sentences == RewriteImage(img, row).sentences;
  }

  /** The outcome of a flush's rewrite loop: the dataset after it, the
      images rewritten (in queue order) and whether every row fitted. */
  datatype Rewrite = Rewrite(images: seq<Image>, rewritten: seq<Image>, ok: bool)

  /** `r` preceded by the images `done` rewritten before it. */
  function RewrittenAfter(done: seq<Image>, r: Rewrite): Rewrite {
    r.(rewritten := done + r.rewritten)
  }

  /** The rewrite loop of a flush on the dataset as a value: row `k`
      rewrites, in place, the image at `queue[k]` as the dataset holds it at
      that point. The loop stops after the first row too short for its
      image, which is left partly rewritten. */
  function RewriteAt(images: seq<Image>, queue: seq<nat>, rows: seq<seq<string>>): (r: Rewrite)
    requires |rows| == |queue| && forall k :: 0 <= k < |queue| ==> queue[k] < |images|
    ensures |r.images| == |images|
    decreases |queue|
  {
    if queue == [] then Rewrite(images, [], true)
    else
      var image := RewriteImage(images[queue[0]], rows[0]);
      var next := images[queue[0] := image];
      if !Fits(images[queue[0]], rows[0]) then Rewrite(next, [], false)
      else
        var rest := RewriteAt(next, queue[1..], rows[1..]);
        Rewrite(rest.images, [image] + rest.rewritten, rest.ok)
  }

  /** The rewrite loop keeps every `imgid` and touches no position outside the queue. */
  lemma {:induction false} RewriteAtKeeps(images: seq<Image>, queue: seq<nat>, rows: seq<seq<string>>)
    requires |rows| == |queue| && forall k :: 0 <= k < |queue| ==> queue[k] < |images|
    ensures forall p :: 0 <= p < |images| ==> RewriteAt(images, queue, rows).images[p].imgid == images[p].imgid
    ensures forall p :: 0 <= p < |images| && p !in queue ==> RewriteAt(images, queue, rows).images[p] == images[p]
    decreases |queue|
  {
    if queue != [] {
      RewriteImageMeaning(images[queue[0]], rows[0]);
      var next := images[queue[0] := RewriteImage(images[queue[0]], rows[0])];
      if Fits(images[queue[0]], rows[0]) {
        RewriteAtKeeps(next, queue[1..], rows[1..]);
        forall p | 0 <= p < |images| && p !in queue
          ensures RewriteAt(images, queue, rows).images[p] == images[p]
        {
          assert p !in queue[1..];
        }
      }
    }
  }

  /** With distinct positions the rewrite loop succeeds exactly when every
      row fits the image at its position. */
  lemma {:induction false} RewriteAtOk(images: seq<Image>, queue: seq<nat>, rows: seq<seq<string>>)
    requires |rows| == |queue| && forall k :: 0 <= k < |queue| ==> queue[k] < |images|
    requires forall j, k :: 0 <= j < k < |queue| ==> queue[j] != queue[k]
    ensures RewriteAt(images, queue, rows).ok <==> forall k :: 0 <= k < |queue| ==> Fits(images[queue[k]], rows[k])
    decreases |queue|
  {
    if queue != [] {
      var next := images[queue[0] := RewriteImage(images[queue[0]], rows[0])];
      var q, rs := queue[1..], rows[1..];
      if Fits(images[queue[0]], rows[0]) {
        RewriteAtOk(next, q, rs);
        forall k | 0 <= k < |q| ensures next[q[k]] == images[queue[k + 1]] && rs[k] == rows[k + 1] {
          assert q[k] == queue[k + 1] != queue[0];
        }
        if !RewriteAt(next, q, rs).ok {
          var k :| 0 <= k < |q| && !Fits(next[q[k]], rs[k]);
          assert !Fits(images[queue[k + 1]], rows[k + 1]);
        }
      }
    }
  }

  /** With distinct positions a successful rewrite loop yields each image
      rewritten with its row and leaves it at its position. */
  /** `Rewritten` reads the dataset only at the positions it rewrites. */
  lemma RewrittenFrame(images: seq<Image>, other: seq<Image>, positions: seq<nat>, rows: seq<seq<string>>)
    requires |rows| == |positions| && forall k :: 0 <= k < |positions| ==> positions[k] < |images| && positions[k] < |other|
    requires forall k :: 0 <= k < |positions| ==> other[positions[k]] == images[positions[k]]
    ensures Rewritten(other, positions, rows) == Rewritten(images, positions, rows)
  {
  }

  lemma {:induction false} RewriteAtRewritten(images: seq<Image>, queue: seq<nat>, rows: seq<seq<string>>)
    requires |rows| == |queue| && forall k :: 0 <= k < |queue| ==> queue[k] < |images|
    requires forall j, k :: 0 <= j < k < |queue| ==> queue[j] != queue[k]
    requires RewriteAt(images, queue, rows).ok
    ensures RewriteAt(images, queue, rows).rewritten == Rewritten(images, queue, rows)
    decreases |queue|
  {
    if queue != [] {
      var image := RewriteImage(images[queue[0]], rows[0]);
      var next := images[queue[0] := image];
      var q, rs := queue[1..], rows[1..];
      RewriteAtRewritten(next, q, rs);
      forall k | 0 <= k < |q| ensures next[q[k]] == images[q[k]] {
        assert q[k] == queue[k + 1] != queue[0];
      }
      RewrittenFrame(images, next, q, rs);
      assert Rewritten(images, queue, rows) == [image] + Rewritten(images, q, rs);
    }
  }

  /** After a successful rewrite each queued position holds its rewritten
      image. */
  lemma {:induction false} RewriteAtPlaces(images: seq<Image>, queue: seq<nat>, rows: seq<seq<string>>)
    requires |rows| == |queue| && forall k :: 0 <= k < |queue| ==> queue[k] < |images|
    requires forall j, k :: 0 <= j < k < |queue| ==> queue[j] != queue[k]
    requires RewriteAt(images, queue, rows).ok
    ensures forall k :: 0 <= k < |queue| ==>
      RewriteAt(images, queue, rows).images[queue[k]] == RewriteImage(images[queue[k]], rows[k])
    decreases |queue|
  {
    if queue != [] {
      var image := RewriteImage(images[queue[0]], rows[0]);
      var next := images[queue[0] := image];
      var q, rs := queue[1..], rows[1..];
      RewriteAtPlaces(next, q, rs);
      RewriteAtKeeps(next, q, rs);
      assert queue[0] !in q;
      forall k | 1 <= k < |queue|
        ensures RewriteAt(images, queue, rows).images[queue[k]] == RewriteImage(images[queue[k]], rows[k])
      {
        assert queue[k] == q[k - 1] != queue[0];
      }
    }
  }


  /** The rewriting half of a flush, `rewritten` collecting the images
      rewritten so far. */
  method RewriteBatch(source: array<Image>, queue: seq<nat>, results: seq<seq<string>>)
    returns (ok: bool, rewritten: seq<Image>)
    requires |results| == |queue|
    requires forall k :: 0 <= k < |queue| ==> queue[k] < source.Length
    modifies source
    ensures Rewrite(source[..], rewritten, ok) == RewriteAt(old(source[..]), queue, results)
  {
    ghost var total := RewriteAt(source[..], queue, results);
    rewritten := [];
    var index := 0;
    while index < |results|
      invariant 0 <= index <= |results|
      invariant total == RewrittenAfter(rewritten, RewriteAt(source[..], queue[index..], results[index..]))
    {
      var pos := queue[index];
      var image, fits := RewriteSentences(source[pos], results[index]);
      assert queue[index..][1..] == queue[index + 1..] && results[index..][1..] == results[index + 1..];
      source[pos] := image;
      if !fits {
        return false, rewritten;
      }
      rewritten := rewritten + [image];
      index := index + 1;
    }
    ok := true;
  }

  /** The `asyncio.gather` of the commits: each rewritten image is committed
      in queue order with `{imgid: "ok"}` and the faults it meets. */
  method CommitBatch(t: BaseTranslator, entries: seq<Image>, faults: nat -> CommitFault)
    modifies t, t.destJson.images
    ensures t.source == old(t.source) && t.destJson == old(t.destJson)
    ensures t.maxSentenceBatches == old(t.maxSentenceBatches)
    ensures t.State() == CommitAll(old(t.State()), entries, faults)
  {
    var k := 0;
    while k < |entries|
      invariant 0 <= k <= |entries|
      invariant t.source == old(t.source) && t.destJson == old(t.destJson)
      invariant t.maxSentenceBatches == old(t.maxSentenceBatches)
      invariant t.State() == CommitAll(old(t.State()), entries[..k], faults)
    {
      var entry := entries[k];
      t.AppendTranslatedSentencesToOutput(entry, CheckpointData(entry.imgid), faults(entry.imgid));
      assert entries[..k + 1][..k] == entries[..k];
      k := k + 1;
    }
    assert entries[..k] == entries;
  }

  /** The body of the flush in `translate_sentences`: every image of the
      batch is rewritten, then each is committed. A row too short raises
      before any commit is made. */
  method FlushBatch(t: BaseTranslator, queue: seq<nat>, results: seq<seq<string>>, faults: nat -> CommitFault)
    returns (ok: bool, committed: seq<Image>)
    requires |results| == |queue|
    requires forall k :: 0 <= k < |queue| ==> queue[k] < t.source.Length
    modifies t, t.destJson.images, t.source
    ensures t.source == old(t.source) && t.destJson == old(t.destJson)
    ensures t.maxSentenceBatches == old(t.maxSentenceBatches)
    ensures Rewrite(t.source[..], committed, ok) == RewriteAt(old(t.source[..]), queue, results)
    ensures t.State() == if ok then CommitAll(old(t.State()), committed, faults) else old(t.State())
  {
    ok, committed := RewriteBatch(t.source, queue, results);
    if ok {
      ghost var rewritten := t.source[..];
      CommitBatch(t, committed, faults);
      assert t.source[..] == rewritten;
    }
  }

  // ---------------------------------------------------------------------
  // The loop of `translate_sentences`, as values
  // ---------------------------------------------------------------------

  /** How a run of `translate_sentences` ends: its outcome, the batches
      committed (as positions in the dataset), the images committed, the
      stores and the dataset. */
  datatype RunEnd = RunEnd(outcome: Outcome, flushed: seq<seq<nat>>, committed: seq<Image>,
                           stores: Stores, images: seq<Image>)

  /** The end of a run preceded by the batches and images committed before. */
  function After(flushed: seq<seq<nat>>, committed: seq<Image>, r: RunEnd): (e: RunEnd)
    ensures e.outcome == r.outcome && e.stores == r.stores && e.images == r.images
    ensures e.flushed == flushed + r.flushed && e.committed == committed + r.committed
  {
    r.(flushed := flushed + r.flushed, committed := committed + r.committed)
  }

  lemma AfterAfter(flushed: seq<seq<nat>>, committed: seq<Image>, more: seq<seq<nat>>, batch: seq<Image>, r: RunEnd)
    ensures After(flushed, committed, After(more, batch, r)) == After(flushed + more, committed + batch, r)
  {
    assert flushed + (more + r.flushed) == flushed + more + r.flushed;
    assert committed + (batch + r.committed) == committed + batch + r.committed;
  }

  /** The pending positions of `[lo, i)`, in increasing order. */
  function PendingIn(ids: seq<nat>, ckpt: Checkpoint, lo: nat, i: nat): seq<nat>
    requires lo <= i <= |ids|
    decreases i - lo
  {
    if i == lo then []
    else PendingIn(ids, ckpt, lo, i - 1) + (if NatToString(ids[i - 1]) in ckpt then [] else [i - 1])
  }

  /** The pending positions of `[lo, i)` lie in that range and increase strictly. */
  lemma {:induction false} PendingInSorted(ids: seq<nat>, ckpt: Checkpoint, lo: nat, i: nat)
    requires lo <= i <= |ids|
    ensures forall k :: 0 <= k < |PendingIn(ids, ckpt, lo, i)| ==> lo <= PendingIn(ids, ckpt, lo, i)[k] < i
    ensures forall j, k :: 0 <= j < k < |PendingIn(ids, ckpt, lo, i)| ==>
      PendingIn(ids, ckpt, lo, i)[j] < PendingIn(ids, ckpt, lo, i)[k]
    decreases i - lo
  {
    if i > lo {
      PendingInSorted(ids, ckpt, lo, i - 1);
    }
  }

  /** The queue holds the pending positions of `[lo, i)`. */
  ghost predicate QueueWithin(ids: seq<nat>, ckpt: Checkpoint, lo: nat, i: nat, queue: seq<nat>) {
    && lo <= i <= |ids|
    && (forall k :: 0 <= k < |queue| ==> lo <= queue[k] < i)
    && queue == PendingIn(ids, ckpt, lo, i)
  }

  /** The loop before position `i`: the batches flushed so far, all below
      `lo`, followed by the walk from `i` with the current queue, are the
      whole schedule. */
  ghost predicate Progress(ids: seq<nat>, ckpt: Checkpoint, cap: nat, lo: nat, i: nat,
                           queue: seq<nat>, flushed: seq<seq<nat>>) {
    && lo <= i <= |ids|
    && (i == |ids| ==> queue == [])
    && QueueWithin(ids, ckpt, lo, i, queue)
    && (forall k :: 0 <= k < |Flatten(flushed)| ==> Flatten(flushed)[k] < lo)
    && Schedule(ids, ckpt, cap) == flushed + Walk(ids, ckpt, cap, i, queue)
  }

  /** Position `i` joins the queue unless its key is checkpointed. */
  function Enqueue(ids: seq<nat>, ckpt: Checkpoint, i: nat, queue: seq<nat>): (q: seq<nat>)
    requires i < |ids|
    ensures q == queue || q == queue + [i]
  {
    if NatToString(ids[i]) in ckpt then queue else queue + [i]
  }

  /** The queue is flushed once it is full or at the last image. */
  predicate FlushesAt(ids: seq<nat>, cap: nat, i: nat, queue: seq<nat>)
    requires i < |ids|
  {
    |queue| >= cap || ids[i] == ids[|ids| - 1]
  }

  /** One pass of `Walk` at a position that flushes. */
  lemma WalkFlushes(ids: seq<nat>, ckpt: Checkpoint, cap: nat, i: nat, queue: seq<nat>)
    requires i < |ids| && FlushesAt(ids, cap, i, Enqueue(ids, ckpt, i, queue))
    ensures Walk(ids, ckpt, cap, i, queue) == [Enqueue(ids, ckpt, i, queue)] + Walk(ids, ckpt, cap, i + 1, [])
  {
  }

  lemma ProgressStart(ids: seq<nat>, ckpt: Checkpoint, cap: nat)
    ensures Progress(ids, ckpt, cap, 0, 0, [], [])
  {
  }

  /** One pass of the loop keeps the progress: after a flush the queue
      starts empty above `i`, otherwise it carries on. */
  lemma ProgressStep(ids: seq<nat>, ckpt: Checkpoint, cap: nat, lo: nat, i: nat,
                     queue: seq<nat>, flushed: seq<seq<nat>>)
    requires Progress(ids, ckpt, cap, lo, i, queue, flushed) && i < |ids|
    ensures QueueWithin(ids, ckpt, lo, i + 1, Enqueue(ids, ckpt, i, queue))
    ensures FlushesAt(ids, cap, i, Enqueue(ids, ckpt, i, queue)) ==>
      Progress(ids, ckpt, cap, i + 1, i + 1, [], flushed + [Enqueue(ids, ckpt, i, queue)])
    ensures !FlushesAt(ids, cap, i, Enqueue(ids, ckpt, i, queue)) ==>
      Progress(ids, ckpt, cap, lo, i + 1, Enqueue(ids, ckpt, i, queue), flushed)
  {
    var q := Enqueue(ids, ckpt, i, queue);
    if FlushesAt(ids, cap, i, q) {
      FlattenAppend(flushed, [q]);
      assert Flatten([q]) == q + Flatten([]);
      assert Walk(ids, ckpt, cap, i, queue) == [q] + Walk(ids, ckpt, cap, i + 1, []);
      assert flushed + ([q] + Walk(ids, ckpt, cap, i + 1, [])) == flushed + [q] + Walk(ids, ckpt, cap, i + 1, []);
    } else {
      assert Walk(ids, ckpt, cap, i, queue) == Walk(ids, ckpt, cap, i + 1, q);
    }
  }

  /** A finished loop has flushed the whole schedule, which holds every
      pending position. */
  lemma ProgressDone(ids: seq<nat>, ckpt: Checkpoint, cap: nat, lo: nat, queue: seq<nat>,
                     flushed: seq<seq<nat>>)
    requires Progress(ids, ckpt, cap, lo, |ids|, queue, flushed)
    ensures flushed == Schedule(ids, ckpt, cap)
    ensures forall p :: 0 <= p < |ids| && NatToString(ids[p]) !in ckpt ==> p in Flatten(flushed)
  {
    ScheduleCovers(ids, ckpt, cap);
    forall p | 0 <= p < |ids| && NatToString(ids[p]) !in ckpt ensures p in Flatten(flushed) {
      PendingFromIff(ids, ckpt, 0, p);
    }
  }

  /** The dataset after the flushes so far: `done` are the flushed
      positions in order, `rows` their rows (each fits its image),
      `committed` the rewritten images, and `cur` the dataset, rewritten at
      `done` and untouched from `lo` on. */
  ghost predicate Translated(images0: seq<Image>, done: seq<nat>, rows: seq<seq<string>>,
                             committed: seq<Image>, cur: seq<Image>, lo: nat) {
    && |cur| == |images0| && |rows| == |done|
    && (forall k :: 0 <= k < |done| ==> done[k] < lo && done[k] < |images0|)
    && (forall k :: 0 <= k < |done| ==> Fits(images0[done[k]], rows[k]))
    && committed == Rewritten(images0, done, rows)
    && (forall k :: 0 <= k < |done| ==> committed[k].imgid == images0[done[k]].imgid)
    && (forall k :: 0 <= k < |done| ==> cur[done[k]] == committed[k])
    && (forall p :: 0 <= p < |cur| ==> cur[p].imgid == images0[p].imgid)
    && (forall p :: lo <= p < |cur| ==> cur[p] == images0[p])
    && (forall p :: 0 <= p < |cur| && p !in done ==> cur[p] == images0[p])
  }

  lemma TranslatedStart(images0: seq<Image>)
    ensures Translated(images0, [], [], [], images0, 0)
  {
  }

  /** The rewrite state below `lo` is also one below any larger bound. */
  lemma TranslatedRaise(images0: seq<Image>, done: seq<nat>, rows: seq<seq<string>>,
                        committed: seq<Image>, cur: seq<Image>, lo: nat, hi: nat)
    requires Translated(images0, done, rows, committed, cur, lo) && lo <= hi
    ensures Translated(images0, done, rows, committed, cur, hi)
  {
  }

  /** A successful flush of a queue from `[lo, i]` extends the rewrite state. */
  lemma TranslatedFlush(images0: seq<Image>, done: seq<nat>, rows: seq<seq<string>>,
                        committed: seq<Image>, cur: seq<Image>, lo: nat,
                        queue: seq<nat>, results: seq<seq<string>>, next: seq<Image>, i: nat)
    requires Translated(images0, done, rows, committed, cur, lo)
    requires lo <= i < |images0| && |results| == |queue|
    requires forall k :: 0 <= k < |queue| ==> lo <= queue[k] <= i
    requires forall j, k :: 0 <= j < k < |queue| ==> queue[j] < queue[k]
    requires forall k :: 0 <= k < |queue| ==> Fits(cur[queue[k]], results[k])
    requires |next| == |cur|
    requires forall p :: 0 <= p < |next| ==> next[p].imgid == cur[p].imgid
    requires forall p :: 0 <= p < |next| && p !in queue ==> next[p] == cur[p]
    requires forall k :: 0 <= k < |queue| ==> next[queue[k]] == Rewritten(cur, queue, results)[k]
    ensures Translated(images0, done + queue, rows + results,
                       committed + Rewritten(cur, queue, results), next, i + 1)
  {
    TranslatedFlushRows(images0, done, rows, committed, cur, lo, queue, results, i);
    TranslatedFlushNext(images0, done, rows, committed, cur, lo, queue, results, next, i);
  }

  /** The flushed positions, their rows and the rewritten images extend
      those of earlier flushes. */
  lemma TranslatedFlushRows(images0: seq<Image>, done: seq<nat>, rows: seq<seq<string>>,
                            committed: seq<Image>, cur: seq<Image>, lo: nat,
                            queue: seq<nat>, results: seq<seq<string>>, i: nat)
    requires Translated(images0, done, rows, committed, cur, lo)
    requires lo <= i < |images0| && |results| == |queue|
    requires forall k :: 0 <= k < |queue| ==> lo <= queue[k] <= i
    requires forall k :: 0 <= k < |queue| ==> Fits(cur[queue[k]], results[k])
    ensures var d := done + queue;
      var r := rows + results;
      var c := committed + Rewritten(cur, queue, results);
      && |r| == |d|
      && c == Rewritten(images0, d, r)
      && (forall k :: 0 <= k < |d| ==> d[k] < i + 1 && d[k] < |images0| && Fits(images0[d[k]], r[k]))
      && (forall k :: 0 <= k < |d| ==> c[k].imgid == images0[d[k]].imgid)
  {
    var batch := Rewritten(cur, queue, results);
    assert batch == Rewritten(images0, queue, results);
    RewrittenAppend(images0, done, rows, queue, results);
    forall k | 0 <= k < |queue| ensures batch[k].imgid == images0[queue[k]].imgid {
      RewriteImageMeaning(images0[queue[k]], results[k]);
    }
    var d := done + queue;
    var c := committed + batch;
    var r := rows + results;
    forall k | 0 <= k < |d| ensures d[k] < i + 1 && d[k] < |images0| && Fits(images0[d[k]], r[k]) {
      if k >= |done| {
        assert d[k] == queue[k - |done|] && r[k] == results[k - |done|];
      }
    }
    forall k | 0 <= k < |d| ensures c[k].imgid == images0[d[k]].imgid {
      if k >= |done| {
        assert d[k] == queue[k - |done|] && c[k] == batch[k - |done|];
      }
    }
  }

  /** The dataset after the flush holds the rewritten images at the flushed
      positions and the loaded ones elsewhere past `i` and outside every
      flush. */
  lemma TranslatedFlushNext(images0: seq<Image>, done: seq<nat>, rows: seq<seq<string>>,
                            committed: seq<Image>, cur: seq<Image>, lo: nat,
                            queue: seq<nat>, results: seq<seq<string>>, next: seq<Image>, i: nat)
    requires Translated(images0, done, rows, committed, cur, lo)
    requires lo <= i < |images0| && |results| == |queue|
    requires forall k :: 0 <= k < |queue| ==> lo <= queue[k] <= i
    requires |next| == |cur|
    requires forall p :: 0 <= p < |next| ==> next[p].imgid == cur[p].imgid
    requires forall p :: 0 <= p < |next| && p !in queue ==> next[p] == cur[p]
    requires forall k :: 0 <= k < |queue| ==> next[queue[k]] == Rewritten(cur, queue, results)[k]
    ensures var d := done + queue;
      var c := committed + Rewritten(cur, queue, results);
      && |c| == |d|
      && (forall p :: i + 1 <= p < |next| ==> next[p] == images0[p])
      && (forall k :: 0 <= k < |d| ==> next[d[k]] == c[k])
      && (forall p :: 0 <= p < |next| && p !in d ==> next[p] == images0[p])
  {
    var d := done + queue;
    var c := committed + Rewritten(cur, queue, results);
    forall p | i + 1 <= p < |next| ensures next[p] == images0[p] {
      assert p !in queue;
    }
    forall k | 0 <= k < |d| ensures next[d[k]] == c[k] {
      if k < |done| {
        assert d[k] !in queue;
      }
    }
    forall p | 0 <= p < |next| && p !in d ensures next[p] == images0[p] {
      assert p !in queue && p !in done;
    }
  }

  /** The queue flushed at `i` holds increasing positions of `[lo, i]`,
      whose images are still as loaded. */
  lemma FlushedQueue(images0: seq<Image>, ckpt0: Checkpoint, cap: nat, lo: nat, i: nat,
                     queue: seq<nat>, flushed: seq<seq<nat>>, rows: seq<seq<string>>,
                     committed: seq<Image>, cur: seq<Image>, q: seq<nat>)
    requires i < |images0|
    requires Progress(Ids(images0), ckpt0, cap, lo, i, queue, flushed)
    requires Translated(images0, Flatten(flushed), rows, committed, cur, lo)
    requires q == Enqueue(Ids(images0), ckpt0, i, queue)
    ensures forall k :: 0 <= k < |q| ==> lo <= q[k] <= i && cur[q[k]] == images0[q[k]]
    ensures forall j, k :: 0 <= j < k < |q| ==> q[j] < q[k]
  {
    ProgressStep(Ids(images0), ckpt0, cap, lo, i, queue, flushed);
    PendingInSorted(Ids(images0), ckpt0, lo, i + 1);
  }
}
