/**
 * The checkpoint and output stores shared by every translator
 * (translation/base_translator.py): loading them, updating the checkpoint,
 * and the commit of one translated image with its rollback on failure.
 *
 * Files are modelled by the value last written to them. A checkpoint file
 * holds a JSON object whose keys are strings: `str(imgid)` is `NatToString`.
 */
module BaseTranslation {
  import opened Common
  import opened Strings

  /** `max_sentence_batches` unless a translator overrides it. */
  const DefaultBatchCap: nat := 25
  /** The `dataset` entry of a freshly created output file. */
  const DatasetName := "flickr30k"
  /** The value stored for every checkpointed image. */
  const Done := "ok"

  datatype Sentence = Sentence(raw: string, tokens: seq<string>, sentid: nat)

  /** One entry of the dataset's `images` list (the fields the translators touch). */
  datatype Image = Image(imgid: nat, sentences: seq<Sentence>)

  /** The output JSON `{"images": [...], "dataset": ...}` as a value. */
  datatype Output = Output(images: seq<Image>, dataset: string)

  type Checkpoint = map<string, string>

  /** The in-memory `images` list of the output JSON. A shallow `copy` of the
      output dictionary shares this object rather than duplicating it. */
  class ImageList {
    var items: seq<Image>

    constructor (items: seq<Image>)
      ensures this.items == items
    {
      this.items := items;
    }

    method Append(entry: Image)
      modifies this
      ensures items == old(items) + [entry]
    {
      items := items + [entry];
    }
  }

  /** The output dictionary in memory: a reference to its list, and its dataset name. */
  datatype OutputJson = OutputJson(images: ImageList, dataset: string)

  /** `json.dumps` of the output dictionary: what a write puts in the file. */
  function Dump(json: OutputJson): Output
    reads json.images
  {
    Output(json.images.items, json.dataset)
  }

  /** The checkpoint data committed for one image: `{image_id: "ok"}`. */
  function CheckpointData(imgid: nat): Checkpoint {
    map[NatToString(imgid) := Done]
  }

  // ---------------------------------------------------------------------
  // The stores as values, and the commit as a transition on them
  // ---------------------------------------------------------------------

  /** The checkpoint in memory and in its file (`None`: no readable file),
      the output in memory and in its file. */
  datatype Stores = Stores(checkpoint: Checkpoint, checkpointFile: Option<Checkpoint>,
                           output: Output, outputFile: Output)

  /** What can go wrong with one file of a commit: opening it or writing it. */
  datatype IoFault = Succeeds | OpenFails | WriteFails

  /** The fate of the output file and of the checkpoint file during one commit. */
  datatype CommitFault = CommitFault(output: IoFault, checkpoint: IoFault)

  const NoFault := CommitFault(Succeeds, Succeeds)

  /** `append_translated_sentences_to_output` on the stores. The entry is
      appended once the output file is open; the checkpoint is updated once
      its file is open. On any failure the output file is rewritten from the
      shallow snapshot, which shares the list and so holds the entry too,
      and the checkpoint file from the true pre-call copy; the in-memory
      values are not restored and the failure is swallowed. The rollback's
      own opens and writes are taken to succeed. */
  function Commit(st: Stores, entry: Image, data: Checkpoint, f: CommitFault): Stores {
    if f.output == OpenFails then
      st.(checkpointFile := Some(st.checkpoint), outputFile := st.output)
    else
      var out := st.output.(images := st.output.images + [entry]);
      if f.output == WriteFails || f.checkpoint == OpenFails then
        Stores(st.checkpoint, Some(st.checkpoint), out, out)
      else if f.checkpoint == WriteFails then
        Stores(st.checkpoint + data, Some(st.checkpoint), out, out)
      else
        Stores(st.checkpoint + data, Some(st.checkpoint + data), out, out)
  }

  /** Both files agree with memory: the output file is the output, and the
      checkpoint file holds no key the in-memory checkpoint lacks. */
  predicate Synced(st: Stores) {
    && st.outputFile == st.output
    && (st.checkpointFile.Some? ==> st.checkpointFile.value.Keys <= st.checkpoint.Keys)
  }

  /** `str(imgid)` of some image of the list. */
  predicate Listed(images: seq<Image>, key: string) {
    exists i :: 0 <= i < |images| && NatToString(images[i].imgid) == key
  }

  /** Every image the in-memory checkpoint marks as done is in the output. */
  predicate Marked(st: Stores) {
    forall key :: key in st.checkpoint ==> Listed(st.output.images, key)
  }

  /** Safe to resume from the files: every image the checkpoint file marks
      as done is in the output file, so skipping it loses nothing. */
  predicate Resumable(st: Stores) {
    st.checkpointFile.Some? ==>
      forall key :: key in st.checkpointFile.value ==> Listed(st.outputFile.images, key)
  }

  lemma ListedGrows(images: seq<Image>, more: seq<Image>, key: string)
    requires Listed(images, key)
    ensures Listed(images + more, key)
  {
    var i :| 0 <= i < |images| && NatToString(images[i].imgid) == key;
    assert (images + more)[i] == images[i];
  }

  /** A commit never drops a checkpointed key or an output entry, never
      changes the dataset name, appends the entry exactly when the output
      file could be opened, and adds the data exactly when both the output
      write and the checkpoint open went through. */
  lemma CommitGrows(st: Stores, entry: Image, data: Checkpoint, f: CommitFault)
    ensures var r := Commit(st, entry, data, f);
      && st.checkpoint.Keys <= r.checkpoint.Keys
      && r.output.dataset == st.output.dataset
      && r.output.images == st.output.images + (if f.output == OpenFails then [] else [entry])
      && r.checkpoint == (if f.output == Succeeds && f.checkpoint != OpenFails then st.checkpoint + data else st.checkpoint)
  {
  }

  /** On success the commit appends the entry, adds the data to the checkpoint
      and writes both stores whole. */
  lemma CommitSucceeds(st: Stores, entry: Image, data: Checkpoint)
    ensures Commit(st, entry, data, NoFault) ==
      Stores(st.checkpoint + data, Some(st.checkpoint + data),
             st.output.(images := st.output.images + [entry]),
             st.output.(images := st.output.images + [entry]))
  {
  }

  /** Whatever fails, the files end up synced with memory. */
  lemma CommitKeepsSynced(st: Stores, entry: Image, data: Checkpoint, f: CommitFault)
    ensures Synced(Commit(st, entry, data, f))
  {
  }

  lemma SyncedMarkedIsResumable(st: Stores)
    requires Synced(st) && Marked(st)
    ensures Resumable(st)
  {
  }

  /** Whatever fails, a commit of `{str(imgid): "ok"}` keeps every checkpointed
      image in the output, in memory and in the files. */
  lemma CommitKeepsResumable(st: Stores, entry: Image, f: CommitFault)
    requires Marked(st)
    ensures var r := Commit(st, entry, CheckpointData(entry.imgid), f);
      Marked(r) && Resumable(r)
  {
    var r := Commit(st, entry, CheckpointData(entry.imgid), f);
    var extra := r.output.images[|st.output.images|..];
    assert st.output.images + extra == r.output.images;
    forall key | key in r.checkpoint ensures Listed(r.output.images, key) {
      if key in st.checkpoint {
        ListedGrows(st.output.images, extra, key);
      } else {
        assert r.output.images[|r.output.images| - 1] == entry;
      }
    }
    CommitKeepsSynced(st, entry, CheckpointData(entry.imgid), f);
    SyncedMarkedIsResumable(r);
  }

  /** A commit whose output write fails leaves the entry in the output file
      while the checkpoint does not mark it: a resumed run translates and
      appends that image again. */
  lemma TornCommit(st: Stores, entry: Image, f: CommitFault)
    requires NatToString(entry.imgid) !in st.checkpoint
    requires f.output == WriteFails || (f.output == Succeeds && f.checkpoint == OpenFails)
    ensures var r := Commit(st, entry, CheckpointData(entry.imgid), f);
      && r.outputFile.images[|r.outputFile.images| - 1] == entry
      && r.checkpointFile == Some(st.checkpoint)
      && NatToString(entry.imgid) !in r.checkpoint
  {
  }

  // ---------------------------------------------------------------------
  // BaseTranslator
  // ---------------------------------------------------------------------

  class BaseTranslator {
    /** `_checkpoint_dictionary` */
    var checkpoint: Checkpoint
    /** What the checkpoint file holds; `None` when there is no readable file. */
    var checkpointFile: Option<Checkpoint>
    /** `_flickr_dest_json` */
    var destJson: OutputJson
    /** What the output file holds. */
    var outputFile: Output
    /** `_flickr_source_json["images"]`, rewritten in place by the translators. */
    var source: array<Image>
    var maxSentenceBatches: nat

    /** The stores as one value. */
    ghost function State(): Stores
      reads this, destJson.images
    {
      Stores(checkpoint, checkpointFile, Dump(destJson), outputFile)
    }

    /** `__init__`: `load_checkpoint` (`storedCheckpoint` is `None` when the
        file is missing or unreadable), `read_source_json` and
        `create_or_load_ouput_json` (`storedOutput` is `None` when there is
        no output file, which is then created). */
    constructor (source: array<Image>, storedCheckpoint: Option<Checkpoint>, storedOutput: Option<Output>)
      ensures this.source == source && maxSentenceBatches == DefaultBatchCap
      ensures checkpointFile == storedCheckpoint
      ensures checkpoint == if storedCheckpoint.Some? then storedCheckpoint.value else map[]
      ensures outputFile == if storedOutput.Some? then storedOutput.value else Output([], DatasetName)
      ensures Dump(destJson) == outputFile && fresh(destJson.images)
      ensures Synced(State())
    {
      this.source := source;
      maxSentenceBatches := DefaultBatchCap;
      checkpointFile := storedCheckpoint;
      checkpoint := map[];
      match storedCheckpoint {
        case Some(stored) => checkpoint := stored;
        case None =>
      }
      var list;
      match storedOutput {
        case None =>
          list := new ImageList([]);
          destJson := OutputJson(list, DatasetName);
          outputFile := Output([], DatasetName);
        case Some(stored) =>
          list := new ImageList(stored.images);
          destJson := OutputJson(list, stored.dataset);
          outputFile := stored;
      }
    }

    /** `save_checkpoint`: opens the file (which may fail), updates the
        checkpoint with `data` and writes all of it. `ok` is false when the
        source raises; a failed write leaves no readable file. */
    method SaveCheckpoint(data: Checkpoint, fault: IoFault) returns (ok: bool)
      modifies this`checkpoint, this`checkpointFile
      ensures ok <==> fault == Succeeds
      ensures checkpoint == if fault == OpenFails then old(checkpoint) else old(checkpoint) + data
      ensures checkpointFile == match fault
        case OpenFails => old(checkpointFile)
        case WriteFails => None
        case Succeeds => Some(checkpoint)
    {
      if fault == OpenFails {
        return false;
      }
      checkpoint := checkpoint + data;
      if fault == WriteFails {
        checkpointFile := None;
        return false;
      }
      checkpointFile := Some(checkpoint);
      ok := true;
    }

    /** `append_translated_sentences_to_output`, with the failures that can
        interrupt it given by `fault`. */
    method AppendTranslatedSentencesToOutput(entry: Image, data: Checkpoint, fault: CommitFault)
      modifies this, destJson.images
      ensures destJson == old(destJson) && source == old(source)
      ensures maxSentenceBatches == old(maxSentenceBatches)
      ensures State() == Commit(old(State()), entry, data, fault)
    {
      var oldJson := destJson;          // copy(): a new dict sharing the images list
      var oldCheckpoint := checkpoint;  // copy(): a distinct map
      var failed := true;
      if fault.output != OpenFails {
        destJson.images.Append(entry);
        if fault.output == Succeeds {
          outputFile := Dump(destJson);
          var ok := SaveCheckpoint(data, fault.checkpoint);
          failed := !ok;
        }
      }
      if failed {
        outputFile := Dump(oldJson);
        checkpointFile := Some(oldCheckpoint);
      }
    }
  }
}
