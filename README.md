# Resumable batch translation of the Flickr30k captions

This project models the pipeline that translates the captions of the
Flickr30k dataset JSON into Portuguese and can be stopped and resumed. It
covers three parts:

- **The stores** (`BaseTranslation`, base_translator.dfy). `BaseTranslator`
  keeps a checkpoint map from `str(imgid)` to `"ok"` and an output JSON
  `{"images": [...], "dataset": ...}`, in memory and in files. A commit
  appends one translated image to the output, then updates the checkpoint.
  On any failure it rewrites both files from snapshots and swallows the
  error; the model takes these rollback writes to succeed. The output snapshot is a shallow copy: it shares the `images` list,
  so it already holds the new entry.
- **The batching loop** (`Batching`, batching.dfy). Both translators share
  the loop of `translate_sentences`. It walks the dataset in order and
  queues every image whose key is not checkpointed. It flushes the queue
  when the queue holds `max_sentence_batches` images, or at an image whose
  `imgid` is the last image's. A flush rewrites each queued image's
  sentences in place with its translated row and derives the tokens
  (`strip(". ").lower().split()`). It then commits the images one by one.
- **The two translators.**
  - `GoogleCloud` (googlecloud.dfy) uses a batch cap of 50. Each image's
    raw sentences form one request.
  - `Groq` (groq.dfy, groq_answer.dfy) uses a batch cap of 30. Each image
    becomes one prompt carrying the map from sentence index to raw
    sentence. Each prompt goes through a retry loop:
    - every request counts in `requests_made`, and the loop raises once
      that reaches 14400;
    - the answer is repaired and validated by `assert_valid_answer`, then
      parsed by `parse_response`, which wants five sentences longer than ten
      characters;
    - an invalid answer is logged and retried.
  - The batching loop of the Groq translator also raises before an image
    once `requests_made` reaches 14390.

The methods follow the source's own shape. The translators are classes:
- their fields are the checkpoint, the output and the request counter;
- the source dataset is an `array<Image>` rewritten in place;
- the loops are `while` loops.

Each method's `ensures` ties its outcome and its new state to a pure
specification function. `RunFrom`/`GroqRunFrom` define the batching loop
as values. `Ask`/`AskAll` define the retry loop. `RewriteAt` defines the
in-place rewrite and `CommitAll` the commits. The properties are lemmas
about those functions:
- the batches partition the pending images in dataset order, within the
  cap;
- the committed images are the flushed ones rewritten with their rows;
- each row was accepted for that image's own prompt;
- the request counter stays within its ceilings;
- whatever fails during a commit, the files stay resumable: every image
  the checkpoint file marks is in the output file.

Python's `str(imgid)` is `NatToString`. `str.find`, `strip`, `replace`,
`lower` and `split` are modelled in `Strings` (strings.dfy) on ASCII.

## Model

| member | source | states |
|---|---|---|
| BaseTranslation.BaseTranslator.constructor | translation/base_translator.py:28-42 | The batch cap is 25. The checkpoint is the stored map, or empty when the file is missing or unreadable. The output is the stored one, or `{"images": [], "dataset": "flickr30k"}` when there is no file. The stores start synced. |
| BaseTranslation.BaseTranslator.SaveCheckpoint | translation/base_translator.py:51-60 | It raises exactly when opening or writing the file fails. The in-memory checkpoint becomes the old one updated with the data once the file is open. A successful write leaves the whole updated map in the file. |
| BaseTranslation.ImageList.Append | translation/base_translator.py:94 | The entry is added at the end of the shared `images` list and nothing else changes. |
| BaseTranslation.BaseTranslator.AppendTranslatedSentencesToOutput | translation/base_translator.py:81-107 | Each combination of failures in the output open, the output write, the checkpoint open and the checkpoint write gives the stores `Commit` describes. The output snapshot shares the list; the checkpoint snapshot is a true pre-call copy. The rollback's own opens and writes are taken to succeed. |
| BaseTranslation.CommitGrows | translation/base_translator.py:86-107 | A commit never drops a checkpoint key or an output entry and never changes the dataset name. The entry is appended exactly when the output file opened. The data is added exactly when the output write succeeded and the checkpoint file opened. |
| BaseTranslation.CommitSucceeds | translation/base_translator.py:94-98 | Without failure, one entry is appended, the data is added, and both files hold the whole new stores. |
| BaseTranslation.CommitKeepsSynced | translation/base_translator.py:99-107 | After any failure, the output file equals the output, and the checkpoint file marks no key the in-memory checkpoint lacks. |
| BaseTranslation.CommitKeepsResumable | translation/base_translator.py:81-107 | Whatever fails, every key the checkpoint (in memory or in its file) marks belongs to an image in the output. |
| BaseTranslation.TornCommit | translation/base_translator.py:94-107 | A failed output write, or a failed checkpoint open, leaves the entry in the output file while the checkpoint does not mark it. A resumed run therefore appends that image again. |
| Strings.Find | translation/groq_translator.py:159-168 | `find` of a character that occurs returns its first position. |
| Strings.Strip | translation/groq_translator.py:176 | After `strip`, neither end is a stripped character. The result is empty exactly when every character is stripped. |
| Strings.StripTrims | translation/groq_translator.py:176 | `strip` returns a stretch of the input (`TrimmedAt`): every character dropped before or after it is a stripped character. |
| Strings.Lower | translation/googlecloud_translator.py:77 | `lower` keeps the length, leaves no upper-case letter, and keeps every other character. |
| Strings.LowerLetters | translation/googlecloud_translator.py:77 | `lower` maps each upper-case ASCII letter to the letter 32 code points above it, its lower-case form. |
| Strings.Split | translation/googlecloud_translator.py:77 | Every word of `split()` is non-empty and free of whitespace. |
| Strings.SplitStarts | translation/googlecloud_translator.py:77 | There is one start position per word of `split()`. |
| Strings.SplitRuns | translation/googlecloud_translator.py:77 | The words of `split()` are exactly the maximal runs of non-whitespace, for any whitespace. Each word is the stretch of the input at its start, with whitespace or an end of the input on both sides. The words are in order and apart. Every non-whitespace character lies inside some word. |
| Strings.SplitConcat | translation/googlecloud_translator.py:77 | The words of `split()`, glued together, are the input without its whitespace. |
| Strings.SplitJoin | translation/googlecloud_translator.py:77 | `split()` undoes a single-space join of whitespace-free words. |
| Strings.ReplaceAbsent | translation/groq_translator.py:177-186 | `replace` of a pattern that does not occur changes nothing. |
| Strings.ParseNatToString | translation/googlecloud_translator.py:58 | `int(str(n)) == n`. |
| Strings.NatToStringInjective | translation/googlecloud_translator.py:58-79 | Distinct ids have distinct checkpoint keys. |
| GroqAnswer.RepairEnd | translation/groq_translator.py:155-162 | The answer comes back ending with `}`. It is unchanged when it already ends with `}`; otherwise it is cut just after its first `}`, or, with no `}`, its last character is replaced. |
| GroqAnswer.RepairStart | translation/groq_translator.py:164-171 | The answer comes back starting with `{`. It is unchanged when it already starts with `{`; otherwise it is cut just before its first `{`, or, with no `{`, its first character is replaced. When the answer has more than one character, its last character is kept. |
| GroqAnswer.MatchAtStart | translation/groq_translator.py:183 | `re.match` succeeds exactly when the answer starts with one of the four two-character alternatives, and the match is those two characters. |
| GroqAnswer.AssertValidAnswer | translation/groq_translator.py:150-191 | It raises IndexError exactly on the empty answer. It raises `InvalidAnswer` exactly when the brace-repaired answer is shorter than 100 characters, which is measured before stripping. |
| GroqAnswer.OnlyLeadingBraceCommaMatches | translation/groq_translator.py:183-186 | On an answer starting with `{`, only `{,` can match, and then every `{,` is replaced by `{`. |
| GroqAnswer.ValidAnswerIsBraced | translation/groq_translator.py:155-186 | Every accepted answer starts with `{` and ends with `}`. |
| GroqAnswer.ValidAnswerHasNoNewline | translation/groq_translator.py:176-186 | No accepted answer holds a newline. |
| GroqAnswer.ValidAnswerHasNoEscapedQuote | translation/groq_translator.py:179-186 | No accepted answer holds `\'`, provided the flattened answer held no `\\'`. |
| GroqAnswer.EscapedBackslashLeavesEscapedQuote | translation/groq_translator.py:179-181 | An answer holding `\\'` is accepted with a `\'` still in it, and is logged. |
| GroqAnswer.NothingLoggedIffClean | translation/groq_translator.py:150-191 | `found_error` stays false exactly on clean answers (braced, at least 100 long, no `\'`, no leading `{,`). A clean answer comes back with only its newlines removed. |
| GroqAnswer.WellFormedAnswerIsFixedPoint | translation/groq_translator.py:150-191 | A braced answer of at least 100 characters, with no newline, no `\'` and no leading `{,`, is returned unchanged and not logged. |
| GroqAnswer.ParseResponse | translation/groq_translator.py:198-206 | It accepts exactly five values each longer than ten characters, and returns them as they are and in order. A JSON error, a wrong count and a short value are told apart. |
| GroqAnswer.ParseTwice | translation/groq_translator.py:232-238 | The answer is parsed as it is. Only on a JSON error is it parsed again with `\"` replaced by `"`. |
| GroqAnswer.HandleResponse | translation/groq_translator.py:228-246 | Only an empty answer leaves the loop with an error. A short answer is retried without logging. An answer is accepted exactly when it validates and one of the two parses succeeds. It then holds the values of the successful parse, which are five valid sentences. Every logged line is the original answer. There is one line for a repaired answer and one for a first parse that failed. |
| Groq.HandlingSound | translation/groq_translator.py:198-239 | Every row the translator's handling accepts holds five sentences longer than ten characters. |
| Groq.Ask | translation/groq_translator.py:210-246 | The retry loop for one prompt makes at least one request. It ends on completion, on the daily limit or on an empty answer. It ends on the daily limit exactly when the counter reaches 14400. |
| Groq.AskLimit | translation/groq_translator.py:223-226 | The loop raises at the first request that brings the counter to 14400. |
| Groq.AskReplies | translation/groq_translator.py:210-246 | Every request but the last was retried. A completed loop returns the sentences the handler accepted for its last answer. An empty answer ends it. |
| Groq.AskAll | translation/groq_translator.py:208-248 | When `send_sentences_to_api` completes, it returns one row per prompt. On the daily limit the counter is at least 14400. |
| Groq.AskAllCounts | translation/groq_translator.py:209-226 | On the daily limit the counter ends exactly at 14400, or one past where it started. On completion it grew by at least one per prompt and stayed below 14400. |
| Groq.AskAllStops | translation/groq_translator.py:209-246 | Once a prompt's loop raises, no later prompt is sent. |
| Groq.AskAllRows | translation/groq_translator.py:206-239 | Row `k` is the answer the handler accepted for prompt `k` at one of the requests made, so rows come in prompt order. |
| Groq.AskAllValid | translation/groq_translator.py:201-206 | With the translator's handling, every row returned holds five sentences longer than ten characters. |
| Groq.AskCeiling | translation/groq_translator.py:223-226 | Started below 14400, one prompt's loop never passes 14400, and it stays below unless it raises the limit. |
| Groq.AskAllCeiling | translation/groq_translator.py:209-226 | Started below 14400, the loop over all prompts never passes 14400. |
| Groq.GroqRunFrom | translation/groq_translator.py:97-143 | The request counter never decreases. A run ends on the daily limit only with the counter at 14390 or more. |
| Groq.GroqRunMeets | translation/groq_translator.py:91-143 | A run flushes a prefix of the schedule, all of it when it completes. It commits the flushed images rewritten with its rows, in order, and leaves the stores as the starting ones with those commits applied. With the translator's handling, every row holds five valid sentences. The run ends on a missing translation only when some pending image has more than five sentences. A counter starting at or below 14400 ends at or below it. |
| Groq.GroqRunRewrites | translation/groq_translator.py:120-131 | A completed run flushes exactly the pending images. Each is left rewritten at its own position; every other image is unchanged. With the translator's handling, no pending image had more than five sentences. |
| Groq.GroqRunAnswers | translation/groq_translator.py:104-131 | Every committed image is rewritten with a row the handler accepted for that image's own prompt. |
| Groq.GroqRunMarksAll | translation/groq_translator.py:127-138 | Without commit failures, a completed run marks every image in the checkpoint and appends the committed images, in order, to the output. |
| Groq.GroqRunResumable | translation/groq_translator.py:120-138 | However the run ends and whatever its commits meet, the stores stay synced and resumable. |
| Groq.GroqTranslate.constructor | translation/groq_translator.py:66-87 | The base stores are loaded, the batch cap is 30 and no request has been made. |
| Groq.GroqTranslate.Request | translation/groq_translator.py:210-246 | The retry loop for one prompt ends as `Ask` says: outcome, row, counter and log lines. |
| Groq.GroqTranslate.SendSentencesToApi | translation/groq_translator.py:193-248 | It returns what `AskAll` says for all prompts: outcome, rows, counter and log lines. |
| Groq.GroqTranslate.Flush | translation/groq_translator.py:116-143 | A flush sends the prompts, rewrites the queued images in place and commits them, as `GroqFlushFrom` says. |
| Groq.GroqTranslate.Visit | translation/groq_translator.py:97-143 | One pass of the loop raises at the guard, queues the image's prompt unless it is checkpointed, and flushes when the batch closes, as one step of `GroqRunFrom`. |
| Groq.GroqTranslate.TranslateSentences | translation/groq_translator.py:91-143 | It ends with the outcome, batches, committed images, stores, dataset, counter and log lines of `GroqRun` on the starting dataset, stores and counter. |
| Batching.PendingFromIff | translation/googlecloud_translator.py:58 | A position is pending exactly when its key is not in the checkpoint. |
| Batching.PendingFromSorted | translation/googlecloud_translator.py:55-62 | Pending positions come in dataset order. |
| Batching.WalkCovers | translation/googlecloud_translator.py:55-88 | The batches, concatenated, are the queue followed by the pending positions, so every pending image is sent exactly once, in order. |
| Batching.ScheduleCovers | translation/googlecloud_translator.py:55-88 | The batches of a whole run, concatenated, are exactly the pending positions. |
| Batching.WalkWithinCap | translation/googlecloud_translator.py:64-67 | No batch holds more than the cap. |
| Batching.WalkFullBatches | translation/googlecloud_translator.py:64-67 | With unique ids, every batch but the last is exactly full. |
| Batching.ScheduleShape | translation/googlecloud_translator.py:55-88 | With unique ids, a run's batches are within the cap, all but the last full, and together exactly the pending positions in order. |
| Batching.WalkAllDone | translation/googlecloud_translator.py:64-68 | Resuming a finished run sends one empty batch, at the last image. |
| Batching.TokensAreWords | translation/googlecloud_translator.py:76-78 | Tokens are non-empty, hold no whitespace and no upper-case letter. Glued together, they are the stripped, lowered sentence without its whitespace. |
| Batching.RewriteImageMeaning | translation/googlecloud_translator.py:74-78 | A rewritten image keeps its id and its sentences' `sentid`s. When the row fits, its raw sentences are the row's. Each token list is derived from its row entry. |
| Batching.RewriteSentences | translation/googlecloud_translator.py:74-78 | The sentence loop fails exactly when the row is too short, after rewriting the sentences before the missing one. |
| Batching.RewriteAtKeeps | translation/googlecloud_translator.py:70-78 | The rewrite of a batch keeps every `imgid` and touches no position outside the queue. |
| Batching.RewriteAtOk | translation/googlecloud_translator.py:70-78 | With distinct positions, the rewrite succeeds exactly when every row fits its image. |
| Batching.RewriteAtRewritten | translation/googlecloud_translator.py:70-78 | A successful rewrite yields the queued images, in queue order, each rewritten with its row. |
| Batching.RewriteAtPlaces | translation/googlecloud_translator.py:70-78 | After a successful rewrite each queued position of the dataset holds its image rewritten with its row. |
| Batching.RewriteBatch | translation/googlecloud_translator.py:70-78 | The in-place loop over the results does what `RewriteAt` says to the array. |
| Batching.CommitBatch | translation/googlecloud_translator.py:79-86 | The commits of a batch, in result order, take the stores to `CommitAll`. |
| Batching.FlushBatch | translation/googlecloud_translator.py:68-86 | A flush rewrites, then commits only when every row fits. |
| Batching.CommitAllKeys | translation/googlecloud_translator.py:79-86 | The checkpoint only grows, and only by the keys of committed images. |
| Batching.CommitAllResumable | translation/googlecloud_translator.py:79-86 | Whatever faults the commits meet, the stores stay synced and resumable. |
| Batching.CommitAllFaultFree | translation/googlecloud_translator.py:79-86 | Without faults, the output gains exactly the entries, in order; the checkpoint marks each; both files hold the whole stores. |
| Batching.CommitAllAppend | translation/googlecloud_translator.py:79-86 | Committing two lists is committing one after the other. |
| Batching.LiveCheckpoint | translation/googlecloud_translator.py:58-79 | With unique ids, the commits of earlier images do not change whether a later image is checkpointed. |
| GoogleCloud.RunFrom | translation/googlecloud_translator.py:55-88 | A run ends either completed or on a missing translation. |
| GoogleCloud.GoogleRunMeets | translation/googlecloud_translator.py:49-88 | A run flushes a prefix of the schedule, all of it when it completes. It completes exactly when the API's translation of every pending image fits it. It commits the flushed images rewritten with the API's rows, and the stores are the starting ones with those commits applied. |
| GoogleCloud.GoogleRunRewrites | translation/googlecloud_translator.py:70-78 | A completed run leaves each flushed image rewritten at its position and every other image unchanged. |
| GoogleCloud.GoogleRunMarksAll | translation/googlecloud_translator.py:79-86 | Without commit failures, a completed run marks every image and appends the committed images, in order, to the output. |
| GoogleCloud.GoogleRunResumable | translation/googlecloud_translator.py:55-88 | However the run ends and whatever its commits meet, the stores stay synced and resumable. |
| GoogleCloud.GoogleCloudTranslate.constructor | translation/googlecloud_translator.py:20-47 | The base stores are loaded and the batch cap is 50. |
| GoogleCloud.GoogleCloudTranslate.SendSentencesToApi | translation/googlecloud_translator.py:90-118 | It returns one translation per list of sentences, in order. |
| GoogleCloud.GoogleCloudTranslate.Visit | translation/googlecloud_translator.py:55-88 | One pass of the loop is one step of `RunFrom`. |
| GoogleCloud.GoogleCloudTranslate.TranslateSentences | translation/googlecloud_translator.py:49-88 | It ends with the outcome, batches, committed images, stores and dataset of `GoogleRun` on the starting dataset and stores. |

## Left out

- File I/O is modelled by the value last written to each file. Opening or writing a file fails as given by a `CommitFault` per image id. Truncation effects of `r+` writes and unreadable JSON contents are not modelled.
- BaseTranslation.BaseTranslator.AppendTranslatedSentencesToOutput: the rollback in the `except` branch (translation/base_translator.py:99-107) reopens both files and writes the snapshots. The model takes these opens and writes to succeed. If one fails, the source propagates the error out of the call and out of `gather`, and the model does not capture that. A checkpoint file left empty or half-written is not modelled either; loading it would raise a JSON error that `load_checkpoint` does not catch.
- BaseTranslation.Commit: the same assumption as above, that the rollback writes succeed.
- `asyncio`: the lock, `gather`, `sleep(65)` and `tqdm` are left out. The commits of a batch run sequentially, in result order.
- The Groq and Google clients are parameters. The Groq client is a function from the payload and the request number to the answer text. The prompt wording around the payload is not modelled.
- Groq.Ask, Groq.GroqTranslate.Request and GoogleCloud.GoogleCloudTranslate.SendSentencesToApi: the clients are total and always return text. In the source, a failure of `chat.completions.create` (a rate-limit or connection error, translation/groq_translator.py:213), a `None` message content (:228), a decoded value that is not a string (:204) or a failure of `translate_text` (translation/googlecloud_translator.py:104) raises an exception nothing catches, which ends `translate_sentences`. These endings are not modelled.
- `json.loads` of an answer is a parameter `decode`, returning the decoded object's values in key order or a JSON error. `json.dumps` is the identity on the modelled values.
- `write_wrong_answer_to_disk` is modelled as the list of lines appended to the log (`invalidAnswers`).
- Checkpoint keys are strings throughout. The source inserts new keys as ints, which become strings only on disk; with unique ids the two agree for every lookup the loop makes.
- `infos_dict` (keyed by `imgid`) is modelled by positions in the dataset. The two agree when ids are unique, which the run lemmas require.
- Groq.GroqTranslate.SendSentencesToApi: it takes the answer handling as a parameter `handle`. The translator passes `Handling(decode)`. The run lemmas hold for any handler, and the row-validity clauses assume a handler that accepts only valid rows, which `HandlingSound` proves of `Handling`.
- GroqAnswer.ValidAnswerHasNoEscapedQuote: the property holds only when the answer holds no `\\'`. `replace` is a single left-to-right pass, and `EscapedBackslashLeavesEscapedQuote` shows an accepted answer that keeps a `\'`.
- Unicode: `lower`, `strip` and `split` act on ASCII only.
- translation/libretranslate_translator.py, dataset_utils.py, translation/config.py and the `main` entry points are not part of this model.
