# epub-thai-wordbreak, modelled in Dafny

epub-thai-wordbreak rewrites the (X)HTML entries of an EPUB container. Every maximal run of
Thai characters is cut into words by a neural word-boundary predictor, and the words are
joined with the HTML character reference `&#8203;` (a zero-width space), so that readers
can break lines between Thai words. All other entries of the container are copied as they
are. Entries are processed by worker threads and written back in their original order.

This project models the deterministic core of `main.py` and proves its properties:

- `labels.dfy` (module `Labels`): the Thai membership table `thai_chars` and the alphabet
  `_char_set` / `_dictionary`, which turns characters into the predictor's 178 input labels.
- `segmenter.dfy` (module `Segmenter`): `scan_thai_chunk`, the left-to-right split of a
  string into maximal Thai and non-Thai runs. It is a specification function `Scan` plus the
  loop method `ScanThaiChunk` proved equal to it.
- `wordbreak.dfy` (module `WordBreak`): `break_word` with the predictor as a parameter. It
  covers the label lookup and the loop that cuts the run at every true flag and drops the
  first piece.
- `wbr.dfy` (module `Wbr`): `add_wbr`, plus the theorem on visible text. If the predictor
  flags position 0 of every Thai run, removing the markers from the output gives what
  removing them from the input gives. For an input that holds no marker, that is the input
  itself. Without the flag, the text before a run's first flagged position is lost.
- `pipeline.dfy` (module `Pipeline`): the numbering and routing of `input_worker`, the
  per-entry transformation of `worker`, and the reorder sink of `output_worker`. The sink is
  a class with the `reorder` map, the `cur` cursor and the written entries. Delivering one
  queue message is one method call. Provided every work item comes back from its worker,
  the sink is proved to write the expected entries, each once and in order, whatever the
  arrival order.
- `strings.dfy` (module `Strings`) holds `''.join` and `sep.join`. `wrappers.dfy` holds the
  `Option` type. `None` models Python's `KeyError` at the label lookup, and also the `None`
  fields of queue messages.

The predictor (an ONNX session in the source) is a parameter `predict: seq<nat> -> seq<bool>`
that returns one flag per label (`SameLength`). Text is a sequence of code points.

## Model

| member | source | states |
|---|---|---|
| `Strings.ConcatAppend` | main.py:56 | `''.join` of two lists one after the other is the join of the first followed by the join of the second |
| `Strings.JoinLength` | main.py:55 | `sep.join` of n > 0 pieces is as long as the pieces together plus n - 1 separators |
| `Labels.ThaiRanges` | main.py:12 | a character is in `thai_chars` iff its code point is in U+0E01..U+0E39 or U+0E3F..U+0E4C, both ends inclusive |
| `Labels.CharSetIncreasing` | main.py:15-16 | `_char_set` has 178 entries in strictly increasing code-point order, so no character occurs twice |
| `Labels.CharSetThaiPart` | main.py:12-16 | entries 97..167 of `_char_set` are exactly the characters `thai_chars` is built from |
| `Labels.IndexOf` | main.py:17 | the dict comprehension over `enumerate`: its keys are exactly the listed characters, and every key maps to a position holding that character |
| `Labels.DictionaryInvertsCharSet` | main.py:15-17 | `_dictionary[_char_set[i]] == i` for every i < 178; every key has a label below 178 that indexes back to it |
| `Labels.ThaiHasLabel` | main.py:12-17 | every character of `thai_chars` is a key of `_dictionary` |
| `Labels.ThaiDigitsNotThai` | main.py:12-16 | the Thai digits U+0E50..U+0E59 have labels but are not Thai, so they fall into non-Thai runs |
| `Labels.EncodeLabels` | main.py:20 | `[_dictionary[ch] for ch in chunk]` raises `KeyError` (`None`) exactly when some character has no label; otherwise it yields one label per character, label i below 178 and naming character i |
| `Labels.ThaiEncodes` | main.py:12-20 | the lookup never fails on a string of Thai characters |
| `Segmenter.ExtendRuns` | main.py:37-44 | one loop step (extend the current run or start a new one) keeps the runs maximal and non-empty |
| `Segmenter.ExtendConcat` | main.py:37-44 | one loop step appends the character to the concatenated run texts |
| `Segmenter.ScanMaximal` | main.py:33-46 | every run is non-empty, all its characters have the run's Thai flag, neighbouring runs have opposite flags; only the empty string yields no runs |
| `Segmenter.ScanConcat` | main.py:33-46 | concatenating the yielded run texts in order gives back the input exactly |
| `Segmenter.ScanRuns` | main.py:33-46 | the two facts above together: maximal runs that spell out the input, none for the empty string |
| `Segmenter.ScanUnique` | main.py:33-46 | any list of maximal runs that spells out `s` is the scan of `s`, so the scan is the only such split |
| `Segmenter.ScanNoThai` | main.py:33-46 | a non-empty string without Thai characters is yielded as one non-Thai run |
| `Segmenter.ScanThaiChunk` | main.py:33-46 | the generator loop over `chunk_type` / `chunk_cur` yields exactly `Scan(text)` |
| `WordBreak.PiecesConcat` | main.py:23-30 | the slices between consecutive cut points spell out the text from the first cut to the last |
| `WordBreak.TrueIndices` | main.py:25-28 | the positions at which the loop cuts all lie inside the flag sequence |
| `WordBreak.TrueIndicesFlagged` | main.py:25-28 | every cut position carries a true flag |
| `WordBreak.TrueIndicesIncreasing` | main.py:25-28 | cut positions strictly increase |
| `WordBreak.TrueIndicesComplete` | main.py:25-28 | every true flag gives a cut position |
| `WordBreak.TrueIndicesCount` | main.py:25-28 | there are as many cut positions as true flags |
| `WordBreak.WordsShape` | main.py:23-31 | `break_word` returns one word per true flag, none empty, each made of the run's characters |
| `WordBreak.WordsFromFirstFlag` | main.py:25-31 | dropping the first piece loses the text before the first true flag: the words spell out the run from that flag on |
| `WordBreak.WordsNoFlag` | main.py:25-31 | all-false flags give the empty list |
| `WordBreak.WordsLossless` | main.py:23-31 | when flag 0 is true, the words are non-empty and spell out the whole run |
| `WordBreak.SplitAtFlags` | main.py:23-31 | the loop over the flags with `start` and `out`, the tail piece and `out[1:]` return exactly `Words(chunk, flags)` |
| `WordBreak.BreakWord` | main.py:19-31 | `break_word` fails exactly when a character has no label; otherwise it returns the words for the predictor's flags on the run's labels |
| `Wbr.RunsLabelled` | main.py:12-20 | every Thai run of a maximal split has labels for all its characters |
| `Wbr.AddWbr` | main.py:48-56 | `add_wbr` copies non-Thai runs, joins each Thai run's words with `&#8203;`, and concatenates in order: it equals `WithBreaks(text)`, and the lookup never fails |
| `Wbr.NoThaiUnchanged` | main.py:48-56 | a string without Thai characters comes back unchanged |
| `Wbr.StripMarkerFree` | main.py:55 | removing `&#8203;` (as `str.replace` does, left to right) leaves a string without the marker unchanged |
| `Wbr.StripAppend` | main.py:55 | marker removal splits over a boundary next to a character that does not occur in the marker |
| `Wbr.StripJoin` | main.py:55 | joining non-empty words without marker characters with `&#8203;` and removing the markers again gives their concatenation |
| `Wbr.JoinEnds` | main.py:55 | the joined string starts with the first word's first character and ends with the last word's last character |
| `Wbr.RenderVisible` | main.py:53-55 | a Thai run whose position 0 is flagged renders to a string from which removing the markers gives the run back |
| `Wbr.RenderAllVisible` | main.py:49-56 | for maximal runs with every Thai run's start flagged, the output and the input agree once the markers are removed |
| `Wbr.VisibleContent` | main.py:48-56 | if the predictor flags position 0 of every Thai run, removing the markers from `add_wbr`'s output equals removing them from the input, and equals the input itself when it holds no marker |
| `Pipeline.Extension` | main.py:110 | `filename.split('.')[-1]`: a suffix of the name without a dot, preceded by a dot unless it is the whole name |
| `Pipeline.ExtensionNoDot` | main.py:110 | a name without a dot is its own extension |
| `Pipeline.ExtensionAfterDot` | main.py:110 | the extension is whatever follows the last dot |
| `Pipeline.ExtensionIff` | main.py:110 | a dot-free string is the extension exactly when it is the whole name or follows a dot at the end of the name |
| `Pipeline.TargetIffSuffix` | main.py:75-110 | `is_target` holds exactly when the name is `htm`, `xhtml` or `html` itself, or ends with a dot followed by one of them |
| `Pipeline.TargetExamples` | main.py:75-110 | `b.html` and the bare name `html` are targets |
| `Pipeline.NonTargetExamples` | main.py:75-110 | `a.txt` and `p.HTML` are not targets: the test is case-sensitive |
| `Pipeline.Select` | main.py:112-115 | a queue receives at most as many items as the listing has; its members and their order are stated by the next two rows |
| `Pipeline.SelectMembers` | main.py:112-115 | a message is in a queue exactly when it is in the listing and routed to that queue |
| `Pipeline.SelectAscending` | main.py:106-116 | a queue filled from a listing with ascending order numbers is ascending |
| `Pipeline.InputWorker` | main.py:105-117 | targets go to the work queue and the rest to the output queue, each in listing order with its number; the output queue ends with the marker `(n, None)` |
| `Pipeline.InputQueuesAscending` | main.py:105-117 | both queues carry strictly ascending order numbers, the end marker last |
| `Pipeline.TransformNoThai` | main.py:84-87 | a worker returns an item whose content has no Thai character as it received it |
| `Pipeline.WorkPayload` | main.py:84-87 | a work item, after the worker, carries the entry expected at its order: same name, content `add_wbr` of the original |
| `Pipeline.DirectPayload` | main.py:112-115 | an item sent straight to the output queue carries the entry expected at its order, unchanged |
| `Pipeline.QueuedPayload` | main.py:84-117 | every message reaching the sink carries an order up to the count and the entry expected at that order |
| `Pipeline.QueuedOrder` | main.py:105-117 | every order from 0 to the count reaches the sink |
| `Pipeline.PipelineArrival` | main.py:84-117 | whatever order the workers finish in, the messages the sink receives are an arrival of the processed entries |
| `Pipeline.ReorderSink.constructor` | main.py:90-91 | an empty `reorder`, `cur == 0`, nothing written |
| `Pipeline.ReorderSink.Deliver` | main.py:94-103 | `order None` stops at once and changes nothing; otherwise the payload is stored under its order and every contiguous entry from `cur` on is written; `cur` always equals the number written, and the drain stops at a missing key or at the end marker |
| `Pipeline.OutputWorker` | main.py:89-103 | an abort stops the sink where it arrives; for any arrival order of items 0..n-1 and the end marker, the sink writes exactly the expected entries, each once, in ascending order, and stops |

## Left out

- The ONNX session and its inference call (main.py:10, main.py:22) are a foreign library and
  a neural model. They become the parameter `predict`, required to return one flag per label.
- A predictor that returns a different number of flags than it was given labels is not
  modelled: `predict` is required to keep the length (`SameLength`). The source does not
  check this.
- `break_word` drops the first piece (`out[1:]`), so the visible text survives only when
  the predictor flags position 0 of each Thai run. `Wbr.VisibleContent` states exactly that
  hypothesis, and `WordBreak.WordsFromFirstFlag` states what is lost otherwise.
- `reorder` is never pruned: written entries stay in it. `Deliver` likewise only adds keys.
- Threads, `queue.Queue`, the worker loop, sentinel shutdown and `join` (main.py:77-87,
  main.py:119-137) are concurrency. The model keeps the sequential effect: the per-item
  transform (`Transform`), the two queues as sequences, and the sink fed one message at a
  time. `PipelineArrival` covers every interleaving of the workers, but only as a
  membership condition on the messages received.
- Zip reading and writing, compression and `writestr` (main.py:92, main.py:102,
  main.py:107-111) are I/O. The sink's writes are a sequence of entries. An entry is a name plus
  an opaque content; only a target's content is read as text and transformed.
- UTF-8 decoding and encoding (main.py:84, main.py:86) are left out: text is a sequence of
  code points.
- argparse, the default output name, the existence check and `print` (main.py:58-72,
  main.py:109, main.py:138) are command-line plumbing.
- Pipeline.OutputWorker: the arrival hypothesis asks every message to carry the payload
  expected at its order. Duplicates are allowed, but conflicting payloads for one order are
  not modelled.
- A worker that raises drops its item: an exception inside `worker` (main.py:79-87), such
  as `content.decode('utf-8')` failing on a non-UTF-8 target entry (main.py:84), ends that
  thread without putting any message. `output_worker` then waits forever for that order
  (main.py:94), and the final `join` (main.py:136-137) never returns; only a failure in
  `input_worker` sends the abort (main.py:129-131). The model's `Transform` is total and
  `PipelineArrival` assumes every queued message arrives, so this hang is not modelled.
