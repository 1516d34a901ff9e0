# Slide-deck batch translator: a Dafny model of its translation core

The translator takes a slide deck and pulls out its texts as a dict from
element id to text. It sends the texts to a language model in token-budgeted
batches, reads the model's JSON replies, and writes the translations back. A
recovery record is kept across runs. It lists the batches completed and
failed, the items translated, and the map from each key to the representative
of its duplicate text. A failed batch is retried in smaller slices, and a
final sweep sends whatever is still missing.

The same pipeline exists in four copies with small differences:
`ultimate_pptx_translator.py`, `enhanced_pptx_translator.py`,
`pptx_translator.py` and `app13.py`. The model has one definition per
concept. Each place where the copies differ is a parameter:
`Orchestrator.Flavour` for the budgets, divisors, retry counts and final
sweep, and `Repair.Variant` / `Blocks` for the two reply decoders.

Modules, in dependency order:

- `Wrappers`: `Option`, and `Outcome`, the value or the Python exception
  (`Error`) that a call raises.
- `Strings`: the Python `str` primitives the code uses (`strip`, `find`,
  `replace`, `count`, `int`, `str`).
- `Dicts`: insertion-ordered dicts as sequences of pairs with distinct keys.
  Assignment keeps an existing key's position, and `update` is a fold of
  assignments.
- `Json`: decoded values and the `json.loads` oracle.
- `Chunks`: `[xs[i:i+n] for i in range(0, len(xs), n)]`.
- `Estimator`, `Partition`: `estimate_tokens` and
  `split_dict_into_smart_batches`.
- `Dedup`: `deduplicate_content` and the duplicate fan-out.
- `TextRepair`, `Salvage`, `Repair`: `repair_json`.
- `Blocks`: `extract_json_blocks`.
- `Batch`: `translate_batch`, covering fence stripping, the three-stage
  decode, `clean_text` and the bounded retry loop.
- `Orchestrator`, `Pipeline`: `setup_recovery_system` and `translate_text`,
  covering the main batch loop, reconciliation of failed batches, the fan-out
  and the final sweep.
- `Recovery`: the standalone `batch-recovery.py` patch.
- `Slides`: `extract_text` and the request builder of `update_slides` in
  `app13.py`.
- `Compare`: the before/after report of `compare_pptx.py`.

The language model is an oracle. In `Batch` it is a function from attempt
number to reply. In `Orchestrator` it is a function from (label, batch, retry
budget) to a result dict or an exception. `json.loads` is an oracle too.
Every property proved about them holds for every oracle, unless the lemma
names a restriction such as "always answers in full".

## Model

| member | source | states |
|---|---|---|
| Estimator.EstimateCjk | ultimate_pptx_translator.py:504-518 | `None` costs 0 tokens. Any text costs at least 1 and at most its length plus 1. |
| Estimator.CountCjk | ultimate_pptx_translator.py:512 | The counting loop finds exactly the characters strictly between U+4E00 and U+9FFF. |
| Estimator.CjkCountAppend | ultimate_pptx_translator.py:512 | The CJK count of a concatenation is the sum of the counts of its parts. |
| Estimator.EstimatorsAgreeWithoutCjk | ultimate_pptx_translator.py:504-518 | On text with no ideograph, the CJK-aware estimate equals the length-only estimate of app13.py. |
| Estimator.AllCjkEstimate | ultimate_pptx_translator.py:511-516 | Pure-ideograph text costs `floor(n / 1.5) + 1`, that is `2n/3 + 1`. |
| Estimator.EstimateSimple | app13.py:215-218 | `None` costs 0. Otherwise the estimate `n` is the one with `4(n-1) <= len < 4n`, i.e. `len // 4 + 1`. |
| Estimator.EstimateMonotone | ultimate_pptx_translator.py:504-518 | Appending text never lowers either estimate. |
| Estimator.ItemCost | ultimate_pptx_translator.py:530 | An item costs at least 12 tokens: key and value at least 1 each, plus 10. |
| Partition.Insert | ultimate_pptx_translator.py:527 | Insertion keeps the list sorted by descending weight and adds exactly one element. |
| Partition.Sort | ultimate_pptx_translator.py:527 | The sort result is in descending estimate order and is a permutation of the items. |
| Partition.SortStable | ultimate_pptx_translator.py:527 | Items of equal estimate keep their input order, so the sort is stable. |
| Partition.SortKeepsDict | ultimate_pptx_translator.py:521-527 | The sorted items are still a dict with the same lookups. |
| Partition.GreedyFlatten | ultimate_pptx_translator.py:529-541 | Read in order, the batches are exactly the sorted items. |
| Partition.GreedyPacked | ultimate_pptx_translator.py:529-541 | Batches are non-empty. A batch of 2 or more items fits `prompt_tokens` plus its costs within the budget. The first item of each later batch would have overflowed the batch before it. |
| Partition.SmartBatches | ultimate_pptx_translator.py:520-548 | The partitioner raises `ZeroDivisionError` exactly when the input is empty (the efficiency line divides by `len(input_dict)`). |
| Partition.SmartBatchesCorrect | ultimate_pptx_translator.py:520-548 | For non-empty input the batches are non-empty and well packed. Concatenated, they are the stable descending sort of the items. |
| Partition.EveryKeyInOneBatch | ultimate_pptx_translator.py:520-548 | Every key of the input lands in exactly one batch. Other keys land in none. |
| Dedup.KeysWithSpec | ultimate_pptx_translator.py:954-959 | A key is listed under text `w` exactly when its text is `w`, with no repeats. |
| Dedup.ContentToKeysRef | ultimate_pptx_translator.py:954-959 | `content_to_keys` has one group per distinct text, in order of first appearance, each listing the keys with that text in order. |
| Dedup.FirstOccValues | ultimate_pptx_translator.py:954-966 | The first occurrences have pairwise distinct texts and cover every text of the input. |
| Dedup.UniqueIsFirstOcc | ultimate_pptx_translator.py:961-966 | `unique_content` is the first pair of each distinct text, in input order. Its texts are pairwise distinct and its lookups agree with the input. |
| Dedup.DupMapsToEarliest | ultimate_pptx_translator.py:961-968 | `duplicates_map` has exactly the input's keys. It sends each key to the earliest key with identical text. |
| Dedup.RepresentativesMapToSelf | ultimate_pptx_translator.py:961-968 | A key is a representative exactly when it is an input key that maps to itself. |
| Dedup.DupValuesAreRepresentatives | ultimate_pptx_translator.py:961-968 | The values of `duplicates_map` are exactly the representatives. |
| Dedup.FanOutSpec | ultimate_pptx_translator.py:1087-1093 | The fan-out keeps every translated key in its place. A non-representative whose representative was translated gets the representative's translation. Every other key keeps its own translation, or stays absent. |
| TextRepair.StripControl | enhanced_pptx_translator.py:494 | No character in 0x00-0x1F or 0x7F remains, newline and tab included. |
| TextRepair.StripControlIdentity | enhanced_pptx_translator.py:494 | The pass changes the text exactly when the text holds a control character. |
| TextRepair.StripControlCounts | enhanced_pptx_translator.py:494 | Every other character survives as often as it occurred. |
| TextRepair.FixBackslashesKeepsText | enhanced_pptx_translator.py:517 | The backslash rewrite only adds backslashes. Every other character is kept, in order. |
| TextRepair.FixBackslashesIdentity | enhanced_pptx_translator.py:517 | The rewrite changes the text exactly when a lone backslash (not escaped, not starting a JSON escape) occurs. |
| TextRepair.TrimClosers | enhanced_pptx_translator.py:524-525 | The `rstrip` rounds only cut a tail of `}` and whitespace. |
| TextRepair.BalanceBraces | enhanced_pptx_translator.py:519-525 | With `d` more `{` than `}`, only `}` characters are appended and the counts become equal. With more `}`, only a tail of `}` and whitespace is cut and no `{` is lost. |
| TextRepair.DropTrailingCommasKeepsText | pptx_translator.py:561-562 | The trailing-comma rewrite only removes commas and whitespace. |
| TextRepair.DropTrailingCommasIdentity | pptx_translator.py:561-562 | The rewrite changes the text exactly when a comma is followed, after optional whitespace, by the closer. |
| TextRepair.QuoteKeysKeepsText | enhanced_pptx_translator.py:532-538 | The property-name rewrite only adds double quotes. |
| TextRepair.QuoteKeysIdentity | enhanced_pptx_translator.py:532-538 | The rewrite changes the text exactly when a colon follows a word character. |
| TextRepair.RewritesKeepBraces | enhanced_pptx_translator.py:494-538 | None of the four rewrites changes the count of `{` or `}`. |
| Salvage.SalvageFull | enhanced_pptx_translator.py:546-576 | A key's value comes from its last numeric match if there is one, else from its last string match. Keys without a match are absent. |
| Salvage.SalvageStrings | enhanced_pptx_translator.py:640-654 | The string-pair fallback takes each key from its last match. |
| Salvage.SalvageSimple | app13.py:302-310 | app13.py's single-pattern salvage takes each key from its last match. |
| Salvage.FindAllRendered | enhanced_pptx_translator.py:548-556 | Scanning a JSON-syntax rendering (the `": "` and `", "` separators of `json.dumps`, strings written unescaped) wrapped in quote-free text yields exactly the rendered pairs, in order. |
| Salvage.NumbersRendered | enhanced_pptx_translator.py:560-572 | The numeric pattern finds nothing in such a rendering. |
| Salvage.SalvageRendered | enhanced_pptx_translator.py:546-576 | Salvaging such a rendering gives back exactly the rendered dict, for both salvage variants. |
| Repair.RepairJson | enhanced_pptx_translator.py:477-578 | Repair succeeds exactly when the strict parse, the parse of the rewritten text, or the salvage of the original reply succeeds. A strict success is returned as is. When only the rewritten text parses, its value is returned. Otherwise a success is the non-empty salvage dict of the original reply. A failure re-raises the decode error. |
| Repair.MendClean | enhanced_pptx_translator.py:491-538 | The rewrites leave a reply with nothing to repair unchanged. |
| Repair.RepairClean | enhanced_pptx_translator.py:477-578 | For such a reply, repair succeeds exactly when the strict parse or the salvage does. |
| Repair.MendBalances | enhanced_pptx_translator.py:517-538 | When `{` is at least as frequent as `}`, the text of the second parse has balanced braces. |
| Repair.RepairRecoversRendered | enhanced_pptx_translator.py:546-576 | Suppose a well-formed object is hidden in prose that defeats both parses. The salvage still recovers that object in full, for any parser. |
| Blocks.TrimToBraces | enhanced_pptx_translator.py:588-589 | The trim result is empty or runs from a `{` to a `}`. It is non-empty exactly when some `{` precedes some `}`. A non-empty result is the slice of the text from its first `{` through its last `}`. |
| Blocks.TrimKeepsObject | enhanced_pptx_translator.py:588-589 | The trim keeps exactly an object that has no `{` before it and no `}` after it. |
| Blocks.ScanFrom | enhanced_pptx_translator.py:593-606 | The depth scan's spans are in order, pairwise disjoint and within the text. Each starts with `{`, ends with `}` and holds equally many of each. |
| Blocks.DepthBlocks | enhanced_pptx_translator.py:593-606 | Every emitted block is balanced. |
| Blocks.FindInnermost | enhanced_pptx_translator.py:608-611 | The fallback regex yields only brace pairs with brace-free text between them. |
| Blocks.FindInnermostComplete | enhanced_pptx_translator.py:608-611 | Every such innermost pair in the text is found, in order of position. |
| Blocks.Merge | enhanced_pptx_translator.py:631-635 | The merge succeeds exactly when every block is an object. Otherwise `update` raises. |
| Blocks.MergeLaterWins | enhanced_pptx_translator.py:631-635 | The merged keys are exactly the blocks' keys. Each value comes from the last block that has the key. |
| Blocks.DecodeBlock | enhanced_pptx_translator.py:614-629 | A block that decodes only through `repair_json` is kept only when the repaired value is truthy. |
| Blocks.ExtractFull | enhanced_pptx_translator.py:580-658 | When at least one block decodes and all decoded blocks are objects, the result is their merge, with each key taken from the last block holding it. Otherwise a present result is the string-pair salvage of the trimmed text. The result is `None` exactly when the block phase yields nothing and the salvage finds no pair. |
| Blocks.ExtractLean | app13.py:317-336 | The result is `None` exactly when no innermost pair parses strictly. It raises exactly when a parsed block is not an object. Otherwise it is the merge of the parsed blocks, with each key taken from the last block holding it. |
| Blocks.ExtractWithoutBraces | enhanced_pptx_translator.py:580-658 | A reply without `{` gives `None` in both variants. |
| Blocks.ExtractRendered | enhanced_pptx_translator.py:580-658 | A bare object rendered into brace-free prose is extracted whole by both variants. |
| Batch.Unfence | enhanced_pptx_translator.py:814-819 | No code fence survives in the payload. |
| Batch.UnfenceJsonBlock | enhanced_pptx_translator.py:814-815 | A payload in a json-tagged fenced block is recovered and stripped, whatever prose surrounds the block. |
| Batch.UnfencePlainBlock | enhanced_pptx_translator.py:816-817 | With no json tag, a payload in a plain fenced block is recovered. |
| Batch.UnfenceNoTicks | enhanced_pptx_translator.py:818-819 | A reply without backticks is only stripped. |
| Batch.CleanText | enhanced_pptx_translator.py:703-704 | No literal `\n`, `\u000b` or `\t` sequence remains. |
| Batch.CleanTextKeepsCleaned | enhanced_pptx_translator.py:703-704 | Text free of the three sequences is left unchanged. |
| Batch.CleanTextIdempotent | enhanced_pptx_translator.py:703-704 | `clean_text` is idempotent. |
| Batch.CleanTextNoBackslash | enhanced_pptx_translator.py:703-704 | Text without a backslash is never changed. |
| Batch.CleanValues | enhanced_pptx_translator.py:839-841 | Keys are unchanged and non-string values are unchanged. Every string value comes out clean. |
| Batch.CleanValuesKeepsCleaned | enhanced_pptx_translator.py:839-841 | An already clean batch comes back unchanged. |
| Batch.DecodeChain | enhanced_pptx_translator.py:821-837 | A strict parse wins. Otherwise a successful repair gives its value. When the repair fails too, a non-empty extraction result is returned as an object, and an empty or absent one means nothing was decoded; for app13.py, an extraction that raises is raised to the caller. Only that decoder can raise here. "Nothing decoded" means both the strict parse and the repair failed. |
| Batch.ReadReply | enhanced_pptx_translator.py:812-841 | A decoded reply has clean strings. An unreadable reply's payload failed the strict parse. A broken reply is a non-object result. |
| Batch.ReadFencedObject | enhanced_pptx_translator.py:814-841 | A fenced object that the strict parse accepts is returned with its strings cleaned. |
| Batch.ReadHopeless | enhanced_pptx_translator.py:821-837 | A payload that no decoder reads and that holds no `{` is unreadable. |
| Batch.Pause | enhanced_pptx_translator.py:832-850 | The pause is 3 s exactly after an unreadable reply, and 5 s after an exception. |
| Batch.Loop | enhanced_pptx_translator.py:776-853 | The loop makes between 1 attempt and all of them, with one pause between consecutive attempts. |
| Batch.LoopSpec | enhanced_pptx_translator.py:776-853 | The loop stops at the first decoded attempt and returns it. Every earlier attempt failed and was followed by its pause. A raising loop made every attempt and lets the last attempt's exception escape. |
| Batch.LoopSucceeds | enhanced_pptx_translator.py:776-853 | The loop succeeds exactly when some attempt decodes. |
| Batch.TranslateBatch | enhanced_pptx_translator.py:776 | `translate_batch` makes at least one and at most `max_retries + 1` API calls. This holds for any reply reader; the copies read with the decoding chain (`ChainReader`). |
| Batch.TranslateBatchFirstSuccess | enhanced_pptx_translator.py:776-853 | `translate_batch` succeeds exactly when some attempt within the budget decodes, and returns the first that does. |
| Batch.TranslateBatchAllUnreadable | enhanced_pptx_translator.py:832-837 | When every reply is unreadable, all attempts are made with 3 s pauses and the decode error is raised. |
| Batch.RetryLoop | enhanced_pptx_translator.py:776-853 | The imperative loop meets the same specification as `Loop`: first success, pauses, and the last exception. |
| Chunks.ChunkCovers | ultimate_pptx_translator.py:1059-1061 | The slices, concatenated, are the list. Each slice has between 1 and `n` items, and there are as few slices as size `n` allows. |
| Chunks.ChunkCount | ultimate_pptx_translator.py:1109 | The number of slices is `(len + n - 1) // n`. |
| Chunks.ChunkAt | ultimate_pptx_translator.py:1114-1117 | Slice `i` is `items[i*n : min(i*n + n, len)]`. |
| Orchestrator.Divisor | enhanced_pptx_translator.py:983-984 | The reconciliation divisor is positive in every copy. |
| Orchestrator.ChunkSize | ultimate_pptx_translator.py:1058 | The sub-batch size is the larger of the floor (3, or 5 in pptx_translator.py and app13.py) and `n // divisor`. |
| Orchestrator.Initial | ultimate_pptx_translator.py:750-760 | A new recovery record is well formed: empty lists, no translations, `total_items` is the number of texts. |
| Orchestrator.Absorb | ultimate_pptx_translator.py:1026-1027 | After a merge, both dicts have exactly the old keys plus the result's keys. The result's keys take their last value, and nothing else in the record changes. |
| Orchestrator.Setup | pptx_translator.py:884-892 | Only the stored map of the record may change. On resume the work set is the keys of `text_dict` that are not a value of the stored map, and the map is kept. |
| Orchestrator.Remaining | ultimate_pptx_translator.py:992-993 | `remaining_dict` holds exactly the work-set keys that are not yet translated, with their texts. The final sweep's missing dict (lines 1097-1102) is the same selection over `text_dict` and the result. |
| Orchestrator.MainStep | ultimate_pptx_translator.py:1011-1038 | A batch whose positional id is already completed is skipped, whatever it holds. Otherwise exactly one of two things happens: its id is appended and its result merged, or a failure record with its keys and error is appended. No translated key is lost. |
| Orchestrator.MainLoop | ultimate_pptx_translator.py:1010-1039 | After the loop every batch is completed or failed. Both lists only grow at their ends, and no translated key is lost. |
| Orchestrator.HandledKept | ultimate_pptx_translator.py:1028-1033 | Once a batch is completed or failed, it stays so as the lists grow. |
| Orchestrator.Pick | ultimate_pptx_translator.py:1056 | The retry dict holds exactly the recorded keys that are still in `text_dict`, with their texts. |
| Orchestrator.SubBatchesCover | ultimate_pptx_translator.py:1056-1061 | The sub-batches, concatenated, are the retry items. There are `ceil(n / size)` of them, each with between 1 and `size` items. |
| Orchestrator.RunSubs | ultimate_pptx_translator.py:1065-1082 | A sub-batch failure is skipped, so `failed_batches` is untouched. Completed ids only grow, and no translated key is lost. |
| Orchestrator.RemoveFirst | ultimate_pptx_translator.py:1084 | `list.remove` drops exactly one occurrence. |
| Orchestrator.ReconcileEntry | ultimate_pptx_translator.py:1052-1085 | A failed entry is removed whatever its sub-batches did. |
| Orchestrator.Reconcile | ultimate_pptx_translator.py:1052-1085 | After reconciliation `failed_batches` is empty and no translated key is lost. |
| Orchestrator.SweepChunks | ultimate_pptx_translator.py:1111-1134 | A failed chunk is swallowed. Every key of every successful chunk's result ends up in the result. No key is lost. |
| Orchestrator.FinalSweep | pptx_translator.py:996-1081 | The sweep touches only `translated_items` in the record and loses no key of either dict. |
| Pipeline.BeforeSweep | ultimate_pptx_translator.py:982-1093 | If nothing remains, the result is the stored translations with no fan-out. Otherwise no failed batch is left and the result is the fan-out of the translations. No translated key is lost. |
| Pipeline.TranslateText | ultimate_pptx_translator.py:930-1152 | No translated key is lost and completed ids are only appended. When work remains, `failed_batches` ends empty. When nothing remains, the stored failures are left as they were. |
| Pipeline.ResumeWorksOnDuplicates | pptx_translator.py:888-892 | On resume with the map a fresh run stored, the work set is exactly the keys that are not representatives. |
| Pipeline.SweepCompletes | ultimate_pptx_translator.py:1097-1134 | With a backend that always answers in full, the final sweep fills every missing key. |
| Pipeline.Completeness | ultimate_pptx_translator.py:930-1152 | With a backend that always answers in full, no key of `text_dict` is left untranslated, whatever the recovery state. |
| Pipeline.NothingRemainingNoFanOut | pptx_translator.py:897-899 | When nothing remains and the backend is down, the result is exactly the stored translations: duplicates get nothing. |
| Pipeline.DownFinalSweep | pptx_translator.py:996-1081 | When the backend is down, the final sweep has no effect. |
| Pipeline.FinalChunksPartition | ultimate_pptx_translator.py:1105-1117 | The final chunks (50 for ja/zh/ko, else 100) number `ceil(n / size)` and partition the missing items in order. |
| Recovery.Start | batch-recovery.py:27-35 | The initial state has empty lists and no translations, and `total_items` is the number of texts. |
| Recovery.ProcessBatch | batch-recovery.py:47-81 | The call succeeds exactly when the oracle answers. On success the index is appended and the result merged. On failure it returns `(False, {})` and appends `{index, items, error, size}`. |
| Recovery.RetrySize | batch-recovery.py:96 | The retry size is at least 1 and is half the original size, rounded down. |
| Recovery.RetrySlicesCover | batch-recovery.py:101-109 | The retry slices number `ceil(len / size)` and cover the retry dict in order. |
| Recovery.RetrySubs | batch-recovery.py:115-131 | The success count rises by at most the number of slices. The lists only grow, and no translated key is lost. |
| Recovery.RetrySubsCount | batch-recovery.py:114-134 | The success count equals the number of slices exactly when every slice succeeds. |
| Recovery.RetrySubsFailed | batch-recovery.py:121-125 | If every slice succeeds, `failed_batches` is unchanged by the slices. Otherwise it grows. |
| Recovery.RetryEntry | batch-recovery.py:90-139 | An entry is removed exactly when all its slices succeed. Otherwise it stays and new failures are added. |
| Recovery.RetryAll | batch-recovery.py:90-139 | Retrying a snapshot of entries loses no translated key and only appends completed ids. |
| Recovery.RetryAllReliable | batch-recovery.py:90-139 | With a backend that always answers, exactly the snapshot's entries leave `failed_batches`. |
| Recovery.RetryFailedBatches | batch-recovery.py:84-139 | `retry_failed_batches` loses no translated key. |
| Recovery.RetryFailedBatchesReliable | batch-recovery.py:84-139 | With a backend that always answers, `failed_batches` ends empty. |
| Slides.TextOf | app13.py:176 | The joined text of the runs, stripped, has no whitespace at either end. |
| Slides.ExtractText | app13.py:154-208 | The result is a dict of non-empty stripped texts. The value under each key is the stripped text of the shape under that `objectId`, or of the table cell under that cell id, for some element of the deck. |
| Slides.ExtractKeys | app13.py:170-204 | A key is present exactly when some element has a shape under it, or a table cell whose cell id it is, with non-empty stripped text. A key whose shapes and cells all strip to "" is absent. |
| Slides.ExtractShapeValue | app13.py:170-183 | When element ids are distinct and hold no `_r`, the entry under an element's id is its shape's stripped text if that is non-empty, and there is no entry otherwise. |
| Slides.ExtractCellValue | app13.py:186-204 | When element ids are distinct and hold no `_r`, the entry under `{objectId}_r{row}_c{col}` is that cell's stripped text if the cell exists and its text is non-empty, and there is no entry otherwise. |
| Slides.CellIdInjective | app13.py:202 | Two cell ids of elements whose ids hold no `_r` are equal only when they name the same cell of the same element. |
| Slides.ExtractKeepsShape | app13.py:170-183 | A shape with non-empty text gets an entry under its `objectId`. With distinct ids holding no `_r`, that entry is the shape's text. |
| Slides.ExtractKeepsCell | app13.py:186-204 | A non-empty table cell gets an entry under `{objectId}_r{row}_c{col}`. With distinct ids holding no `_r`, that entry is the cell's text. |
| Slides.ParseCell | app13.py:74-75 | A parsed cell keeps the base id, and its row and column are the digit strings around the single `_c`. |
| Slides.ParseTarget | app13.py:72-75 | An id lacking `_r` or `_c` is a plain shape. An id holding both is read as a cell or raises, never as a shape. A parsed cell id has the shape `base_r{row}_c{col}`. |
| Slides.EntryRequests | app13.py:78-102 | Each entry yields a delete of all text, then an insert of the translation at index 0, on the same target. |
| Slides.BuildRequests | app13.py:69-102 | Building succeeds exactly when every id parses. It then yields two requests per entry, in entry order. |
| Slides.UpdateBatchesCover | app13.py:104-107 | The requests are sent in `ceil(n / 100)` consecutive groups of 1 to 100 that cover them in order. |
| Slides.ParseCellRoundTrip | app13.py:72-75 | Reading back `{row}_c{col}` gives the row and column. |
| Slides.CellIdRoundTrip | app13.py:202 | For an `objectId` without `_r`, parsing the cell id gives back the object, row and column. |
| Slides.ShapeIdReadAsCell | app13.py:72-83 | An illustration of the general rule in `ParseTarget`: the shape id `g_c1_run`, which holds both markers, is read as a cell, and building its requests raises. |
| Compare.HasJapanese | compare_pptx.py:6-9 | True exactly when some character is in U+3000-303F, 3040-309F, 30A0-30FF, FF00-FF9F or 4E00-9FAF. |
| Compare.HasEnglish | compare_pptx.py:11-14 | True exactly when some character is an ASCII letter. |
| Compare.Classify | compare_pptx.py:43-53 | The classification is "mixed" iff both tests hold, "japanese" iff only the first, "english" iff only the second, "other" iff neither. |
| Compare.Preview | compare_pptx.py:65 | Texts up to 50 characters are kept. Longer ones become their first 50 characters plus "...", so a preview is at most 53 characters. |
| Compare.FontSizes | compare_pptx.py:56-61 | A size is listed exactly when some run of the frame has that size set and non-zero. |
| Compare.InfoOf | compare_pptx.py:63-68 | An element's record carries its id, the class of its stripped text and its preview. |
| Compare.CountKindAppend | compare_pptx.py:43-53 | Class counts add up over concatenation. |
| Compare.KindsPartition | compare_pptx.py:36-53 | Every element is counted in exactly one class: total = japanese + english + mixed + other. |
| Compare.Tally | compare_pptx.py:37-53 | The counting loop gives each class's count and the total. |
| Compare.Analyze | compare_pptx.py:16-121 | One record per slide. The totals are the class counts over all shape and cell records. |
| Compare.EnglishOf | compare_pptx.py:182-196 | A slide's untranslated list has one entry per "english" record, and nothing else. |
| Compare.UntranslatedCount | compare_pptx.py:180-196 | The untranslated list is as long as the "english" count. |
| Compare.UntranslatedMember | compare_pptx.py:180-196 | An entry is untranslated exactly when it is an "english" record of its slide. |
| Compare.UntranslatedExact | compare_pptx.py:180-196 | Over the after-deck, the untranslated list is exactly the "english" shapes and cells. |
| Compare.ShapeIssues | compare_pptx.py:153-162 | An issue is recorded exactly for an after-shape with the same id, both size lists non-empty, and the lists different. |
| Compare.SlideIssues | compare_pptx.py:152-162 | The same holds over every pair of shapes of two slides. |
| Compare.FontIssues | compare_pptx.py:150-162 | The same holds over slides paired by position, up to the shorter deck. |
| Compare.CompareDecks | compare_pptx.py:123-216 | Each report's slide records are exactly the `analyze_pptx` records of the corresponding input deck, slide by slide, with the "english" counts of those records. The font issues and the untranslated list are exactly the selections above over these records. The untranslated list is as long as the after-deck's "english" count. |
| Compare.FontSizesAppend | compare_pptx.py:56-61 | The size list of consecutive paragraphs is the concatenation of their lists, so run order and repeats are kept. |
| Compare.RunSizesAppend | compare_pptx.py:59-61 | The size list of consecutive runs is the concatenation of their lists, in run order. |

## Left out

- Anthropic client, `CLAUDE_API_KEY` lookup, prompts, `slide_metadata` and
  labels: the model is an oracle. The label passed to it is kept, so the
  oracle may depend on it.
- Google OAuth, Drive copy and `batchUpdate` calls in app13.py: the requests
  are built as data, and sending them is not modelled.
- `extract_text` and `update_slides` of the three python-pptx translators,
  all of deep_pptx_extractor.py and extract_slide_links.py: these are walks
  over library object models whose code is not part of this model.
  `Compare` models python-pptx decks as plain data (texts, run font sizes,
  table cells).
- web-ui.py and web-ui-runner.py: a Flask front end, threads and a CLI
  launcher, with no translation logic.
- `json.loads` is an oracle (`Json.Parser`); strict JSON grammar is not
  modelled.
- The "Unterminated string" repair in `repair_json`: it depends on the
  wording of Python's error messages. The model behaves as if the message
  never mentions it.
- Cost tracking, progress percentages, the translation rate and tqdm bars:
  floating point and display only.
- `print` output, including the first 5 font issues and first 10
  untranslated entries: display only.
- `time.sleep`: pauses are recorded as values (`Batch.Pause`), never slept.
- Recovery-file reads and writes, timestamps, `file_id`, and the
  `source_language`, `target_language`, `start_time` and `last_updated`
  fields: the record is snapshotted in memory. Atomicity of the in-place
  saves is not claimed.
- The final sweep's `missing_keys` is a Python set, so its order depends on
  string hashing. The model sends the missing items in `text_dict` order;
  the properties proved do not depend on that order.
- The orchestrator's per-batch call (`Orchestrator.Translator`) is an
  oracle of its own. It is not tied to `Batch.TranslateBatch`, so the retry
  and decoding chain proved there is not composed with the main loop.
- The non-ultimate final sweep is one call through the same oracle, with a
  retry budget of 0. Its inline decoding is taken to be the oracle's answer.
- batch-recovery.py never assigns `batch_result` (line 62). The model takes
  the outcome of `process_batch` from the oracle instead of reproducing the
  `NameError`.
- `int()` in the cell-id parse is modelled on plain ASCII digit strings.
  Signs, surrounding whitespace and underscores, which `int()` also accepts,
  are read as errors. `element['objectId']` is assumed present.
- Font sizes are modelled as integers (python-pptx lengths are integral
  EMU); an unset size is `None`.
- Salvage.SalvageRendered, Blocks.ExtractRendered,
  Repair.RepairRecoversRendered: the round trips are proved only for
  renderings whose keys and values hold no quote, backslash or colon (and,
  for the block scanner, no brace or comma). Other renderings are not
  covered by these lemmas. `Salvage.Render` writes strings unescaped, as
  `json.dumps(..., ensure_ascii=False)` would; the default `\uXXXX`
  escaping of non-ASCII and control characters is not modelled.
- Slides.ExtractShapeValue, Slides.ExtractCellValue: the exact entry is
  stated for decks whose element ids are distinct and hold no `_r`. When
  keys collide, the later assignment wins, and `Slides.ExtractText` states
  only that the entry is the text of one of the colliding shapes or cells.
- Estimator.EstimateCjk: the contract states bounds. The exact value on
  mixed text is pinned down only for the pure cases
  (`AllCjkEstimate`, `EstimatorsAgreeWithoutCjk`).
- Orchestrator.FinalSweep: the contract states what the sweep keeps.
  Completeness is proved only for a backend that always answers in full
  (`Pipeline.Completeness`).
- Recovery.RetryFailedBatches: emptiness of `failed_batches` is proved only
  for a backend that always answers (`RetryFailedBatchesReliable`). With a
  failing backend, entries stay and new ones are added, as
  `Recovery.RetryEntry` states.
