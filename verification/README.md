# zeno-req-prompt core, modelled in Dafny

This project models the core of the zeno-req-prompt backend and its two pure
frontend helpers:

- **column identity.** A `ZenoColumn`'s string key is both the table column and
  the cache file stem. `to_camel` derives the JSON aliases.
- **requirement anchoring.** `find_best_match` slides a window over the
  prompt. The matched window is spliced into a `<req name="…">…</req>` span.
  The regular-expression pass then wraps every other run of text in
  `<text>…</text>` and encloses the result in `<prompt>…</prompt>`.
- **pipeline bookkeeping.** `ZenoBackend` runs four phases over a column
  store: the predistill stage, the inference stage, the postdistill stage,
  and the status and `done_running_inference` flag around them. In each stage
  a check loop splits the candidate columns into "some row missing, run it"
  and "complete, register it". The legacy POSTDISTILL scan, prompt
  versioning, the "All Instances" default slice, the slice-metric result
  policy, and the editable-guarded mutators are modelled as well.
- **example formatting.** `example2text` and `examples2text`.
- **frontend helpers.** Structural equality of requirements and examples
  (`Prompt.ts`), and the requested-column filter and diff columns of
  `getFilteredTable` (`table.ts`).

Everything is immutable data and pure functions. The backend is a `State`
record advanced by step functions. What the model cannot see is passed in
as a function parameter:

- difflib's `SequenceMatcher.ratio` is a `ratio` function into `[0, 1]`;
- `filter_table` is a `Filter`;
- the metric functions are a `MetricFn`;
- the registered processing functions are a `Runner`;
- the LLM rewrite in `compile_prompt` is a `Compile`.

| file | module | what it holds |
|---|---|---|
| wrappers.dfy | Wrappers | `Option`, `Result` |
| strings.dfy | Strings | Python string helpers: `split`, `strip`, `join`, `title`, `find`, slicing with negative indices |
| numerals.dfy | Numerals | `str(n)` and `int(s)` on decimal digits |
| odict.dfy | OrderedMaps | insertion-ordered `dict`: assignment, `del`, `{k: v}.update(d)`, last key |
| columns.dfy | Columns | `to_camel`, `ZenoColumnType`, `ZenoColumn.__str__` / `__hash__`, the legacy file-name scan |
| records.dfy | Records | the pydantic records the backend stores |
| aligner.dfy | Aligner | whitespace normalisation, `find_best_match`, the splice |
| req_markup.dfy | ReqMarkup | the `<req>` span and `pattern.sub(wrap_non_req_text, …)` |
| compiler.dfy | Compiler | `example2text`, `examples2text` |
| store.dfy | ColumnStore | the table, the cache, `load_series`, the work-list check, `__set_data_processing_returns` |
| stages.dfy | Stages | `__predistill`, `__inference` with the legacy scan, `__postdistill` |
| backend.dfy | Backend | `initial_setup`, column enumeration, `start_processing`, `__process`, re-running the pipeline |
| metrics.dfy | Metrics | `get_metrics_for_slices`, `calculate_metric` |
| prompt_versions.dfy | PromptVersions | `get_new_prompt_version`, `create_new_prompt` |
| mutators.dfy | Mutators | folders, reports, tags, slices |
| prompt_equality.dfy | PromptEquality | `areExamplesEqual`, `areRequirementsEqual` |
| table_view.dfy | TableView | `requestedColumns`, `diffColumn1` / `diffColumn2` |

### Facts of the code the model keeps

- `__process` runs three stages: predistill, inference and postdistill.
  `evaluate_requirement` is an empty stub that nothing calls. The status
  machine has five states.
- A column with some rows missing is queued whole. The registered function
  is called once for that column, not for the missing rows.
- An exception from a registered function, from the legacy scan or from a
  metric or compile step is not caught. It ends the stage, or the call, that
  raised it. The model returns it as a value: `raised`, `None` or an error
  case.
- `run_prompt` takes only a prompt version; it is left out (see below).

## Model

| member | source | states |
|---|---|---|
| Columns.ToCamelHasNoUnderscore | zeno/classes/base.py:8-10 | the alias of any field name contains no `_` |
| Columns.ToCamelKeepsHead | zeno/classes/base.py:9-10 | the alias begins with the part of the name before its first `_`, unchanged |
| Columns.ToCamelIdentity | zeno/classes/base.py:9-10 | a name without `_` is its own alias |
| Columns.ToCamelCaseInsensitive | zeno/classes/base.py:8-10 | up to letter case, the alias is the name with every `_` deleted, and has that length |
| Columns.ToCamelOneUnderscore | zeno/classes/base.py:9-10 | `a_b` (no other `_`) becomes `a` followed by `b.title()` |
| Columns.ToCamelLowerWord | zeno/classes/base.py:9-10 | `a_b` with `b` all lower-case becomes `a` followed by `b` with its first letter upper-cased |
| Columns.FieldAliases | zeno/classes/base.py:8-10 | for each aliased field, `prompt_snippet`, `evaluation_method`, `is_positive` and `prompt_id` become `promptSnippet`, `evaluationMethod`, `isPositive` and `promptId` |
| Columns.KeyLayout | zeno/classes/base.py:45-55 | the key is kind prefix (none for METADATA), name, model, then `_` + prompt id only when that id is non-empty: the prefix with the name starts it, the model sits right after the name, the `_` + prompt id ends it, and its length is the sum of those parts |
| Columns.KeyNoneIsEmpty | zeno/classes/base.py:46-51 | a `None` model or prompt id gives the same key as an empty one |
| Columns.KeyIgnoresMetadataType | zeno/classes/base.py:42-58 | changing `metadata_type` changes neither the key nor the hash |
| Columns.EqualKeysEqualHashes | zeno/classes/base.py:57-58 | columns with equal keys have equal hashes |
| Columns.KeyCollision | zeno/classes/base.py:55 | distinct columns share a key: (PREDISTILL, "ab", "") and (PREDISTILL, "a", "b"); (METADATA, "OUTPUTx") and (OUTPUT, "x") |
| Columns.KeyDeterminesName | zeno/classes/base.py:55 | with kind, model and prompt id fixed, equal keys mean equal names |
| Columns.RecoverNameInverse | zeno/backend.py:364-374 | every POSTDISTILL cache file of a model matches that model's glob, and the corrected recovery gives back exactly the function name |
| Columns.LegacyNameAsWrittenWhenModelIsFirst | zeno/backend.py:369 | when the model's first occurrence in the file name is right after the function name, the scan as written recovers that name |
| Columns.LegacyNameAsWrittenCounterexample | zeno/backend.py:369 | the file of function `gpt4_length` for model `gpt4` matches the glob, yet the scan as written recovers the empty name |
| Columns.LegacyNameAsWrittenOverlap | zeno/backend.py:369 | even when the model does not occur in the prefix plus the name, an overlapping model (`x` with model `xx`) is recovered as the empty name |
| Columns.LegacyNameAsWrittenEmptyModel | zeno/backend.py:369 | an empty model name makes the split raise |
| Columns.LegacyNameLostWhenNameStartsWithModel | zeno/backend.py:369 | any function name that starts with a lower-case model name is recovered as the empty name |
| Numerals.ParseDecimal | zeno/backend.py:603-604 | `int(str(n)) == n` |
| Numerals.DecimalInjective | zeno/backend.py:604 | distinct numbers have distinct decimal spellings |
| OrderedMaps.PutSpec | zeno/backend.py:881 | `d[k] = v`: `k` holds `v`, other keys keep their values and positions, a new key goes last |
| OrderedMaps.RemoveSpec | zeno/backend.py:888 | `del d[k]` raises exactly when `k` is missing; otherwise `k` is gone, every other key keeps its value, and the key list is the old one with `k` cut out at its position |
| OrderedMaps.RemoveUndoesPut | zeno/backend.py:878-890 | putting a new key and deleting it gives back the dict |
| OrderedMaps.WithFirstSpec | zeno/backend.py:110-118 | `{k: v}` then `.update(d)`: `k` comes first, then `d`'s keys in their order with their values |
| OrderedMaps.LastKeyAfterPut | zeno/backend.py:104 | the last key after putting a new key is that key |
| Aligner.NormalizeIsNormal | zeno/backend.py:622 | `" ".join(s.split())` has no leading or trailing whitespace and only single inner spaces |
| Aligner.NormalIsFixed | zeno/backend.py:622 | text already in that form is left unchanged |
| Aligner.NormalizeIdempotent | zeno/backend.py:622 | normalising twice is normalising once |
| Aligner.FindBestMatch | zeno/backend.py:621-641 | the loop returns the leftmost highest-scoring window, as the reference definition `IsBestMatch` describes, and agrees with the recursive model `BestMatch` |
| Aligner.BestMatchIsBest | zeno/backend.py:631-639 | a found match spans exactly the normalised snippet's length inside the prompt, is that slice of the prompt, scores at least every window and strictly more than every window to its left; otherwise the result is `("", -1, -1)` and every window scores 0 |
| Aligner.BestMatchUnique | zeno/backend.py:631-639 | the reference definition admits one match only |
| Aligner.BestMatchFoundIff | zeno/backend.py:626-641 | a match is found exactly when some window scores above zero |
| Aligner.SpliceKeepsPrompt | zeno/backend.py:746-748 | whatever is matched, the text around and inside the span gives back the prompt, and the splice adds exactly the markup's length |
| Aligner.SpliceFound | zeno/backend.py:857-859 | after a match, the span encloses exactly the matched window |
| Aligner.SpliceNoMatch | zeno/backend.py:857-859 | with `-1, -1` the empty span lands before the last character of the prompt |
| Aligner.AnnotateLength | zeno/backend.py:855-859 | splicing every requirement in turn lengthens the prompt by exactly the markup of one span per requirement |
| Aligner.UnspliceUndoesSplice | zeno/backend.py:746-748 | cutting the markup back out of a spliced prompt, at the recorded position and lengths, gives back the prompt |
| Aligner.AnnotateUndo | zeno/backend.py:855-859 | undoing the recorded splices of the whole loop, last first, gives back the prompt before annotation |
| Aligner.CompiledPlainText | zeno/backend.py:862-864 | with no requirements, a non-empty prompt without `<` is stored as `<prompt><text>` + its stripped text + `</text></prompt>` |
| ReqMarkup.LazyFindAt | zeno/test.py:4 | a lazy `.*?` followed by a delimiter stops at the delimiter's first occurrence |
| ReqMarkup.ReqSpanLenOfTag | zeno/test.py:4 | a span whose name has no `">`, whose body has no `</req>`, and neither a newline, is matched by the first alternative exactly |
| ReqMarkup.WrapRun | zeno/test.py:4-9 | a maximal run of non-`<` text becomes `<text>` + its stripped form + `</text>` |
| ReqMarkup.WrapBlankRun | zeno/test.py:7-9 | a whitespace-only run becomes `<text></text>` |
| ReqMarkup.WrapPlainText | zeno/test.py:4-9 | empty input gives empty output; text without `<` is one `<text>` element |
| ReqMarkup.WrapReqSpan | zeno/test.py:4-10 | a requirement span is copied unchanged |
| ReqMarkup.SpanNeedsClose | zeno/test.py:4 | the first alternative matches at a `<` only if the opening tag is there and a `</req>` follows |
| ReqMarkup.WrapStrayLt | zeno/test.py:4 | a `<` that starts no complete span matches neither alternative and is copied unwrapped |
| ReqMarkup.WrapRunThenSpan | zeno/test.py:4-10 | a run followed by a span becomes a `<text>` element followed by the span |
| ReqMarkup.WrapRunSpanRun | zeno/test.py:4-10 | run, span, run alternate as `<text>`, span, `<text>` |
| ReqMarkup.WrapThreeRunsTwoSpans | zeno/test.py:4-10 | three runs around two spans alternate in the same way |
| ReqMarkup.TestPyExample | zeno/test.py:13 | the literal input gives `<text>aanjnxakacoddsfvsv</text>` and the span, twice, then `<text>aanjnxakacoddsfvsv</text>` |
| ReqMarkup.SingleSpanExample | zeno/test.py:4-10 | a short run, span, run input gives the expected concrete output |
| Compiler.Examples2TextShape | zeno/compiler.py:16-21 | a string comes back unchanged; `[]` gives `""`; each further example adds a newline and its numbered entry |
| Compiler.Examples2TextInverse | zeno/compiler.py:16-21 | for examples whose fields contain no `»`, reading the numbered list back gives each example's rendering, in order; the empty list gives `""` |
| Compiler.ReadEntriesInverse | zeno/compiler.py:21 | a newline-joined list of entries numbered from `k` reads back as the quoted texts |
| Compiler.PositiveRoundTrip | zeno/compiler.py:11-12 | a positive rendering with a one-line input reads back as its input and output |
| Compiler.NegativeRoundTrip | zeno/compiler.py:13-14 | a negative rendering with one-line input and output reads back as input, output and printed feedback |
| Compiler.NegativeIsNotPositive | zeno/compiler.py:11-14 | a negative rendering never reads as a positive one |
| Compiler.PositiveInjective | zeno/compiler.py:11-12 | equal positive renderings of one-line inputs come from equal inputs and outputs |
| PromptEquality.SameFromIff | frontend/src/zenoservice/models/Prompt.ts:39-51 | the loop from position `i` holds exactly when every later position agrees on all five fields |
| PromptEquality.AreExamplesEqualIff | frontend/src/zenoservice/models/Prompt.ts:30-54 | lists are equal exactly when both are absent, or both present with equal elements in order |
| PromptEquality.AreExamplesEqualEdgeCases | frontend/src/zenoservice/models/Prompt.ts:34-36 | absent versus present (even `[]`) is unequal; different lengths are unequal |
| PromptEquality.AreRequirementsEqualIff | frontend/src/zenoservice/models/Prompt.ts:57-70 | requirements are equal exactly when all six fields and the examples agree |
| PromptEquality.AreRequirementsEqualIsEquivalence | frontend/src/zenoservice/models/Prompt.ts:57-70 | the relation is reflexive, symmetric and transitive |
| PromptEquality.CompareExamples | frontend/src/zenoservice/models/Prompt.ts:30-54 | the early-return loop agrees with structural equality |
| TableView.RequestedColumnsSpec | frontend/src/api/table.ts:22-27 | the requested columns are the order-preserving subsequence of exactly the columns meeting the three conditions, each kept as often as it occurs |
| TableView.RequestedColumnsAreSelected | frontend/src/api/table.ts:22-27 | no requested column is an embedding; each model and prompt id is selected or empty |
| TableView.DiffColumnsSpec | frontend/src/api/table.ts:29-41 | without a diff column both copies are undefined; otherwise each differs from it only in `model`, which is `filterModels[0]` / `[1]` for OUTPUT and POSTDISTILL and `""` otherwise |
| TableView.DiffColumnsSameKeyIff | frontend/src/api/table.ts:33-40 | the two copies have equal keys exactly when they got the same model |
| ColumnStore.LoadKeepsLoaded | zeno/backend.py:286-288 | loading puts the loaded series under its key, changes what no key loads to, and is idempotent |
| ColumnStore.SettledWithoutFile | zeno/backend.py:288-291 | without a cache file a column is complete exactly when it is in the table and complete, or there are no rows |
| ColumnStore.CheckSpec | zeno/backend.py:282-298 | the work list is the candidates with a missing row and the complete registry grows by the others, both in order; nothing is called or cached |
| ColumnStore.CheckSettledIff | zeno/backend.py:283-298 | a candidate is queued exactly when it is not complete once loaded |
| ColumnStore.PartitionMembers | zeno/backend.py:290-298 | each candidate is queued or registered, never both |
| ColumnStore.NothingIncomplete | zeno/backend.py:300 | when every candidate is complete the work list is empty |
| ColumnStore.CheckLoadsAll | zeno/backend.py:283-288 | after the check every candidate is in the table |
| ColumnStore.AbsorbRegisters | zeno/backend.py:263-276 | merging returns registers their columns in order and calls nothing |
| ColumnStore.RunAllSpec | zeno/backend.py:317-331 | the calls are made in work-list order up to and including the first that raises; the batch raises exactly when some call raises |
| ColumnStore.DispatchLogsCalls | zeno/backend.py:317-331 | a stage logs the calls it makes, a prefix of the work list in order, and all of it when none raises; when it raises, the logged prefix ends at the first call that raises, every earlier call having returned; it raises exactly when some call raises |
| ColumnStore.WriteSettles | zeno/backend.py:270-276 | writing a full return completes its column and keeps complete columns complete |
| ColumnStore.AbsorbSettles | zeno/backend.py:270-276 | merging full returns completes every returned column and un-completes none |
| ColumnStore.RunAllGood | zeno/backend.py:317-331 | with sound functions every return is full and, when no call raises, each call's target is returned |
| ColumnStore.DispatchSettles | zeno/backend.py:317-331 | with sound functions a stage that does not raise completes every called column and keeps complete ones complete |
| ColumnStore.DispatchKeepsKeys | zeno/backend.py:263-276 | raising or not, a stage removes no table column |
| Stages.OfKind | zeno/backend.py:283-285 | the columns of one kind are the given columns of that kind, each as often as it occurs |
| Stages.PredistillCallsIncomplete | zeno/backend.py:282-331 | predistill calls its function for the predistill columns with a missing row, in column order, and for nothing else: all of them when none raises; otherwise exactly up to and including the first call that raises; it raises exactly when a call raises |
| Stages.PredistillSettles | zeno/backend.py:278-331 | with sound functions, a predistill stage that does not raise leaves every predistill column complete, and complete columns stay so |
| Stages.PredistillSecondRunIdle | zeno/backend.py:282-300 | after a stage that did not raise, a second predistill run calls nothing and does not raise |
| Stages.PairsOrder | zeno/backend.py:339 | the (model, prompt) pairs run prompt-major: entry i × (number of models) + j is (model j, prompt i) |
| Stages.PairsLength | zeno/backend.py:339 | there is one pair per prompt and model |
| Stages.PairsMembers | zeno/backend.py:339 | every pair is a (model, prompt id) of the given ones, and every such combination is a pair |
| Stages.LegacyScanFrame | zeno/backend.py:363-379 | the scan as written calls nothing, writes no cache file and removes no table column; it writes only keys with the POSTDISTILL prefix; it raises exactly when the model name is empty and some cached file matches the glob, and then before changing anything |
| Stages.KindKeyUnscanned | zeno/backend.py:341-348 | predistill, output and embedding keys never carry the POSTDISTILL prefix, so the scan cannot overwrite them |
| Stages.LegacyKeyIsStem | zeno/backend.py:364-376 | with the name recovered as intended (see Findings), the column read back from a matching file has that file's stem as its key |
| Stages.IntendedLegacyScanFrame | zeno/backend.py:363-379 | the scan with the corrected name recovery only re-reads cached series: no call, no cache write, every key loads as before |
| Stages.LegacyScanCounterexample | zeno/backend.py:369-379 | the cached series of function `gpt4_length` for model `gpt4` is read back under the key of the empty-named column, which differs from the file's stem, and that column is registered complete |
| Stages.LegacyScanAsIntended | zeno/backend.py:363-379 | where the split reads every matching file's name back correctly, the scan as written is the corrected scan and does not raise |
| Stages.CheckPairsSpec | zeno/backend.py:340-379 | when the scan does not raise, the inference work list is the pairs whose output has a missing row; it raises only for a pair with an empty model name; nothing is called and no table column is removed |
| Stages.IncompletePairsMembers | zeno/backend.py:356-357 | a pair is queued exactly when its output column has a missing row |
| Stages.InferenceCallsIncomplete | zeno/backend.py:381-410 | inference calls the predict function for the queued pairs in order, all of them when nothing raises, and not at all without a predict function; when the scan raises no call is made; when a call raises, exactly up to and including the first raising one; it raises exactly when the scan or a call raises |
| Stages.InferenceSettles | zeno/backend.py:333-410 | with a predict function and sound functions, inference that does not raise leaves every output column complete and keeps complete every complete column the scan cannot reach |
| Stages.InferenceKeepsSettledKey | zeno/backend.py:333-410 | with or without a predict function, inference that does not raise keeps complete every complete column the scan cannot reach |
| Stages.InferenceSecondRunIdle | zeno/backend.py:336-381 | after inference that did not raise, a second inference run calls nothing |
| Stages.CheckNewIsCheck | zeno/backend.py:416-440 | the postdistill check is the predistill check run on the first candidate of each key absent from the table |
| Stages.FirstsMembers | zeno/backend.py:427-429 | a column is among those firsts exactly when it is the first candidate of its key and that key is absent from the table |
| Stages.CheckNewSpec | zeno/backend.py:416-440 | the work list is those firsts with a missing row once loaded, and the complete registry grows by the others, both in order; nothing is called; every candidate ends in the table |
| Stages.CheckNewMembers | zeno/backend.py:416-440 | a candidate is queued exactly when it is such a first with a missing row, and registered exactly when it is such a first with none |
| Stages.PostdistillCallsNew | zeno/backend.py:412-472 | postdistill calls its function for exactly those queued columns, in order, all of them when none raises; otherwise exactly up to and including the first raising one; it raises exactly when a call raises |
| Stages.PostdistillSettlesNew | zeno/backend.py:412-472 | with sound functions, postdistill that does not raise leaves complete every postdistill column whose key was absent from the table, and keeps complete columns complete |
| Stages.PostdistillSecondRunIdle | zeno/backend.py:427-429 | a second postdistill run changes nothing and does not raise, even when the first raised or columns are still partial |
| Backend.InitialSetupSpec | zeno/backend.py:94-118 | setup fails exactly when no prompt is stored; otherwise the last prompt is current, the status is Initializing, and "All Instances" is added first when missing, keeping every stored slice |
| Backend.EnumeratedColumnsSpec | zeno/backend.py:227-239 | one PREDISTILL column per predistill function, then one POSTDISTILL column per function and model, function-major |
| Backend.ProcessFollowsPhases | zeno/backend.py:246-261 | each observed state either moves the status on one phase or sets the inference flag; after "Running inference" comes a state with the flag set and the status unchanged; the flag is set in every state from the postdistill phase on and in none before the inference phase; the states reach "Done processing" exactly when no stage raises; the run leaves the last observed status and flag behind, with the store of the stage that ended it |
| Backend.ProcessStopsAtRaise | zeno/backend.py:246-261 | a raising predistill stage leaves the status at "Running predistill functions", a raising inference stage at "Running inference", both with inference not marked done; once inference returned, it is marked done |
| Backend.ProcessKeepsConfiguration | zeno/backend.py:246-261 | the pipeline changes only the store, the status and the inference flag |
| Backend.StartProcessingNoTests | zeno/backend.py:222-225 | without test functions: "Done processing", inference done, nothing run, no column added |
| Backend.StartProcessingWithTests | zeno/backend.py:219-261 | with test functions the columns grow by exactly the enumerated ones and the pipeline runs; it reaches "Done processing", with inference done, exactly when no stage raises, which holds when no registered function raises and no model name is empty |
| Backend.StageRows | zeno/backend.py:263-276 | no stage changes the number of rows |
| Backend.StagesKeepKeys | zeno/backend.py:278-410 | predistill and inference remove no table column, raising or not |
| Backend.PostdistillLoadsAll | zeno/backend.py:417-433 | raising or not, postdistill leaves every postdistill column's key in the table |
| Backend.AfterOneRun | zeno/backend.py:246-261 | after a run in which no stage raised, every predistill column and (with a predict function) every output column is complete, and every postdistill column is in the table |
| Backend.ProcessSecondRunIdle | zeno/backend.py:246-261 | after a run that reached "Done processing", running the whole pipeline again calls no registered function |
| Metrics.GetMetricsForSlicesSpec | zeno/backend.py:474-499 | one result per request, in order, exactly when no request raises; otherwise the first raising request's error |
| Metrics.SliceMetricPolicy | zeno/backend.py:484-498 | an unknown filter variable gives (no metric, size 0) and another filter error raises; with no metric name, no label column or no inference yet the result is (no metric, slice size); an unregistered metric raises; a raising metric function raises; a metric value is always the metric function on the filtered rows with the model's local options |
| Metrics.NoMetricBeforeInference | zeno/backend.py:542-543 | before inference every metric is absent, and the query raises only on a filter error other than an unknown variable |
| Metrics.LocalOptionsForModel | zeno/backend.py:545-571 | for a model: its output column under the current prompt, and each function name mapped to the key of a distill column of that name and model |
| Metrics.NamedModelSeesOnlyPostdistill | zeno/backend.py:551-559 | for a named model, only POSTDISTILL columns reach the metric, because PREDISTILL columns carry the empty model |
| Metrics.DistillColumnsMembers | zeno/backend.py:551-580 | the distill columns are the PREDISTILL and POSTDISTILL columns, of the model when one is given |
| Metrics.NameMapSpec | zeno/backend.py:565-569 | `dict(zip(names, keys))` maps each name to the key of its last column |
| PromptVersions.ParseAllSpec | zeno/backend.py:603 | parsing succeeds exactly when every key parses, and lists their numbers in order |
| PromptVersions.ParseVersionOfDecimal | zeno/backend.py:603-604 | `v<n>` parses back to `n` |
| PromptVersions.NewPromptVersionSpec | zeno/backend.py:601-604 | the new version fails exactly on no keys or an unparsable key; otherwise it exceeds every stored version by at least one, equals some version plus one, and is not a stored key |
| PromptVersions.NewPromptVersionExample | zeno/backend.py:601-604 | after `v1` comes `v2` |
| PromptVersions.CreateNewPromptReadOnly | zeno/backend.py:607-608 | a read-only session is unchanged and nothing is returned |
| PromptVersions.CreateNewPromptSpec | zeno/backend.py:606-616 | a version that cannot be computed (no stored prompt: `max` of nothing) raises and changes nothing; otherwise the prompt is appended under a fresh version, carries it and becomes current, whether or not compiling raises, and is returned exactly when compiling does not raise; other prompts and the rest of the session are unchanged |
| Mutators.ReadOnlyUnchanged | zeno/backend.py:878-911 | in a read-only session every mutator leaves the session as it is |
| Mutators.SetListsSpec | zeno/backend.py:594-599 | folders (and likewise reports) are replaced and nothing else changes |
| Mutators.CreateNewTagSpec | zeno/backend.py:878-883 | the tag is stored under its name; other tags and the session are untouched |
| Mutators.DeleteTagSpec | zeno/backend.py:885-890 | deleting raises exactly on a missing name; otherwise only that tag is gone, the others keeping their order |
| Mutators.DeleteTagUndoesCreate | zeno/backend.py:878-890 | deleting a tag just created under a new name restores the session |
| Mutators.CreateNewSliceSpec | zeno/backend.py:899-904 | the slice is stored under its name; other slices and the session are untouched |
| Mutators.DeleteSliceSpec | zeno/backend.py:906-911 | deleting raises exactly on a missing name; otherwise only that slice is gone, the others keeping their order |
| Mutators.DeleteSliceUndoesCreate | zeno/backend.py:899-911 | deleting a slice just created under a new name restores the session |
| Mutators.AllInstancesDeletable | zeno/backend.py:906-911 | nothing protects the "All Instances" slice from deletion |

## Left out

- Concurrency is not modelled: the background thread with `asyncio.run` and the `Pool` branches of the three stages. Only the sequential branches are modelled. `pool.map` keeps the same order, but when a call raises, calls after it may already have run and saved their series; the model stops at the raising call.
- File and pickle I/O is not modelled: `read_pickle`, `pickle.dump`, `pd.read_pickle`, `glob`. The cache is an insertion-ordered map from key to series.
- The legacy scan's `glob` lists the cached files in the cache's insertion order. The file system's own listing order is not modelled. When two files give the same column, the later one in that order wins.
- Glob metacharacters (`*`, `?`, `[`) in a model name are not modelled: `GlobMatch` treats the model name literally.
- `load_series` is not part of this model. The model assumes its behaviour: with a cache file, the aligned cached series; without one, the table's column if present, else an all-missing column.
- `predistill_data`, `run_inference` and `postdistill_data` are not part of this model. They are a `Runner` parameter, and each returned series is assumed saved to the cache under its key.
- pandas internals are not modelled: `convert_dtypes`, `get_metadata_type`, `filter_table`, and the metric functions' computations. A series is a sequence of optional values.
- `get_filtered_table`, `get_filtered_ids`, `get_metrics_for_slices_and_tags` and `get_metrics_for_tags` are left out. They are pandas sorting, slicing and serialisation.
- LLM calls and response parsing are left out: `extract_requirements`, `optimize_requirement`, and the request and parsing part of `compile_prompt`. The rewrite is a `Compile` parameter. The splice loop and the final markup pass are modelled (`Aligner.Annotate`, `Aligner.CompiledText`).
- `compile_prompt` and `extract_requirements` index the requirements dict by position (`requirements[idx]`) and call `.append` on it. A `Dict[str, Requirement]` supports neither, so the model takes the requirements in insertion order.
- `evaluate_requirement` is left out because it is an empty stub.
- `run_prompt` is left out. It only re-runs inference for the given prompt version's pairs, which `Stages.Inference` covers.
- `__setup_dataframe` and `__parse_test_functions` are left out because they are source introspection and dataframe loading. Their results are part of the setup record.
- `calculate_metric` sets `output_path` (a file path), and the model does not. The metric function's `.metric` field is the returned value.
- Strings.Title: letter case is ASCII only. Python's `str.title` also changes the case of non-ASCII letters and title-cases digraphs; here only `A`-`Z` and `a`-`z` count as cased.
- Columns.ToCamelCaseInsensitive: the "up to letter case" comparison uses the same ASCII-only case mapping, so it says nothing about how non-ASCII letters change case.
- The similarity ratio is a parameter into reals in [0, 1]; difflib's Ratcliff/Obershelp algorithm is not modelled.
- PromptVersions.ParseVersion: Python's `int` also accepts a sign, surrounding whitespace and underscores between digits, and the model accepts digits only. Such keys are counted as unparsable.
- Columns.Hash: Python's string hash is a parameter. Only "equal keys give equal hashes" is stated.
- `HITLPromptOptimizer` and the dspy signatures in the compiler module are left out, as are the prompt templates, the HTTP service wrappers and the chart configuration.

## Findings

| source | as written | input that shows it | evidently intended | confidence | as-written member | corrected member |
|---|---|---|---|---|---|---|
| zeno/backend.py:369 | the function name is `basename.split(model)[0][11:]`, the text before the model's first occurrence, minus the 11-character prefix | function `gpt4_length`, model `gpt4`: the file `POSTDISTILLgpt4_lengthgpt4.pickle` matches the glob, yet the recovered name is `""`; function `x` with model `xx` fails the same way | the text between the `POSTDISTILL` prefix and the model suffix, i.e. the name the file was saved under | not executed | Columns.LegacyNameAsWrittenCounterexample | Columns.RecoverNameInverse |
| zeno/backend.py:363-379 | inference reads each matching file back under the column named by that split (`Stages.LegacyScan`) | the same file is read back into the table under the key `POSTDISTILLgpt4`, not under its own stem, and the column registered complete is the wrong one | every file goes back under the key it was saved under | not executed | Stages.LegacyScanCounterexample | Stages.LegacyKeyIsStem |
