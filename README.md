# Document batching and log-tag post-processing, modelled in Dafny

This project models the deterministic core of an AI-operations toolkit whose
heavy lifting (document parsing, vector indexing, LLM calls) is done by an
external knowledge-base SDK and by a language model. What is left once those
are treated as opaque inputs is specified and proved here:

- **`BaseProcessor`** (core/base_processor.py):
  - `split_doc_to_batches` is a generator. It walks the parsed document
    elements, renders each one to markdown and counts its tokens. It yields
    the running batch before an element that would take it past
    `chunk_size`, but never yields an empty batch.
  - The model is a method with the source's loop and variables. The loop is
    proved against a step function (`Step`/`Run`). From that, the result is
    proved to be a greedy cut of the elements:
    - the batches, concatenated, give the elements in order;
    - no batch is empty;
    - a batch is within the budget, or is a single element;
    - every batch but the last could not take the next element.
  - That greedy cut is proved to be unique.
  - The success filter of `get_all_chunks` is modelled as its nested loop.
  - `create_knowledge_base` makes three decisions before any SDK call, and
    each is modelled as a function:
    - the extension dispatch (YAML, JSON, or `ValueError`);
    - the dictionary merge where file keys win;
    - the splitter chunk size.
- **`TagRecords`** holds the post-processing steps that both log analyzers
  carry, character for character: `_deduplicate_results` and
  `_group_tags_by_type`.
  - Both are methods with the source's loop and accumulators. Each is proved
    equal to a recursive specification function.
  - The specification is then shown to have these properties:
    - distinct keys;
    - exactly the input's keys;
    - first occurrences, kept in order;
    - idempotence;
    - grouping as an order-preserving filter by type, with no empty group
      and every typed tag counted.
  - The module also holds what both reassembly loops share: the LLM call
    outcome `Reply`, the completion order of the futures, and in-order
    flattening.
- **`JsonCleanup`** is `_clean_json_string`, which is identical in both
  analyzer files.
  - It is a chain of `strip`/`lstrip`/`rstrip` calls and five `re.sub`
    rewrites. Each is written as a function on `seq<char>`.
  - The result is proved to be trimmed and never longer than the input. It
    is also proved to delete nothing but whitespace, apart from the fence
    characters.
  - Each bracket rewrite is proved to leave no whitespace gap.
  - `lstrip('```json')` strips a *set* of characters. A worked example shows
    that an unfenced `null` loses its `n`.
- **`DatasetLogAnalyzer`** (core/plans/dataset_log_analyzer.py) covers four
  pieces:
  - the list guard of `_process_log_chunk`;
  - `_extract_log_tags`: an array of slots is filled by chunk index in an
    arbitrary completion order, then flattened and de-duplicated, and the
    result is proved independent of that order;
  - `_generate_summary` without its timestamp;
  - a lemma tying the summary back to the tags.
- **`LogAnalyzer`** (core/plans/log_analyzer.py) has the same reassembly.
  - Its `_process_log_chunk` has no list guard, so a truthy reply that is
    not a list makes the flattening or the de-duplication raise. The model
    returns an error exactly then.
  - Its `analyze_logs` returns `{}` exactly when splitting gives no chunks.
  - A lemma shows that the two `_process_log_chunk` versions differ only by
    the guard.

The SDK, the LLM and the file system enter as parameters. Each of the
following is a function argument:
- the markdown renderer and the token counter;
- the chunk listing of the knowledge base;
- the parsed configuration file;
- the LLM reply for a chunk;
- `json.loads`.

Points where the code does not match what its surroundings suggest are
modelled as written:
- core/plans/log_analyzer.py imports `BaseDocProcessor` at line 15, but
  core/base_processor.py defines only `BaseProcessor`.
  - `BaseDocProcessor` is not part of this model.
  - `parse_and_split`, which it would provide, is replaced by the chunk list
    given to `LogAnalyzer.AnalyzeLogs`.
- core/plans/log_analyzer.py calls `self._generate_summary` at line 153,
  which that file does not define. Its report is therefore modelled only up
  to the grouped tags.
- The two `_process_log_chunk` versions differ. The one in
  dataset_log_analyzer.py keeps only lists (lines 171-176). The one in
  log_analyzer.py returns any decoded value (lines 137-140).

## Model

| member | source | states |
|---|---|---|
| BaseProcessor.ItemsOf | core/base_processor.py:441-458 | one batch entry per element, in document order, carrying the element's id, its type value and its markdown |
| BaseProcessor.TotalSnoc | core/base_processor.py:459 | the running token count grows by exactly the new entry's token count |
| BaseProcessor.SplitDocToBatches | core/base_processor.py:421-462 | `Batches(items)` is the final state of `Run`, which applies `Step` (one pass of the loop body: close the open batch when the new entry would take it past `chunk_size`, then add the entry) to each entry in turn, followed by the open batch if non-empty; the yielded batches, collected in order, are the greedy cut `Batches` of the rendered elements; they satisfy `GreedyBatching`, which says that concatenated they are exactly the entries in order, that every batch is non-empty and within `chunk_size` or a single entry, and that every batch but the last plus the next entry would exceed `chunk_size`; there are no batches exactly when there are no elements; the input sequence is a value and stays unchanged |
| BaseProcessor.BatchesAreGreedy | core/base_processor.py:438-462 | `Batches`, built from `Run`/`Step` (the loop body), the step-by-step cut is a greedy batching of the entries, and is empty exactly when the entries are |
| BaseProcessor.OversizedStandsAlone | core/base_processor.py:446-459 | in any greedy batching, an entry whose own token count exceeds `chunk_size` is alone in its batch |
| BaseProcessor.GreedyBatchingIsUnique | core/base_processor.py:446-462 | two greedy batchings of the same entries under the same budget and counter are equal, so the generator's output is determined by those properties |
| BaseProcessor.GetAllChunks | core/base_processor.py:369-374 | the nested loop returns exactly the chunks that are non-None with code SUCCESS, in document order and then chunk order (`Succeeded`) |
| BaseProcessor.SucceededMembers | core/base_processor.py:369-374 | a chunk is returned if and only if some document lists it with SUCCESS |
| BaseProcessor.SucceededInMembers | core/base_processor.py:372-374 | within one document, a chunk is kept if and only if some entry carries it with SUCCESS |
| BaseProcessor.SucceededInNoLonger | core/base_processor.py:372-374 | a document contributes no more chunks than it lists |
| BaseProcessor.SucceededAppend | core/base_processor.py:370-374 | filtering two runs of documents one after the other equals filtering their concatenation (document order is kept) |
| BaseProcessor.ConfigFormatOf | core/base_processor.py:132-142 | YAML if and only if the path ends in `.yaml` or `.yml`; JSON if and only if it ends in `.json` and in neither of those; otherwise the invalid-config error carrying the path |
| BaseProcessor.FormatOfSuffix | core/base_processor.py:132-139 | any path ending in `.yaml` or `.yml` is read as YAML, and any ending in `.json` as JSON |
| BaseProcessor.DefaultPathIsYaml | core/base_processor.py:116-135 | the default `config/create_vector_kb.yaml` is read as YAML |
| BaseProcessor.FormatExamples | core/base_processor.py:132-142 | only the last extension counts (`kb.yaml.json` is JSON) and the test is case-sensitive (`KB.YAML` and `kb.toml` are refused) |
| BaseProcessor.MergeConfig | core/base_processor.py:145-147 | an absent or empty file keeps the defaults; otherwise the keys are the union, file values win, and every default key the file does not name keeps its value |
| BaseProcessor.MergeIsIdempotent | core/base_processor.py:145-147 | merging the same file again changes nothing |
| BaseProcessor.SplitterChunkSize | core/base_processor.py:149-152 | the explicit `chunk_size` when given, the processor's own otherwise |
| BaseProcessor.PrepareKbConfig | core/base_processor.py:130-152 | the preparation fails exactly when the dispatch refuses the path; otherwise the fields are the merge of the defaults with the file parsed by the selected format, and the chunk size is the splitter chunk size |
| BaseProcessor.ChunkSizeIgnoresFile | core/base_processor.py:145-152 | the chunk size does not depend on the file's contents, and is 1024 (the value set at core/base_processor.py:73) when no argument is given |
| TagRecords.KeysOfSnoc | core/plans/dataset_log_analyzer.py:360-362 | adding a record adds exactly its key to the seen keys |
| TagRecords.DeduplicateResults | core/plans/dataset_log_analyzer.py:351-365 | the loop over `seen` and `unique_results` returns `Unique(results)`, the list keeping each record whose key no earlier record had; empty input gives empty output |
| TagRecords.UniqueKeysAreDistinct | core/plans/dataset_log_analyzer.py:356-363 | no two records of the output share a `(type, content)` key |
| TagRecords.UniqueKeepsEveryKey | core/plans/dataset_log_analyzer.py:359-363 | the output has exactly the keys of the input |
| TagRecords.FirstIndex | core/plans/dataset_log_analyzer.py:359-363 | the index of the first record with a given key: it has the key and no earlier record does |
| TagRecords.UniqueKeepsFirsts | core/plans/dataset_log_analyzer.py:359-363 | every kept record is the first record of the input with its key |
| TagRecords.UniqueOrderAt | core/plans/dataset_log_analyzer.py:359-363 | kept records appear in the order of their first occurrences |
| TagRecords.UniqueIsFirstOccurrences | core/plans/log_analyzer.py:295-304 | the output is the order-preserving subsequence of first occurrences of each key |
| TagRecords.UniqueOfDistinct | core/plans/dataset_log_analyzer.py:359-365 | a list whose keys are already distinct is returned unchanged |
| TagRecords.UniqueIsIdempotent | core/plans/log_analyzer.py:292-304 | de-duplicating twice gives the same list as once |
| TagRecords.GroupTagsByType | core/plans/dataset_log_analyzer.py:340-349 | the loop building `grouped` in place returns `GroupsOf(tags)`, whose keys are the truthy types in order of first appearance, each mapped to the tags of that type in input order |
| TagRecords.GroupKeysAreTruthy | core/plans/dataset_log_analyzer.py:344-346 | every group key is a truthy type |
| TagRecords.GroupKeysHaveTags | core/plans/dataset_log_analyzer.py:344-348 | a truthy type is a group key if and only if some tag has it, so no group is empty |
| TagRecords.GroupKeysAreDistinct | core/plans/dataset_log_analyzer.py:346-347 | each type is inserted as a key once |
| TagRecords.OfTypeMembers | core/plans/dataset_log_analyzer.py:343-348 | a tag is in the group for a type if and only if it is an input tag of that type |
| TagRecords.OfTypeAppend | core/plans/log_analyzer.py:282-287 | grouping the concatenation of two tag lists concatenates their groups, so input order is kept |
| TagRecords.GroupingIsByType | core/plans/log_analyzer.py:281-288 | the result is a well-formed dict; every group is non-empty and has a truthy key; a tag is in a group if and only if it has that type; a tag with a truthy type is in its group; a tag with a missing or falsy type is in none; each group is an order-preserving filter |
| TagRecords.CountTypesSnoc | core/plans/dataset_log_analyzer.py:343-348 | a new tag raises the count over distinct types by one exactly when its type is among them |
| TagRecords.CountTypesOfGroupKeys | core/plans/dataset_log_analyzer.py:342-349 | the group sizes over the group keys count exactly the typed tags |
| TagRecords.GroupSizesOfGroups | core/plans/dataset_log_analyzer.py:342-349 | each group's size is the number of input tags of its type |
| TagRecords.GroupSizesCountTypedTags | core/plans/dataset_log_analyzer.py:342-349 | the group sizes add up to the number of tags with a truthy type, so only untyped tags are lost |
| TagRecords.ConcatAppend | core/plans/dataset_log_analyzer.py:126 | flattening follows slot order: the results of earlier slots come first |
| TagRecords.ConcatMembers | core/plans/log_analyzer.py:107 | a record is in the flattened list if and only if some slot holds it |
| JsonCleanup.WhitespaceIsSpaceClass | core/plans/dataset_log_analyzer.py:330-337 | the whitespace of `strip()` and `\s` contains the newline and none of the brackets the rewrites look for |
| JsonCleanup.LeadingRun | core/plans/dataset_log_analyzer.py:331 | the length of the leading run of set characters: the next character is not in the set |
| JsonCleanup.TrailingStart | core/plans/dataset_log_analyzer.py:331 | the start of the trailing run of set characters: the character before it is not in the set |
| JsonCleanup.LeadingRunIsBlank | core/plans/dataset_log_analyzer.py:330-331 | `LStrip(s, cs)` (`s.lstrip(cs)`) drops the first `LeadingRun` characters; every character `lstrip` removes is in its argument set |
| JsonCleanup.TrailingRunIsBlank | core/plans/dataset_log_analyzer.py:330-331 | `RStrip(s, cs)` (`s.rstrip(cs)`) keeps the characters before `TrailingStart`; every character `rstrip` removes is in its argument set |
| JsonCleanup.LeadingRunOf | core/plans/log_analyzer.py:269-271 | any prefix of set characters followed by a non-set character is the leading run |
| JsonCleanup.TrailingStartOf | core/plans/log_analyzer.py:269-271 | any suffix of set characters preceded by a non-set character is the trailing run |
| JsonCleanup.LastNewlineEndIsLast | core/plans/dataset_log_analyzer.py:337 | `LastNewlineEnd`, used by `BlankSpan` for the backtracking of `\s*\n`: the position found is just past the last newline: no newline follows it |
| JsonCleanup.BlankSpanIsGreedy | core/plans/dataset_log_analyzer.py:337 | `BlankSpan`, used by `CollapseBlankLines`: the span `\s*\n` consumes is whitespace and reaches the last newline of the whitespace run |
| JsonCleanup.StripIsTrimmed | core/plans/dataset_log_analyzer.py:330 | `Strip` is `rstrip` after `lstrip` over the whitespace class (line 330 and again after the fence strips); `strip()` leaves no whitespace at either end and never lengthens |
| JsonCleanup.SqueezeAfterKeepsEnds | core/plans/dataset_log_analyzer.py:333-335 | `SqueezeAfter(s, open)` is `re.sub(r'<open>\s+', '<open>', s)`, deleting the whitespace run after each `open`; the rewrites after `[` and `{` are no longer than their input, keep its first character, and keep its last character when that is not whitespace |
| JsonCleanup.SqueezeBeforeKeepsEnds | core/plans/dataset_log_analyzer.py:334-336 | `SqueezeBefore(s, close)` is `re.sub(r'\s+<close>', '<close>', s)`, deleting each maximal whitespace run directly before `close`; the rewrites before `]` and `}` are no longer than their input and keep its first and its last character when those are not whitespace |
| JsonCleanup.CollapseNoLonger | core/plans/dataset_log_analyzer.py:337 | `CollapseBlankLines` is `re.sub(r'\n\s*\n', '\n', s)`; collapsing blank lines never lengthens |
| JsonCleanup.CollapseKeepsLast | core/plans/dataset_log_analyzer.py:337 | collapsing blank lines keeps a non-whitespace last character |
| JsonCleanup.CollapseKeepsEnds | core/plans/dataset_log_analyzer.py:337 | collapsing blank lines never lengthens and keeps the first and a non-whitespace last character |
| JsonCleanup.CleanIsTrimmed | core/plans/log_analyzer.py:269-277 | `Clean(s, ws)` is the whole `_clean_json_string` pipeline: `Unfence` (strip, `lstrip('```json')`, `rstrip('```')`, strip), `SqueezePair` for `[`/`]` and then `{`/`}`, then `CollapseBlankLines`; for any whitespace class containing the newline, the cleanup is trimmed and no longer than its input |
| JsonCleanup.CleanIsTrimmedAndNoLonger | core/plans/dataset_log_analyzer.py:330-338 | the cleaned reply `CleanJsonString(s)`, i.e. `Clean(s, Whitespace)` with Python's whitespace: the cleaned reply is never longer than the reply and has no leading or trailing whitespace |
| JsonCleanup.NonSpaceAppend | core/plans/dataset_log_analyzer.py:333-337 | the non-whitespace content of a concatenation is the concatenation of the contents |
| JsonCleanup.StripKeepsNonSpace | core/plans/dataset_log_analyzer.py:330 | `strip()` deletes whitespace only |
| JsonCleanup.SqueezeAfterKeepsNonSpace | core/plans/dataset_log_analyzer.py:333-335 | the rewrites after `[` and `{` delete whitespace only |
| JsonCleanup.SqueezeBeforeKeepsNonSpace | core/plans/dataset_log_analyzer.py:334-336 | the rewrites before `]` and `}` delete whitespace only |
| JsonCleanup.CollapseKeepsNonSpace | core/plans/dataset_log_analyzer.py:337 | collapsing blank lines deletes whitespace only |
| JsonCleanup.CleanDeletesOnlyWhitespace | core/plans/log_analyzer.py:269-277 | for `CleanJsonString(s)`: apart from the leading fence characters and trailing backticks, the cleanup deletes whitespace only: every other character survives, in order |
| JsonCleanup.SqueezeAfterLeavesNoGap | core/plans/dataset_log_analyzer.py:333-335 | after `\[\s+` becomes `[` (and likewise for `{`), no opening bracket is followed by whitespace |
| JsonCleanup.SqueezeBeforeLeavesNoGap | core/plans/dataset_log_analyzer.py:334-336 | after `\s+\]` becomes `]` (and likewise for `}`), no whitespace is followed by a closing bracket |
| JsonCleanup.RewritesKeepPlainText | core/plans/dataset_log_analyzer.py:333-337 | `SqueezeAfter`, `SqueezeBefore` and `CollapseBlankLines`: text without whitespace passes all five rewrites unchanged |
| JsonCleanup.CleanOfPlainUnfenced | core/plans/log_analyzer.py:269-277 | for `Clean` and its first stage `Unfence`: when only the fence stood around text without whitespace, the cleanup gives that text |
| JsonCleanup.FencedReplyIsUnwrapped | core/plans/log_analyzer.py:269-277 | `CleanJsonString`: a reply of the form fence, `json`, newline, `[1]`, newline, fence cleans to `[1]` |
| JsonCleanup.LStripTakesCharacters | core/plans/log_analyzer.py:270 | `CleanJsonString`: `lstrip('```json')` strips a set of characters: the unfenced reply `null` cleans to `ull` |
| DatasetLogAnalyzer.ProcessLogChunk | core/plans/dataset_log_analyzer.py:170-180 | a non-empty result is exactly the list the cleaned reply decodes to; a reply that decodes to a list gives that list; a failed call, a reply that does not decode and a non-list reply all give `[]` |
| DatasetLogAnalyzer.GatherFilled | core/plans/dataset_log_analyzer.py:126 | `Gather(slots)` is the comprehension at line 126, flattening the slots and skipping those still `None`; once every slot is filled, the comprehension is the in-order flattening of the chunk results (`Concat` of the per-chunk lists, which `ChunkTags` lists by chunk index) |
| DatasetLogAnalyzer.ExtractLogTags | core/plans/dataset_log_analyzer.py:100-132 | for any completion order of the futures, the slot array reassembles the results by chunk index, and the returned list is the de-duplication of their in-order flattening (`Unique(Concat(ChunkTags(...)))`, where `ChunkTags` is the `_process_log_chunk` result of each chunk at its own index); it does not depend on the order |
| DatasetLogAnalyzer.ExtractedTagsComeFromChunks | core/plans/dataset_log_analyzer.py:126-127 | every extracted record comes from some chunk's result; the extracted keys are distinct and are exactly the keys the chunks produced |
| DatasetLogAnalyzer.SumCountsOfSizes | core/plans/dataset_log_analyzer.py:370-372 | summing the per-type counts gives the sum of the group sizes |
| DatasetLogAnalyzer.GenerateSummary | core/plans/dataset_log_analyzer.py:367-388 | `tag_types` is the group keys in insertion order; `tag_counts` has exactly the group keys, each mapped to its group's size; `total_tags` is the sum of `tag_counts`; each of the five named counts is present if and only if its group exists, and then equals its size |
| DatasetLogAnalyzer.HasGroupIffTagged | core/plans/dataset_log_analyzer.py:342-348 | a truthy type has a group if and only if some tag carries it |
| DatasetLogAnalyzer.SummaryOfTags | core/plans/dataset_log_analyzer.py:367-388 | for grouped tags: `total_tags` is the number of tags with a truthy type; `tag_types` is the types in order of first appearance; each count is that type's number of tags and is positive; `error_count` is present if and only if some tag has type 错误, and then counts those tags |
| LogAnalyzer.ProcessLogChunk | core/plans/log_analyzer.py:115-144 | a reply that decodes gives the decoded value, whatever its kind; a failed call or an undecodable reply gives `[]` |
| LogAnalyzer.ListGuardIsTheOnlyDifference | core/plans/log_analyzer.py:136-140 | the guarded version in dataset_log_analyzer.py is this one followed by "keep it if it is a list, else `[]`" |
| LogAnalyzer.OrEmpty | core/plans/log_analyzer.py:97 | `chunk_results or []` turns a falsy value into `[]`, and this changes neither the records the slot contributes to the flattening (`ArrayItems`) nor whether the flattening raises (`NotTagList`) |
| LogAnalyzer.GatherFilled | core/plans/log_analyzer.py:107-108 | `Gather(slots)` is the comprehension at line 107 and the de-duplication it feeds: it skips `None` slots, takes a list's items and gives `Err(Raised)` for a truthy non-list; over filled slots, flattening and de-duplication raise if and only if some chunk's value is a truthy non-list; otherwise the flattening is the in-order concatenation of the chunk lists (`ChunkLists`: the items of each value that is an array, none for any other value) |
| LogAnalyzer.ExtractLogTags | core/plans/log_analyzer.py:81-113 | for any completion order: the call raises if and only if some chunk produced a truthy value that is not a list; otherwise it returns the de-duplication of the chunk lists flattened in index order (`ChunkLists(ChunkValues(...))`, where `ChunkValues` is the decoded value of each chunk at its own index) |
| LogAnalyzer.AgreesWithGuardedVersion | core/plans/log_analyzer.py:107 | the lists this version flattens (`ChunkLists(ChunkValues(...))`) are, chunk by chunk, the results of the guarded version (`DatasetLogAnalyzer.ChunkTags`), so when it does not raise it extracts the same tags |
| LogAnalyzer.AnalyzeLogs | core/plans/log_analyzer.py:61-71 | the model follows `analyze_logs` only as far as `_group_tags_by_type` (line 149) and stops there: the result is `{}` if and only if splitting gave no chunks (the early return at lines 66-68); with chunks it raises exactly when extraction does, and otherwise holds the grouping of the extracted tags, from which the report would be built |

## Left out

- The knowledge-base SDK (`KBX`, `create_new_kb`, `insert_docs`, the parser, the splitter, `list_doc_ids`/`list_chunks`). These are calls into code that is not shown. The chunk listing, the markdown renderer and the token counter are parameters.
- The token counter is a function to natural numbers. The model does not check the counter's own behaviour.
- `KBCreationConfig.model_validate`/`model_dump`: pydantic validation is not shown. The merge is modelled on a map of top-level fields, where a file key replaces the whole default value, as `{**a, **b}` does. A validation failure is not modelled.
- `BaseProcessor.MergeConfig`: a YAML or JSON file whose top level is a non-empty list or a truthy scalar is not modelled. The source rejects such a file with a `TypeError` at core/base_processor.py:147, since `{**a, **b}` needs a mapping. The parsed file is a map or absent.
- `BaseProcessor.PrepareKbConfig`: in the source the chunk size is a nested field of the merged configuration (`vector_keyword_config.splitter_config.chunk_size`, written at core/base_processor.py:150 and 152 after the merge). The model keeps it apart, as `splitterChunkSize` beside the merged `fields`, and `fields` are the merge before that write.
- `DatasetLogAnalyzer.GenerateSummary`: `tag_counts` is a dict that iterates in group insertion order (core/plans/dataset_log_analyzer.py:372). The model's `tagCounts` is a map, which has no order. The same order is kept in `tagTypes`.
- File reading in `create_knowledge_base` (`open`, `yaml.safe_load`, `json.load`) is I/O. The parsed file is the `load` parameter.
- The rest of `create_knowledge_base` (the existing-knowledge-base check, deletion, creation, insertion, timing) is SDK calls and is left out.
- `convert_pydantic_to_dict`, `save_json`, `save_md`, and the deep copy in `split_doc_to_batches`. Sequences are values in Dafny, so the input cannot be changed by the caller after the call, and the deep copy has no counterpart.
- `_process_llm_response` inspects the LLM response by duck typing. The reply is modelled as a string or a failed call (`TagRecords.Reply`).
- `call_llm` and the prompt built from the chunk text and regex patterns. The LLM is the `reply` parameter.
- `json.loads` is the `decode` parameter.
- `DatasetLogAnalyzer.ProcessLogChunk` / `LogAnalyzer.ProcessLogChunk`: list elements that are not JSON objects are not modelled. A decoded array is a sequence of tag records. Such elements would make `.get` raise in `_deduplicate_results`.
- The ThreadPoolExecutor concurrency. The futures complete one at a time, in an arbitrary order given as a parameter.
- The progress counter and logging in `_extract_log_tags`.
- The wall-clock time measurements.
- Exceptions other than `Exception` subclasses.
- `_generate_analysis_report`: the five per-type analyses are LLM calls and are left out. For dataset_log_analyzer.py only its summary is modelled. For log_analyzer.py only the grouped tags are modelled, since its `_generate_summary` is not defined in that file.
- The `timestamp` entry of the summary (`datetime.now`).
- `_generate_visualizations` (plotting), `test_speed_of_llm` (timing).
- `analyze_logs` in dataset_log_analyzer.py (file reading into a single chunk).
- The file-existence check and `parse_and_split` in `LogAnalyzer.AnalyzeLogs`, which are I/O and come from a class that is not part of this model.
- `LogAnalyzer.AnalyzeLogs`: the model stops at the grouped tags, so its `Ok(Analysed(...))` result is not what the source returns. With at least one chunk and no raise in extraction, the source goes on to raise in steps after grouping:
  - at core/plans/log_analyzer.py:153, since `_generate_summary` is not defined in that file (unless the missing `BaseDocProcessor` provides it); one chunk whose reply is `[]` already reaches this line;
  - at lines 229, 238, 247, 256 and 265, where the per-type analyses call `json.loads` on an LLM reply without a `try`;
  - at line 77, in `_generate_visualizations` (plotting).
- `TagRecords.Record`: the `type` and `content` of a tag are strings or absent. Other JSON values are not modelled:
  - a list or object there makes the key unhashable, so `key not in seen` raises a `TypeError` (core/plans/dataset_log_analyzer.py:361, core/plans/log_analyzer.py:300);
  - a number or boolean type follows Python truthiness in grouping (lines 345 and 284), so `0` and `false` are dropped, and `1` and `true` are the same key in de-duplication and in grouping.
- `JsonCleanup.Clean`: the rewrites are applied to the whole reply text, including the inside of JSON string literals, exactly as the source's `re.sub` calls are. The model makes no claim that the decoded value is unchanged by the cleanup.
- `JsonCleanup.IsSpace`: Python's `str.isspace()` and the `\s` class of `re` on `str` are taken to accept the same characters, listed as code-point ranges. The lemmas hold for any whitespace class with the newline and without brackets.
