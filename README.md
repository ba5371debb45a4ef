# translator: a Dafny model of the cleaning and translation batch scripts

The repository holds two batch scripts over tab-separated tables whose rows
carry an `ils._title` and an `ils.body` field:

- `clean_text.py` strips HTML from both fields of every English table
  (`*eng_Latn.csv`) and writes a copy with two added columns,
  `ils._title_translated` and `ils.body_translated`, holding the cleaned text.
- `translate.py` does the same for every `*.csv` table, but also splits the
  cleaned text into sentences, translates each sentence to `eng_Latn` and joins
  the translations with single spaces. It also contains a greedy sentence
  packer, `create_chunks`, which the live code path does not call.

The model keeps the scripts' own sequential logic and turns every library
call into a parameter:

- `pystr.dfy` (module `PyStr`): the Python string operations the scripts use,
  with CPython's semantics. These are `str.join`, `str.endswith`, `in`,
  `str.replace` (every non-overlapping occurrence, scanning left to right),
  `str.rpartition` (split at the last occurrence) and `os.path.join` for a
  plain file name. It also has the filtering list comprehension.
- `chunking.dfy` (module `Chunking`): `create_chunks` as an imperative loop.
  It is proved against `Groups`, a specification function over the consumed
  prefix, and the chunking properties are proved as lemmas about `Groups`.
- `frame.dfy` (module `Frames`): table cells (`Missing` for `NaN`, `Text`, or
  `Other` for a number or boolean), the exceptions the scripts tell apart,
  and the DataFrame as a class whose `columns` map the scripts update in
  place. It also has the loop that both batch drivers share: a written table
  is collected, `None` is skipped, and an escaping exception ends the loop.
- `translate.dfy` (module `Translate`): `translate_text`,
  `translate_csv_file` and `translate_all_csv_files`. BeautifulSoup,
  `sent_tokenize` and the translation pipeline are the three functions of a
  `Services` value. Each returns `Ok` or `Raised`. `TranslateText` returns
  its value together with the trace of library calls it made, so call counts
  and call order can be stated.
- `clean_text.dfy` (module `Clean`): `clean_text`, `clean_csv_file` and
  `clean_all_csv_files`, with BeautifulSoup's `get_text` as a parameter.

Four behaviours of the code are worth noting:

- The translator's source-language code is the whole file name, extension
  included (translate.py:107). Since
  `TARGET_LANGUAGE` is `"eng_Latn"`, the same-language shortcut at
  translate.py:61 can never fire from the batch driver; an English file is
  sent through the splitter and the translator. `SameLanguageShortcutUnreachable`
  proves this.
- Not every error leaves the batch running. `translate_csv_file` catches only
  `ParserError`, so a table without `ils._title` or `ils.body` raises a
  `KeyError` that ends `translate_all_csv_files`. The title column has
  already been added to the frame in place when the body lookup fails.
- A cell that is neither missing nor a string (a number) reaches the `except`
  branch of `translate_text` if cleaning it raises, and the diagnostic there
  slices `text[:30]`. That raises `TypeError`, which also escapes the batch.
  The model keeps this path (`Fallback`).
- The cleaner's output name comes from `rpartition(".csv")`, so only the last
  `.csv` is replaced, not every occurrence. Its outputs end with
  `eng_Latn_clean.csv`, which the `eng_Latn.csv` suffix test already refuses.
  The `_cleaned` exclusion never matches them.

## Model

| member | source | states |
|---|---|---|
| `PyStr.RPartition` | clean_text.py:49 | the three parts concatenate to the input; the separator part is the separator exactly when it occurs, at the returned position, and no occurrence starts later; without one the result is `("", "", s)` |
| `PyStr.RPartitionFinal` | clean_text.py:49 | for a string ending with the separator, the head of `rpartition` is the string without that final separator |
| `PyStr.Join` | translate.py:74 | the joined string starts with the first element |
| `PyStr.JoinLength` | translate.py:74 | the joined string is as long as all elements together (`SumLen`) plus one separator between each pair of neighbours |
| `PyStr.SumLen` | translate.py:35-45 | the running `current_length`: the summed length of a chunk's sentences, join spaces not counted (a definition; `JoinLength` relates it to `Join`) |
| `PyStr.EndsWith` | translate.py:105 | `s.endswith(suffix)`: the suffix fits and the string's final characters are the suffix (a definition, no contract) |
| `PyStr.Contains` | translate.py:105 | `sub in s`: some position starts a copy of `sub` (a definition; `ContainsFound` relates it to the search) |
| `PyStr.ContainsFound` | translate.py:105 | `sub in s` holds exactly when the search for the last occurrence finds one |
| `PyStr.Replace` | translate.py:109 | `s.replace(pat, repl)`: a pattern swapped for a text of the same length leaves the length unchanged |
| `PyStr.ReplaceAbsent` | translate.py:109 | a string in which the pattern does not occur is returned unchanged |
| `PyStr.PathJoin` | translate.py:108-109 | the joined path ends with the file name |
| `PyStr.Filter` | translate.py:105 | an element is kept exactly when it is in the listing and passes the test; never longer than the listing |
| `PyStr.FilterAppend` | translate.py:105 | the comprehension keeps the listing's order: filtering a concatenation is the concatenation of the filtered parts |
| `PyStr.ReplaceFinalExtension` | translate.py:109 | replacing every `.csv` in `s + ".csv"` gives the replacement of `s` followed by the new text, so the final extension is always replaced |
| `PyStr.EndsWithContains` | translate.py:105 | a string ending with a suffix contains it |
| `PyStr.EndsWithSuffix` | clean_text.py:45 | a string ending with `a + b` ends with `b` |
| `Chunking.Pack` | translate.py:37-45 | the loop state `(chunks, current_chunk)` after a prefix of the sentences, each emitted chunk kept as its sentence list (a definition; the `Pack` lemmas below state its properties) |
| `Chunking.Groups` | translate.py:47-51 | the sentence groups `create_chunks` returns before joining: the emitted groups plus the last one when it is non-empty (a definition; the `Groups` lemmas below state its properties) |
| `Chunking.JoinGroups` | translate.py:43-49 | one chunk string per group, in order, each the single-space join of its group |
| `Chunking.CreateChunks` | translate.py:32-51 | the accumulator loop returns, in order, the space-joined sentence groups of `Groups` |
| `Chunking.PackCovers` | translate.py:37-45 | after any prefix, the emitted groups followed by the current group are that prefix, and the current group is non-empty once a sentence was read |
| `Chunking.PackBounded` | translate.py:39-41 | in every loop state, a group of two or more sentences has summed length at most `max_length` |
| `Chunking.PackEmptyGroup` | translate.py:39-44 | only the first emitted group can be empty, and it is exactly when the first sentence is longer than `max_length` |
| `Chunking.PackGreedy` | translate.py:39-45 | every emitted group would have overflowed had it taken the next sentence |
| `Chunking.GroupsPreserveOrder` | translate.py:32-51 | concatenating the chunks' sentences in order gives back the input; there are no chunks exactly when there are no sentences |
| `Chunking.GroupsBounded` | translate.py:38-45 | any chunk of two or more sentences has summed sentence length (join spaces not counted) at most `max_length`; only a lone sentence may exceed it |
| `Chunking.GroupsEmptyChunk` | translate.py:39-49 | stated of sentence groups, before joining: an empty group can only be the first, and the first is empty exactly when the first sentence is longer than `max_length` |
| `Chunking.GroupsGreedy` | translate.py:39-45 | each chunk after the first is non-empty, and its first sentence would have pushed the previous chunk past `max_length` |
| `Chunking.ChunksEmpty` | translate.py:32-51 | stated of the returned chunk strings, when no sentence is empty: a chunk is `""` exactly when it is the first and the first sentence is longer than `max_length` |
| `Chunking.EmptySentenceMakesLateEmptyChunk` | translate.py:32-51 | with an empty sentence, a later chunk can be `""` too: `create_chunks(["aa", ""], 1)` is `["", "aa", ""]` |
| `Frames.Frame.constructor` | translate.py:87 | the frame holds the columns that were read |
| `Frames.Frame.Column` | translate.py:91 | `df[name]` gives the column when present and raises `KeyError(name)` otherwise |
| `Frames.Frame.HasColumn` | clean_text.py:22 | `name in df.columns` (a definition, no contract) |
| `Frames.Frame.Assign` | translate.py:91 | `df[name] = cells` adds or replaces that one column and leaves every other column as it was |
| `Frames.RunBatch` | translate.py:106-112 | the batch loop writes at most one table per selected file |
| `Frames.RunBatchEscapes` | translate.py:106-112 | the loop finishes exactly when no file lets an exception escape; otherwise it ends with an exception one of the files raised |
| `Frames.RunBatchConcat` | translate.py:106-112 | running the loop over two lists one after the other, when the first finishes without an escape, writes the first list's tables and then the second's, and ends as the second run does |
| `Frames.RunBatchStopsAtFirstEscape` | translate.py:106-112 | the loop ends at the first file, in listing order, whose exception escapes, with that exception; it keeps the tables written for the files before it and writes nothing for later files |
| `Frames.RunBatchAppendFile` | translate.py:106-112 | after files that ran without an escape, one more file appends its table if it writes one, leaves the batch as it was if it gives `None`, or ends it with its exception |
| `Frames.RunBatchAdvance` | clean_text.py:46-52 | one iteration either ends the batch with the escaping exception or keeps the loop invariant, with the written table appended when there is one |
| `Frames.RunBatchBounds` | clean_text.py:46-52 | the loop invariant holds before the first file and gives the whole batch with no escape after the last |
| `Frames.RunBatchPaths` | clean_text.py:46-52 | a property of every written file's path holds of every path the batch reports |
| `Translate.TranslateSentencesSpec` | translate.py:71 | the comprehension calls the translator once per sentence, in order, and stops at the first call that raises; it succeeds exactly when no call raised, and then holds each sentence's translation at that sentence's index; a failure raises the exception of the last call made |
| `Translate.TranslateSentences` | translate.py:71 | at most one translator call per sentence; which calls and what result are stated by `TranslateSentencesSpec` |
| `Translate.TranslateOne` | translate.py:71 | one `translator(sentence, src_lang=src, tgt_lang="eng_Latn")` call with its outcome (a definition, no contract) |
| `Translate.Fallback` | translate.py:77-79 | the `except` branch returns the original value, except that for a non-string cell the `text[:30]` slice raises `TypeError` |
| `Translate.TranslateText` | translate.py:54-79 | a missing value is returned unchanged with no library call; otherwise cleaning is the first call; for `src_lang == "eng_Latn"` the cleaning is the only call and the result is the cleaned text (the original when cleaning raised); otherwise the trace is exactly the cleaning, then (if it succeeded) the splitting, then the translator calls of the comprehension; only a non-string cell can make it raise, with `TypeError` |
| `Translate.TranslateTextSucceeds` | translate.py:64-76 | when nothing raises, the result is the per-sentence translations joined by single spaces, after one cleaning, one splitting and exactly one translator call per sentence in sentence order; no sentences give `""` |
| `Translate.TranslateSentencesFailure` | translate.py:71 | a translator call that raises is the last one made, and the comprehension raises |
| `Translate.TranslateTextFailure` | translate.py:57-79 | once any cleaning, splitting or translator call raises, no further call is made and the result is the original, uncleaned value (a `TypeError` for a non-string cell), never a partial translation |
| `Translate.SomeServiceRaises` | translate.py:57-71 | the cleaning, the splitting or the translation of one of the sentences raises (a definition, no contract) |
| `Translate.TranslateTextFallsBack` | translate.py:56-79 | for a present value, whenever the cleaning, the splitting or any sentence's translation raises, the result is the original value (or the `TypeError` of a non-string cell), never a partial translation |
| `Translate.TranslateColumn` | translate.py:91 | the applied column succeeds exactly when every cell does, has the input's row count and holds `translate_text` of each cell; when it raises, some non-string cell raised that exception |
| `Translate.TranslatedColumns` | translate.py:89-94 | with both columns present and nothing escaping, exactly the two new columns are added, each as long as its source column and holding `translate_text` of each cell, and every other column is unchanged; a missing `ils._title` raises `KeyError` with the frame untouched; a title cell that raises ends it with that cell's `TypeError`, frame untouched; a missing `ils.body` raises `KeyError`, and a body cell that raises ends it with that `TypeError`, in both cases after the title column was added; nothing else can escape |
| `Translate.CatchParserError` | translate.py:99-101 | a `ParserError` becomes `None`; any other exception escapes unchanged |
| `Translate.TranslateFile` | translate.py:82-101 | `None` exactly when reading the file raised `ParserError`; any other read error escapes unchanged; a readable table whose two columns translate is written to the given output path with the translated columns; otherwise the `KeyError` of a missing column or the `TypeError` of a cell escapes |
| `Translate.TranslateCsvFile` | translate.py:82-101 | the in-place DataFrame procedure gives exactly the outcome `TranslateFile` specifies |
| `Translate.TranslateAllCsvFiles` | translate.py:104-112 | the driver loop over the filtered listing gives exactly the batch of `TranslateFile` outcomes, stopping at the first exception that escapes |
| `Translate.TranslateStep` | translate.py:107-110 | one iteration of the driver: `translate_csv_file` on the joined input path, the translated output path and the file name as source language (a definition, no contract) |
| `Translate.TranslateSelected` | translate.py:105 | a listed file is translated when its name ends with `.csv` and does not contain `_translated` (a definition, no contract) |
| `Translate.SourceLanguage` | translate.py:107 | the source-language code is the file name itself (a definition, no contract) |
| `Translate.TranslateOutputPath` | translate.py:108-109 | the output path is the joined path with every `.csv` replaced by `_translated.csv` (a definition; `TranslateOutputPathEnds` states its suffix) |
| `Translate.TranslateOutputPathEnds` | translate.py:109 | the output path of a `.csv` file ends with `_translated.csv` |
| `Translate.TranslatedNameRefused` | translate.py:105 | no name ending with `_translated.csv` passes the file filter |
| `Translate.TranslateBatchOutputs` | translate.py:105-110 | every table the batch writes goes to a path ending with `_translated.csv`, which the filter would not select again |
| `Translate.SameLanguageShortcutUnreachable` | translate.py:61-64 | with the file name as source language (translate.py:107), a selected file is never `eng_Latn`, so every present value that cleans goes to the sentence splitter |
| `Clean.CleanText` | clean_text.py:7-11 | a value that is not a string is returned unchanged; a string becomes its HTML text content |
| `Clean.CleanColumn` | clean_text.py:27-31 | the cleaned column has the input's row count, and entry i is `clean_text` of entry i |
| `Clean.CleanedColumns` | clean_text.py:22-31 | there is no result exactly when `ils._title` or `ils.body` is missing; otherwise exactly the two new columns are added, with matching row counts and entry i cleaned from entry i, and existing columns are untouched |
| `Clean.CatchCleanErrors` | clean_text.py:36-41 | `ParserError` and `KeyError` become `None`; anything else escapes |
| `Clean.CleanFile` | clean_text.py:14-41 | a missing required column gives `None` and no output; with both present the cleaned table is written to the output path; once the file is read, nothing escapes |
| `Clean.CleanCsvFile` | clean_text.py:14-41 | the in-place DataFrame procedure gives exactly the outcome `CleanFile` specifies |
| `Clean.CleanOutputPathShape` | clean_text.py:49 | for a `.csv` file the output path is the joined path minus its final `.csv`, plus `_clean.csv` |
| `Clean.CleanedNameRefused` | clean_text.py:45 | no name ending with `_clean.csv` passes the file filter |
| `Clean.SwappedExtensionRefused` | clean_text.py:45-49 | a path ending with `eng_Latn.csv`, with `.csv` swapped for `_clean.csv`, ends with `eng_Latn_clean.csv` and fails the file filter |
| `Clean.CleanOutputRefused` | clean_text.py:45-49 | a selected file's output path ends with `eng_Latn_clean.csv` and would not be selected again |
| `Clean.CleanAllCsvFiles` | clean_text.py:44-52 | the driver loop over the filtered listing gives exactly the batch of `CleanFile` outcomes |
| `Clean.CleanStep` | clean_text.py:47-50 | one iteration of the driver: `clean_csv_file` on the joined input path and the `_clean.csv` output path (a definition, no contract) |
| `Clean.CleanSelected` | clean_text.py:45 | a listed file is cleaned when its name ends with `eng_Latn.csv` and does not contain `_cleaned` (a definition, no contract) |
| `Clean.CleanOutputPath` | clean_text.py:49 | the output path is the joined path up to its last `.csv`, plus `_clean.csv` (a definition; `CleanOutputPathShape` and `CleanOutputRefused` state its shape) |
| `Clean.CleanBatchOutputs` | clean_text.py:45-49 | every table the batch writes goes to a path ending with `eng_Latn_clean.csv`, which the filter would not select again |

## Left out

- HTML parsing (BeautifulSoup, translate.py:27-29, clean_text.py:10-11), sentence tokenization (NLTK, translate.py:8-10, 64) and the neural translation pipeline (translate.py:17-24, 71) are foreign libraries. They are parameters; only whether they raise, and what they return, enters the model.
- In clean_text.py, `get_text` on a string is taken not to raise. The model of clean_text.py has no path for an exception from it.
- `MAX_LENGTH` (translate.py:14) only configures the pipeline and the commented-out chunking call (translate.py:67-68), so `create_chunks` is modelled with its bound as a parameter.
- Reading and writing files (`pd.read_csv`, `df.to_csv`), `os.listdir`, the model download and device selection are I/O. A read is a parameter that gives the columns or an exception. A write is the `Saved` outcome. Errors raised while writing are not modelled.
- Column order and the header/index layout of the written file are not modelled: a table is a map from column name to cells.
- `os.path.join` is modelled for a plain file name, which is what `os.listdir` returns. An absolute second argument is not modelled.
- Progress bars, `print` diagnostics and the module-level entry code (translate.py:116-121, clean_text.py:56-61) are not modelled. The diagnostic in the `except` branch of `translate_text` is modelled only through the `TypeError` its slicing raises for a non-string cell.
- `clean_csv_file`'s `src_lang` argument is only printed, so the model does not take it.
- `Frames.RunBatch`: its own contract only bounds the number of written tables. The lemmas beside it state the rest: `RunBatchStopsAtFirstEscape` (stops at the first escaping file, in order), `RunBatchAppendFile` and `RunBatchConcat` (which tables are written, in order), `RunBatchEscapes` and `RunBatchPaths`.
