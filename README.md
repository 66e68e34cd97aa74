# CSV merger — a Dafny model of the merge step

The repository is a browser page that merges several CSV files into one table
and offers it for download. Its only logic is `mergeCSVFiles` in
`src/CSVMerger.jsx`. The CSV parser reports each file's header names and its
records. From those, the merge step does three things:

- it collects the header names of every file into an insertion-ordered `Set`;
- it drops every record whose cell values are all blank after `trim()`, and
  appends the rest to a growing `allData` list;
- once every file has finished, it clones each kept record and gives it an
  empty cell for every collected header it lacks. The result replaces the
  page's `mergedData` state only if no file's error callback fired.

The model has five modules:

- `Text` (`text.dfy`): JavaScript's `trim()` and the whitespace it removes.
- `Headers` (`headers.dfy`): the insertion-ordered set of header names, as a
  sequence without duplicates.
- `Rows` (`rows.dfy`): the blank-row filter and the padding of one row.
- `Merger` (`merger.dfy`): the state the completion callbacks share, as the
  class `MergeState`, and the page state `mergedData`, as the class
  `CsvMerger`. `CsvMerger.MergeCsvFiles`, which drives `MergeState`, is
  proved against the function `Merge`.
- `Scenario` (`scenario.dfy`): a two-file example worked through `Merge`,
  plus the empty selection.

A record is a `map<string, string>` from column name to cell text. A file's
parse outcome is a `ParseResult`: `Complete(fields, data)` or `Failed(error)`.
`fields` is `None` when the parser reports no header names.
`CsvMerger.MergeCsvFiles` takes the outcomes in the order their callbacks ran.
Across files, kept rows follow that completion order. The model does not
promise the order of the selected-file list, because the code does not.

## Model

| member | source | states |
|---|---|---|
| Text.IsWhitespace | src/CSVMerger.jsx:34 | every character `trim()` removes lies in the Basic Multilingual Plane, so it is a single UTF-16 code unit |
| Text.TrimStart | src/CSVMerger.jsx:34 | the result is the suffix of the input that starts at its first non-whitespace character; everything dropped is whitespace |
| Text.TrimEnd | src/CSVMerger.jsx:34 | the result is the prefix of the input that ends at its last non-whitespace character; everything dropped is whitespace |
| Text.Trim | src/CSVMerger.jsx:34 | `value.trim()` is empty exactly when every character of the value is whitespace, and otherwise neither starts nor ends with whitespace |
| Text.TrimInfix | src/CSVMerger.jsx:34 | `value.trim()` is a contiguous piece of the value with only whitespace before and after it |
| Headers.Dedup | src/CSVMerger.jsx:26-28 | after adding every reported name to the set, the set has no duplicates and holds exactly the names reported |
| Headers.DedupSnoc | src/CSVMerger.jsx:28 | `Set.add` of one name appends it unless it is already present, and otherwise leaves the set unchanged |
| Headers.DedupFirstOccurrenceOrder | src/CSVMerger.jsx:52 | `Array.from(columnHeaders)` lists the names by first occurrence: if one name comes before another in the list, it was first reported earlier |
| Headers.DedupOrderIff | src/CSVMerger.jsx:52 | both directions: for any two positions in the header list, the first is earlier exactly when its name was first reported earlier |
| Rows.HasContent | src/CSVMerger.jsx:34 | the keep test; a row with no cells at all never passes it |
| Rows.HasContentTrim | src/CSVMerger.jsx:34 | the keep test is the source's `Object.values(row).some(value => value.trim() !== '')` |
| Rows.HasContentIff | src/CSVMerger.jsx:32-35 | a row is kept exactly when some cell is not blank, so a row of blank cells and a row with no cells are both dropped |
| Rows.KeepNonBlank | src/CSVMerger.jsx:32-35 | the filtered rows are never more than the file's rows |
| Rows.KeepNonBlankCount | src/CSVMerger.jsx:32-35 | each row that passes the test is kept as often as it occurs in the file; a row that fails it is never kept |
| Rows.KeepNonBlankMembers | src/CSVMerger.jsx:32-35 | a row is among the filtered rows exactly when it is one of the file's rows and passes the test |
| Rows.KeepNonBlankHasContent | src/CSVMerger.jsx:32-35 | every row the filter keeps passes the keep test |
| Rows.KeepNonBlankAppend | src/CSVMerger.jsx:32 | the filter keeps relative order: filtering a concatenation is concatenating the filtered parts |
| Rows.Padded | src/CSVMerger.jsx:56-62 | the intended padded row: keys are the row's keys plus every header; the row's own cells keep their values; every other cell is `''` |
| Rows.PaddedSnoc | src/CSVMerger.jsx:57-60 | one step of the `forEach`: the next header adds an empty cell only when the row has no cell for it |
| Rows.PadRow | src/CSVMerger.jsx:56-62 | the padded clone has the row's keys plus every header; the row's own cells keep their values; every added cell is `''` |
| Rows.PaddedNoop | src/CSVMerger.jsx:58 | padding a row that already has a cell for every header changes nothing |
| Rows.PaddedIdempotent | src/CSVMerger.jsx:55-63 | padding an already padded row with the same headers changes nothing |
| Rows.PaddedKeepsContent | src/CSVMerger.jsx:59 | padding adds only empty cells, so a padded row passes the keep test exactly when the original did |
| Rows.PaddedExactKeys | src/CSVMerger.jsx:57-60 | a row whose columns are all headers ends up with exactly the headers as its columns |
| Rows.PadAsWritten | src/CSVMerger.jsx:57-61 | the padding loop as written, with the `in` test: the row's own cells are kept with their values; the keys are the row's keys plus every header that is not an inherited name; every added cell is `''` |
| Rows.InheritedHeaderNotPadded | src/CSVMerger.jsx:58 | `header in newRow` (`InOperator`) is true for an own cell or an Object.prototype name, so a header named like an Object.prototype property is never added to a row that lacks it, although intended padding adds it |
| Rows.PadAsWrittenAgrees | src/CSVMerger.jsx:58 | when no header names an inherited property, the padding as written equals the intended padding |
| Merger.AllFields | src/CSVMerger.jsx:26-29 | every collected header name was reported by some completed file |
| Merger.AllKept | src/CSVMerger.jsx:32-37 | every row collected into `allData` passes the keep test |
| Merger.PadAll | src/CSVMerger.jsx:55 | the final table has as many rows as were kept, and row i has kept row i's keys plus every header |
| Merger.Merge | src/CSVMerger.jsx:49-69 | the merge yields no table exactly when some file's error callback fired; otherwise one row per kept row |
| Merger.CompletionStep | src/CSVMerger.jsx:24-39 | helper for the loop invariant of `MergeCsvFiles`: one more completed file adds its header names after those already seen, and its kept rows after those already kept |
| Merger.FailureStep | src/CSVMerger.jsx:40 | after one more completion, some file has failed exactly when one had failed before or this one failed |
| Merger.MergeState.constructor | src/CSVMerger.jsx:16-18 | a merge starts with no kept rows and an empty header set |
| Merger.MergeState.AddHeader | src/CSVMerger.jsx:28 | adding a name keeps the header list equal to the distinct names seen so far, in first-seen order; kept rows are unchanged |
| Merger.MergeState.OnComplete | src/CSVMerger.jsx:24-39 | the callback adds the file's names to the set, or none if the file has no header names; it appends exactly the file's non-blank rows after the rows already kept |
| Merger.MergeState.Finish | src/CSVMerger.jsx:52-63 | the final table has one row per kept row, in the same order; row i is kept row i padded to the header list |
| Merger.CsvMerger.constructor | src/CSVMerger.jsx:6 | the merged table starts empty |
| Merger.CsvMerger.MergeCsvFiles | src/CSVMerger.jsx:15-70 | if the error callback of some file fired, the merged table keeps its previous value; otherwise it is replaced by the padded table of kept rows (`Merge`) |
| Merger.AllFieldsMembers | src/CSVMerger.jsx:26-29 | a name is in the merged header list exactly when some completed file reports it; a file without header names (`if (headers)` false, `FieldsOf(None)`) contributes none |
| Merger.InSomeFileStep | src/CSVMerger.jsx:37 | a row is in some completed file exactly when it is in an earlier one or in the last one |
| Merger.AllKeptMembers | src/CSVMerger.jsx:32-37 | a row is among the merged rows exactly when some completed file has it and it passes the keep test |
| Merger.AllKeptAppend | src/CSVMerger.jsx:37 | rows of earlier completions come before rows of later ones, each file's rows in their own order |
| Merger.MergedRowsHaveContent | src/CSVMerger.jsx:32-63 | no row of a merged table is blank |
| Merger.MergedRowsExactKeys | src/CSVMerger.jsx:52-63 | when each file's rows only have its own header names, every merged row has exactly the merged header names as columns |
| Merger.MergeIdempotent | src/CSVMerger.jsx:55-63 | padding a merged table again with the merged headers changes nothing |
| Scenario.ScenarioContent | src/CSVMerger.jsx:34 | rows with a digit in some cell pass the keep test; a row of empty cells fails it |
| Scenario.CollectTwo | src/CSVMerger.jsx:24-39 | two completions give the first file's names and kept rows followed by the second's |
| Scenario.ScenarioHeaders | src/CSVMerger.jsx:26-28 | header lists a,b and b,c merge to a,b,c |
| Scenario.ScenarioPadFirst | src/CSVMerger.jsx:55-63 | the row {a:1,b:2} padded to a,b,c gains c:'' |
| Scenario.ScenarioPadSecond | src/CSVMerger.jsx:55-63 | the row {b:3,c:4} padded to a,b,c gains a:'' |
| Scenario.ScenarioKept | src/CSVMerger.jsx:32-37 | in the example, `allData` is the full row of the first file followed by the row of the second; the row of empty cells is dropped |
| Scenario.ScenarioFields | src/CSVMerger.jsx:26-28 | in the example, the names reported in completion order are a, b, b, c |
| Scenario.TwoFileScenario | src/CSVMerger.jsx:15-70 | files (a,b: 1,2 and a blank row) and (b,c: 3,4) merge to [{a:1,b:2,c:''},{a:'',b:3,c:4}] |
| Scenario.EmptySelection | src/CSVMerger.jsx:49-65 | with no file there is nothing to wait for, and the merge yields an empty table |

## Left out

- CSV parsing and serialising (`Papa.parse` and `Papa.unparse`, src/CSVMerger.jsx:23-42 and 74) are an external codec. A parse outcome is an input. Tokenising, quoting and the downloaded text are not modelled.
- Asynchrony (src/CSVMerger.jsx:22, 38, 45, 49): the completions are a sequence processed in order. Three things are not modelled: the link between the selected files and their completions, the interleaving of callbacks, and `Promise.all` rejecting before the remaining callbacks have run. None of these changes the final `mergedData`.
- The logging of a failure (`console.error`, src/CSVMerger.jsx:68) is I/O. A failure shows only as the unchanged table.
- Cell values are strings. The parser's `__parsed_extra` array, which it adds for over-long records, is not modelled. On that array `trim()` would throw.
- A throw inside the completion callback (`trim()` on `__parsed_extra`, or `allData.push(...filteredData)`, src/CSVMerger.jsx:37, past the engine's argument limit on a very large file) leaves that file's promise pending, so `Promise.all` never settles and `mergedData` stays unchanged. The model has no such outcome: `MergeCsvFiles` always produces a table when no error callback fired.
- `trim()` works on UTF-16 code units and the model works on Unicode characters. Every character JavaScript treats as trimmable whitespace is in the Basic Multilingual Plane (`Text.IsWhitespace`), so the blank test agrees.
- A row is a `map`, so the order of a row's keys, and with it the column order of the downloaded file, is not modelled.
- React state hooks, the file input (`handleFileChange`, src/CSVMerger.jsx:9-12), rendering, and the download button are not modelled. The button is shown only when `mergedData` is non-empty. The download itself (Blob, URL, anchor click, src/CSVMerger.jsx:73-100) is not modelled either. `src/App.js` only renders the component and is not part of this model.
- Padding guarantees each row's own keys plus every header, not exactly the header set (`Rows.PadRow`). The exact-key form is proved only when each file's rows have no keys outside that file's header names (`Merger.MergedRowsExactKeys`).
- Across files, rows follow completion order, not the order of the file list. A file without header names is not rejected: it contributes no names and its rows are still filtered and merged.
- The main flow (`Rows.PadRow`, `Merger.MergeState.Finish`) uses the corrected own-key test from the finding below. The as-written `in` test is modelled separately, in `Rows.PadAsWritten`.

## Findings

| source | as written | input that shows it | evidently intended | confidence | as-written member | corrected member |
|---|---|---|---|---|---|---|
| src/CSVMerger.jsx:58 | `!(header in newRow)` is false for a header that names a property every object inherits from Object.prototype (`constructor`, `toString`, `valueOf`, ...), so no empty cell is added for it | one file with header `constructor`, another file with header `x` and the row `{x: "1"}`: the padded row has no `constructor` cell | every row gets `''` for every collected header it has no own cell for | not executed; high (it follows from the semantics of the `in` operator) | Rows.InheritedHeaderNotPadded | Rows.PadRow |
