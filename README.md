# Litesizer 500 export reader — verified model

The Anton Paar Litesizer 500 particle analyser exports each measurement as a
single-sheet workbook with no fixed layout: labels such as "Workbook name"
or "Comment" sit at unpredictable rows, and the value belonging to a label
is the cell to its right. The reader loads the sheet as an untyped grid and
searches it for labels. A batch helper walks a list of export files, parses
the sample identifier out of each file name and collects one record per
export.

This project models that core in Dafny:

- `grid.dfy` (module `Grids`): the sheet as a rectangular grid of cells
  `Text | Num | Empty`, column-prefix views (`df[[0, 1]]`), and the two
  cell tests the lookups use: type-sensitive equality (`isin`) and a
  case-sensitive substring test on text cells only (`str.contains(...,
  na=False, case=True)`).
- `locate.dfy` (module `Locate`): every position whose cell passes a test,
  column by column (`get_positions_of_value`, an imperative nested loop)
  or row by row (the `stack` order used by
  `get_adjacent_value_containing`).
- `adjacent.dfy` (module `Adjacent`): `{label: right neighbour}` when the
  label occurs exactly once, `{}` when it occurs zero or several times, and
  an `IndexError` when its one occurrence is in the last column.
- `litesizer.dfy` (module `Litesizer`): the `Litesizer500` class, whose
  `GetSampleInformation` assigns the four metadata attributes one by one
  from the label columns 0–1, and the pure specification of that lookup.
- `stem.dfy` (module `Stem`): the file-stem pattern
  `LS(\d{8})_([LR]\d{8}-\d{3})-(\d*)`, as the leftmost match of a fixed
  25-character template followed by a greedy digit run.
- `batch.dfy` (module `Batch`): `get_litesizer500_data_from_list`, the
  per-file loop that aborts on a stem without a match and skips files
  whose `try` block raises.
- `wrappers.dfy` (module `Wrappers`): `Option` and `Result`.

Python exceptions are modelled as `Result.Failure` with a `Fault`
(`KeyError`, `IndexError`); an attribute that has not been assigned yet is
`None`.

A unique label in the last column has no right neighbour: `iloc` at
`col + 1` raises `IndexError` (`litesizer_500.py:78-79`), and the model
raises too (`Adjacent.LastColumnLabelRaises`).

## Model

| member | source | states |
|---|---|---|
| `Grids.View` | litesizer_500.py:27 | `df[[0, ..., k-1]]` keeps every row, has exactly the positions of the first `k` columns, and agrees with the sheet on each of them |
| `Locate.PositionsOfSpec` | litesizer_500.py:50-63 | about `Locate.PositionsOf`, the hit scan of `get_positions_of_value` and of the `stack` walk: a position is listed iff it lies in the sheet and its cell passes the test; the list is strictly ascending in the scan order, so no position appears twice |
| `Locate.GetPositionsOfValue` | litesizer_500.py:42-66 | the nested loop returns exactly the positions whose cell equals the value (type-sensitive), grouped by ascending column with rows ascending inside a column, no duplicates |
| `Adjacent.SingletonIffUnique` | litesizer_500.py:75 | the hit list has length one iff exactly one cell passes the test, and then its element is that cell |
| `Adjacent.AdjacentValueSpec` | litesizer_500.py:68-86 | about `Adjacent.AdjacentValue`, which models `get_adjacent_value`: `{}` iff the value occurs zero times or more than once; with one occurrence at (r, c) the result is `{value: cell (r, c+1)}`, or `IndexError` when c is the last column |
| `Adjacent.AdjacentValueContainingSpec` | litesizer_500.py:88-112 | about `Adjacent.AdjacentValueContaining`, which models `get_adjacent_value_containing`: `{}` iff zero or several text cells contain the fragment; with one such cell, `{full cell: right neighbour}` or `IndexError` in the last column; every key is a text cell containing the fragment, so numeric and empty cells never match |
| `Adjacent.AdjacentValueStableUnderView` | litesizer_500.py:72-82 | narrowing the sheet to a prefix of columns that still holds the unique label and its neighbour does not change the result |
| `Adjacent.LastColumnLabelRaises` | litesizer_500.py:78-79 | on any sheet, a label that occurs exactly once and sits in the last column raises `IndexError` instead of resolving to nothing |
| `Litesizer.LabelValue` | litesizer_500.py:27-28 | `list(get_adjacent_value(df[[0, 1]], label).values())[0]` fails with `KeyError` on a sheet narrower than two columns and with `IndexError` otherwise |
| `Litesizer.LabelValueSpec` | litesizer_500.py:27-28 | the lookup succeeds iff the label occurs exactly once in columns 0–1 and that occurrence is in column 0, and then yields the cell in column 1 of its row |
| `Litesizer.SampleInformation` | litesizer_500.py:25-37 | the four lookups in order; a failure is `KeyError` for a sheet narrower than two columns and `IndexError` otherwise |
| `Litesizer.SampleInformationSpec` | litesizer_500.py:25-37 | the sample information resolves iff each of the four labels occurs once in columns 0–1, in column 0; each field is then the cell beside its label |
| `Litesizer.ExampleWorkbookName` | litesizer_500.py:27-37 | on a small sheet the workbook name resolves to the cell beside its label, and a missing "Comment" label raises `IndexError` |
| `Litesizer.Litesizer500.constructor` | litesizer_500.py:12-20 | the loaded sheet is stored and no metadata attribute is set yet |
| `Litesizer.Litesizer500.Create` | litesizer_500.py:12-22 | constructing the reader fails exactly when the sample information fails, with the same exception; on success the four attributes hold the resolved values |
| `Litesizer.Litesizer500.GetSampleInformation` | litesizer_500.py:25-37 | assigns the four attributes in order; on the first failing lookup it raises that lookup's exception, keeping the attributes already assigned and leaving the later ones unchanged |
| `Stem.DigitRunEnd` | litesizer_500_utils.py:28 | the greedy `\d*`: the run from `k` to the result is all digits and is followed by the end of the stem or a non-digit |
| `Stem.FindTemplate` | litesizer_500_utils.py:36 | the result is the leftmost index at or after `from` where the fixed part of the pattern matches, or `None` when it matches nowhere there |
| `Stem.ParseStemSpec` | litesizer_500_utils.py:36-40 | about `Stem.ParseStem`, which models `re.findall(pattern, stem)[0]`: no identifier iff the pattern matches nowhere; otherwise test id is the 8 digits after `LS`, the file-name id is the 13 characters `[LR]`, 8 digits, `-`, 3 digits, and the run number is the longest (possibly empty) digit run after the next `-`, all taken from the leftmost match |
| `Stem.MatchedAtUnique` | litesizer_500_utils.py:36-40 | the groups of the leftmost match are unique: any leftmost match with a maximal run gives exactly the parsed identifier |
| `Stem.MaximalRunIsDigitRun` | litesizer_500_utils.py:28 | every maximal digit run from `k` ends where the greedy `\d*` stops |
| `Stem.ParseFormat` | litesizer_500_utils.py:28-40 | round trip: a well-formed identifier written as `LS<test>_<id>-<run>` is read back unchanged, whatever `L`-free text precedes it and whatever non-digit text follows it |
| `Stem.ParseExampleStem` | litesizer_500_utils.py:36-40 | `LS20230401_L00000001-002-1` gives test id `20230401`, file-name id `L00000001-002`, run number `1` |
| `Stem.EmptyRunNumber` | litesizer_500_utils.py:28 | the stem `LS20230401_R12345678-003-` gives an empty run number, since the greedy `\d*` may match nothing |
| `Batch.Collect` | litesizer_500_utils.py:26-65 | the only exception that escapes the call is `IndexError`, and it never returns more records than files |
| `Batch.CollectRecordsIdentified` | litesizer_500_utils.py:36-52 | every record carries the test id, file-name id and run number parsed from its own file name |
| `Batch.CollectSingle` | litesizer_500_utils.py:31-63 | a single file yields its record when the `try` block succeeds, nothing when it raises, and an abort when its stem has no match |
| `Batch.CollectFailureExtends` | litesizer_500_utils.py:36-42 | once a prefix of the files aborts, the whole call aborts |
| `Batch.CollectFailsIff` | litesizer_500_utils.py:36-42 | the call aborts iff some file's stem has no match, wherever that file is in the list |
| `Batch.CollectConcat` | litesizer_500_utils.py:29-65 | files are processed independently and in input order: the output for `a + b` is the output for `a` followed by the output for `b` |
| `Batch.GetDataFromList` | litesizer_500_utils.py:26-65 | the loop returns exactly `Collect(files)` |

## Left out

- Loading the workbook (`pd.read_excel` with openpyxl, `litesizer_500.py:15-20`) is file I/O; the grid is a parameter. The padding of ragged rows with NaN happens in that loader and is assumed: the grid is rectangular.
- Numeric cells are integers; pandas' float cells, int/float equality and NaN handling are library details. `Empty` equals only `Empty`, as NaN does inside `isin`.
- `Adjacent.AdjacentValueContaining` tests for a literal substring. `str.contains` treats its argument as a regular expression, so the model matches the code only for search text without regex metacharacters. The `.str` accessor raising on a row without any string cell is not modelled.
- `Stem.ParseStem` accepts only ASCII digits for `\d`; Python's `\d` also accepts other Unicode decimal digits.
- `GetPositionsOfValue` visits every column. The source first keeps only the columns with at least one hit (`result.any()`); the skipped columns would contribute nothing, so the returned list is the same.
- Column labels and `iloc` positions are taken to coincide. That holds for the whole sheet and for the prefix views `df[[0, 1]]` the code builds; it does not hold for an arbitrary column selection.
- `get_litesizer500_file_list` (`glob` over `LS*.xlsx`), the `tqdm` progress wrapper and `Path(...).stem` are directory and path I/O; each file enters the model as its stem.
- `Batch.FileInput`: what happens inside the `try` block is abstract: the measurement data it read, or `None` when it raised. As written, `Litesizer500` never assigns `hydrodynamic_diameter`, `polydispersity_index` or the `df_psd_*` attributes, so every record build at `litesizer_500_utils.py:48-58` raises `AttributeError` and is skipped. The model does not invent those attributes.
- The particle-size-distribution table extractor and the numeric result fields are not part of the shown source and are not modelled.
