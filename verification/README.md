# Column contracts of the DfE attendance fetch scripts

This project models the column-contract step of two download scripts. Each script takes a table it has
downloaded, checks that the table has the columns a consumer needs, and narrows the table to those columns.
The model is written in Dafny and its properties are proved.

- `scripts/extract_columns_weekly.py` is the weekly extractor. It parses a comma-separated required-column
  list and rejects an empty one. It checks the shape of the rename map. It renames the table's columns,
  and it fails if any required column is still missing. Otherwise it keeps exactly the required columns,
  in the required order.
- `scripts/fetch_dfe.py` is the year-to-date fetcher. It parses an optional keep-list. It checks that every
  kept column other than `pa_perc` is present. It keeps the kept columns that are present, in keep-list
  order. It adds `pa_perc` as a blank column when it is absent. Only then does it rename `education_phase`
  to `school_type`. It also builds the file name of the dated snapshot.

A table is a list of column names plus rows. Each row holds one cell per column. A cell is either text or
`Blank`, which stands for pandas' `pd.NA`. Each script run is a pure function that returns
`Ok(table)` or `Err(reason)`. The modules are:

| module | file | contents |
|---|---|---|
| `Results` | results.dfy | `Result` = `Ok` / `Err` |
| `Text` | text.dfy | Python's `strip`, `split(",")`, `join` and `replace` |
| `ColumnLists` | column_lists.dfy | parsing a comma-separated column list |
| `Tables` | tables.dfy | tables, filters over name lists, `df[names]`, `df.rename`, the blank back-fill |
| `WeeklyExtract` | weekly_extract.dfy | the weekly extractor |
| `YtdFetch` | ytd_fetch.dfy | the year-to-date fetcher and its snapshot name |

Each filtered name list (the missing columns, the present subset, the keep-list less `pa_perc`) is
specified without reference to its recursion. The result is a subsequence of the input list. It holds every
occurrence of the selected names and no other name, which is stated with multiset counts.

The two scripts differ in the following ways, and the model keeps both versions side by side:

- The weekly extractor renames before the presence check. The fetcher renames after projecting, so its
  keep-list has to name `education_phase`, not `school_type`.
- The weekly extractor exempts no column. The fetcher exempts `pa_perc` and always ends with a `pa_perc`
  column. If the keep-list is non-empty and does not name `pa_perc`, the source's `pa_perc` is projected
  away and then comes back blank (`YtdFetch.PreparedColumns`).
- The snapshot name replaces `.csv` as text. An output name without `.csv` therefore gives a snapshot name
  equal to the output name (`YtdFetch.SnapshotName`).

## Model

| member | source | states |
|---|---|---|
| `Text.Strip` | scripts/extract_columns_weekly.py:18 | `c.strip()` gives a slice of `c` with no white space at either end and only white space around it, using Python's `isspace` set |
| `Text.StripUnique` | scripts/extract_columns_weekly.py:18 | any slice with no white space at its ends and only white space around it is the stripped string, so the strip is fully determined |
| `Text.StripKeepsStripped` | scripts/extract_columns_weekly.py:18 | a string with no white space at either end is unchanged by `strip()` |
| `Text.Split` | scripts/extract_columns_weekly.py:18 | `split(",")` gives at least one piece; no piece contains the separator; joining the pieces with the separator gives back the original text |
| `Text.SplitJoin` | scripts/extract_columns_weekly.py:18 | splitting a joined list of comma-free pieces returns those pieces |
| `ColumnLists.Parse` | scripts/extract_columns_weekly.py:18 | the names are the comma-separated pieces, each stripped, with the blank ones dropped: a subsequence of the stripped pieces holding every occurrence of each non-empty one and no empty one; every name is non-empty, comma-free and has no white space at either end |
| `ColumnLists.StrippedNonBlankSelects` | scripts/fetch_dfe.py:27 | keeping the non-blank stripped pieces keeps them in order, each as often as it occurs, and drops exactly the empty ones |
| `ColumnLists.ParseBlank` | scripts/fetch_dfe.py:27 | blank text, including the empty string, parses to the empty list |
| `ColumnLists.ParseJoin` | scripts/extract_columns_weekly.py:18 | parsing is the inverse of writing well-formed names out with commas |
| `Tables.Missing` | scripts/extract_columns_weekly.py:43 | the missing list is the subsequence of the required list holding exactly the occurrences of names absent from the header |
| `Tables.Present` | scripts/fetch_dfe.py:40 | the present subset is the subsequence of the keep-list holding exactly the occurrences of names in the header |
| `Tables.Without` | scripts/fetch_dfe.py:31 | the required list is the keep-list with every `pa_perc` occurrence removed and nothing else changed |
| `Tables.PresentWithExemption` | scripts/fetch_dfe.py:31-41 | if nothing but the exempt name can be absent, the present subset is the whole keep-list when the exempt name is present, and the keep-list less that name when it is absent |
| `Tables.Project` | scripts/extract_columns_weekly.py:49 | `df[names]` has header `names` in the given order and keeps every row; each cell is the source cell under the same column name |
| `Tables.ProjectTwice` | scripts/extract_columns_weekly.py:49 | projecting to distinct names `a` and then to names taken from `a` equals projecting straight to the latter |
| `Tables.RenameColumns` | scripts/extract_columns_weekly.py:39-40 | each column is renamed in place and independently; a column the map does not mention keeps its name |
| `Tables.RenamedMembership` | scripts/extract_columns_weekly.py:39-43 | after renaming, a name is in the header exactly when a column carried it and was not renamed, or when some column was renamed to it |
| `Tables.RenameTable` | scripts/extract_columns_weekly.py:40 | renaming leaves the rows untouched and renames each column where it stands; afterwards a name is a column exactly when some column kept it or was renamed to it |
| `Tables.RenameNothing` | scripts/extract_columns_weekly.py:39-40 | an empty rename map leaves the table as it is, so skipping the rename for an empty map changes nothing |
| `Tables.EnsureColumn` | scripts/fetch_dfe.py:44-45 | afterwards the column is present; if it was absent it is appended last, blank in every row, and the other cells are unchanged; if it was present the table is unchanged |
| `WeeklyExtract.Extract` | scripts/extract_columns_weekly.py:18-49 | an empty required list is the error `EmptyRequiredList`, and that is its only cause; an undecodable or non-object rename map is rejected next; otherwise the outcome is the strict check and narrowing applied to the renamed table; on success the header equals the required list and no row is lost |
| `WeeklyExtract.SelectRequired` | scripts/extract_columns_weekly.py:42-49 | fails exactly when some required column is absent after renaming, reporting the absent ones in required order with the available header; otherwise keeps exactly the required columns, every row, and each cell under its name |
| `WeeklyExtract.ExtractSucceedsIff` | scripts/extract_columns_weekly.py:38-46 | the run succeeds exactly when the list is non-empty, the map usable, and each required column either survives unrenamed or is the new name of some source column |
| `WeeklyExtract.ExtractKeepsCells` | scripts/extract_columns_weekly.py:39-49 | each output cell is the source cell whose column, once renamed, carries the output column's name |
| `WeeklyExtract.ConfigErrorsIgnoreTable` | scripts/extract_columns_weekly.py:18-30 | an empty list or a bad rename map gives the same error whatever the table, so the failure happens before any table work |
| `WeeklyExtract.ExtractIdempotent` | scripts/extract_columns_weekly.py:49 | with distinct required names, re-running on the output with no renames gives the same output back |
| `WeeklyExtract.SelectRequiredOnOutput` | scripts/extract_columns_weekly.py:42-49 | selecting distinct required columns from the selection's own output passes the check and returns that output |
| `WeeklyExtract.RenameExample` | scripts/extract_columns_weekly.py:38-49 | with `education_phase` renamed to `school_type`, a table with `education_phase,pa_perc` yields exactly `school_type,pa_perc` with its rows intact |
| `YtdFetch.ParseKeepList` | scripts/fetch_dfe.py:27 | the keep-list is the parsed `KEEP_COLS`; the special case for an empty setting agrees with parsing it; every item is a well-formed name |
| `YtdFetch.Narrow` | scripts/fetch_dfe.py:29-41 | with no keep-list the table is untouched; otherwise it fails exactly when a kept column other than `pa_perc` is absent, reporting exactly those columns in keep order; on success the header is the keep-list, less `pa_perc` when the source lacks it, and each kept cell is the source cell under the same column name |
| `YtdFetch.Prepare` | scripts/fetch_dfe.py:43-45 | it fails exactly when narrowing fails and with narrowing's report; after the back-fill `pa_perc` is always a column, rows are aligned and none is lost, and every cell is the source cell under the same name except a source `pa_perc` that the keep-list left out |
| `YtdFetch.Fetch` | scripts/fetch_dfe.py:27-49 | the run fails exactly when the parsed keep-list is non-empty and a kept column other than `pa_perc` is absent; the report is exactly those columns in keep-list order, so `pa_perc` is never reported; on success `pa_perc` is a column and every row survives |
| `YtdFetch.FetchRenamesLast` | scripts/fetch_dfe.py:47-49 | the output is the prepared table with `education_phase` read as `school_type` at every position; every other name and all rows are unchanged |
| `YtdFetch.FetchChecksBeforeRename` | scripts/fetch_dfe.py:31-49 | a keep-list naming `school_type` fails with `school_type` reported missing when the source lacks it, even if the source has `education_phase` |
| `YtdFetch.PreparedColumns` | scripts/fetch_dfe.py:40-45 | before the rename the header is the keep-list when `pa_perc` is both kept and present, otherwise the keep-list without `pa_perc` followed by `pa_perc`; with no keep-list it is the source header, with `pa_perc` appended if absent |
| `YtdFetch.BackfilledPaPercIsBlank` | scripts/fetch_dfe.py:44-45 | whenever `pa_perc` had to be added, it is the last column, every row's last cell is blank, and every other cell is the narrowed table's |
| `YtdFetch.FetchWithoutKeepList` | scripts/fetch_dfe.py:29-49 | with no keep-list the run succeeds, every source column survives under its renamed name, and each row is the source row, plus a blank cell if `pa_perc` was absent |
| `YtdFetch.ExemptExample` | scripts/fetch_dfe.py:31-45 | a source with only `school_type`, kept as `school_type,pa_perc`, passes and gains a blank `pa_perc` as its second column |
| `Text.ReplaceWithoutOccurrence` | scripts/fetch_dfe.py:58 | `replace` leaves a text without the pattern unchanged |
| `Text.ReplaceLengthens` | scripts/fetch_dfe.py:58 | a replacement no shorter than the pattern never shortens the text; when the pattern occurs the text grows by at least the length difference, so strictly when the replacement is longer |
| `Text.ReplaceJoin` | scripts/fetch_dfe.py:58 | `replace` replaces every occurrence: pattern-free pieces joined by the pattern come out as the same pieces joined by the replacement |
| `Text.ReplaceTrailingOccurrence` | scripts/fetch_dfe.py:58 | when the pattern occurs only as the suffix of `base + pat` (and its first character does not recur in it), exactly that suffix is replaced |
| `YtdFetch.SnapshotName` | scripts/fetch_dfe.py:58 | the snapshot name is never shorter than the output name, and equals it exactly when the output name contains no `.csv` |
| `YtdFetch.SnapshotStampsEveryCsv` | scripts/fetch_dfe.py:58 | every `.csv` in the name is stamped: pieces joined by `.csv` become the same pieces joined by `_<stamp>.csv` |
| `YtdFetch.DoubleCsvExample` | scripts/fetch_dfe.py:58 | `a.csv.csv` becomes `a_<stamp>.csv_<stamp>.csv` |
| `YtdFetch.SnapshotOfCsvName` | scripts/fetch_dfe.py:58 | for a name whose only `.csv` is at its end, the stamp goes right before the extension: `base_<stamp>.csv` |

## Left out

- HTTP download and CSV parsing (`requests.get`, `pd.read_csv`, the delimiter and encoding settings): these are network I/O and a foreign parser. The scripts' functions take the parsed table as a parameter. It must be well formed: every row aligned with the header, and distinct column names, which `read_csv` guarantees by mangling repeated headers.
- The `SOURCE_URL` / `DFE_SOURCE_URL` presence checks (scripts/fetch_dfe.py:16-17, scripts/extract_columns_weekly.py:15-16): they guard only the download, which is outside the model.
- File output, directory creation, printing and `sys.exit`: these are I/O. A failure is an `Err` value. The error carries the missing columns (and, for the weekly script, the available header) as lists, not the printed message text.
- `datetime.utcnow()`: the stamp is a parameter of `YtdFetch.SnapshotName`.
- JSON decoding of `RENAME_MAP_JSON`: the decoded result is a parameter. It is one of: blank setting (no renames), undecodable, not an object, or an object of string to string. An object whose values are not strings is not modelled.
- Environment-variable lookup: each setting is an explicit parameter.
- pandas dtypes and `pd.NA` semantics: the blank cell is a distinguished `Blank` value.
- Text.ReplaceLengthens: gives a lower bound on the growth, not the exact growth per replaced occurrence; the exact result is stated by `Text.ReplaceJoin`.
- Text.ReplaceJoin: is stated only for patterns whose first character does not recur in them, so that no occurrence can straddle a piece boundary; `.csv` is such a pattern. `Text.ReplaceAll` itself models the general left-to-right scan.
- WeeklyExtract.Extract: requires the header to stay free of duplicate names after renaming. A rename onto an existing column name makes pandas select duplicate columns, and that behaviour is not modelled.
- WeeklyExtract.ExtractIdempotent: is stated only for required lists without repeats. A repeated required name yields duplicate output columns, which the extractor's own input condition excludes.
