# syft-ms data reduction (`al_syft.py`), modelled in Dafny

This project models the data-reduction core of the syft-ms pipeline. The pipeline reads mass-spectrometry
scans, exported by the instrument as CSV files, for clients whose folders are named `AL-…`:

- **`process_file`**
  - Reads the data block, rows 266 to 1423, of one export.
  - Rejects the file as incomplete when a row has an empty first cell.
  - Cuts every row at the `:` column located in the first row of the block.
  - Builds a dict keyed by (reagent, product). The last row of a key wins.
  - Deletes the fixed denylist of noisy combinations.
  - Replaces each key's intensities by their mean.
- **`process_folder`**
  - Takes the files inside the client's scan directories (`0…baseline…` or `2…mass…`).
  - Keeps those that pass `filter_files`: a `.csv` suffix and one of nine markers.
  - Processes each one.
  - Gathers the values of the complete files key by key.
  - Lays out the report: a header, then one row per key with its mean and its values.
- **`findMassScansFileNames`**
  - Searches file names for `2-Mass-Scan-pos-neg… <N>min….csv`.
  - Keeps the 30-minute scans.
- **The `AL-\d*` client-folder test.**

The modules, file by file:

- `wrappers.dfy`: `Option` and `Result`. `None` returns and raised exceptions are spelled with them.
- `text.dfy`: Python string behaviour used by the pipeline:
  - `str.lower`, `in`, `startswith`/`endswith`;
  - POSIX `os.path.join` and the last path component;
  - `list.index`;
  - the digit grammars of `int()` and `float()`.
- `dicts.dfy`: an insertion-ordered Python `dict`, as a key order plus a map. It covers:
  - assignment;
  - `del`;
  - the dict comprehension over pairs.
- `averages.dfy`: `sum(xs) / len(xs)` over reals.
- `scan.dfy`: `process_file`:
  - as a specification function (`ParseScan`);
  - as the method `ProcessFile`, which runs the source's loops and is proved equal to `ParseScan`.
- `discovery.dfy`: choosing files:
  - the directory regex;
  - `filter_files`;
  - the 30-minute `re.search`, with Python's leftmost-start and greedy semantics;
  - the traversal loops of `process_folder` and `findMassScansFileNames`;
  - the client test.
- `folder.dfy`: `process_folder`:
  - the file loop;
  - the aggregation into `data`;
  - the report rows;
  - the method `ProcessFolder`, proved equal to the specification function `FolderReport`.

How the model represents the program's inputs and outcomes:

- **Files.** A file's content is given as the rows `csv.reader` yields. A folder's files are a map from path to rows.
- **Directory listings.** A listing is a sequence of `Entry` values. Each entry is a file or a directory, and a directory carries the names it lists.
- **Exceptions.** Every exception `process_file` can raise is a `ScanError`. The file loop of `process_folder` stops at the first one.
- **Incomplete files.** An incomplete file is `Incomplete`, like Python's `None`. The loop skips it.

Behaviour of the code that a reader might not expect, all of it modelled as written:

- **Duplicate keys in one file.** The rows are gathered by a dict comprehension. A later row with the same key overwrites an earlier one, so its readings are not added to the earlier ones, and the key keeps its first position. This is `Dicts.FromPairsLastWins` and `Scan.ReduceContents`.
- **Blank lines in the data block.** A blank CSV line (`[]`) makes `row[0]` raise `IndexError`. That happens before any later empty first cell is seen, so such a file raises instead of being reported incomplete. This is `Scan.ScreenFirstStop`.
- **The markers.** `filter_files` has nine markers. A space starts ` 0min`, ` 0 min`, ` -3 ` and ` -7 `, and there are no `-3min` or `-7min` markers. The markers are tested against the whole joined path, not only the file name, so a `.csv` under any directory whose path mentions "baseline" is kept (`Discovery.CsvUnderBaselineKept`).
- **Where mass scans are listed.** `findMassScansFileNames` lists `os.path.join(subDir, subDir)`. For the absolute root the code uses, that is `subDir` itself (`Discovery.SelfJoinAbsolute`). It is not a nested folder one level further down. The returned paths join the file name to `subDir`, as the repository's own test expects (`Discovery.MassScansExample`).
- **Report columns.** The header names one column per complete file (al_syft.py:125). Each row, however, lists only the values of the files that have its key (al_syft.py:128), with no empty cell for a file that lacks it. When an earlier file lacks a key, the later files' values for it shift left, under the wrong file's name (`Folder.ColumnShift`).

## Model

| member | source | states |
|---|---|---|
| Scan.Window | al_syft.py:26 | The slice `[266:1424]` with Python's clamping: its length is 0 when the file has at most 266 rows, otherwise `min(len, 1424) - 266`, and its `i`-th row is row `266 + i` |
| Scan.Screen | al_syft.py:29-32 | The completeness scan over the window, as a function: complete, `None` at an empty first cell, or IndexError at a blank row. `Scan.ScreenFirstStop` states its contract: which row decides, and that it is complete exactly when no row stops it |
| Scan.ScreenFirstStop | al_syft.py:29-32 | The completeness scan passes if and only if no window row is blank or has an empty first cell. Otherwise the first such row decides: an empty first cell returns `None`, a blank row raises |
| Scan.ScreenWindow | al_syft.py:29-32 | The loop returns at the first stopping row, with the verdict the specification gives |
| Scan.IncompleteFile | al_syft.py:26-32 | When every window row has a first cell, the file is reported incomplete if and only if some window row's first cell is empty |
| Scan.OutsideWindowIgnored | al_syft.py:26 | Two files that agree on rows 266 to 1423 give the same outcome, provided they have as many rows there (two files with at most 266 rows both have none): rows outside the window never matter |
| Scan.ReadWindow | al_syft.py:34-40 | An empty window raises. A first row without a `:` cell raises. Otherwise every row is cut at the FIRST `:` of the first row. The result is every cut row's reading, or the error of the first cut row that cannot be read, all earlier ones being readable |
| Scan.CompleteFile | al_syft.py:26-57 | A complete window with a sentinel and every cut row readable is read. The file then parses exactly when every surviving last row has a reading, and otherwise raises ZeroDivisionError |
| Scan.ParseCells | al_syft.py:39 | `list(map(float, cells))` succeeds exactly when every cell reads as a decimal, and then holds each cell's value in order |
| Scan.ParseRow | al_syft.py:39 | Unpacking `reagent, product, *intensities` and reading them: a row that reads has one intensity per cell after the first two. `Scan.ParseRows` and `Scan.ReadWindow` state how the rows' outcomes combine |
| Scan.ParseRows | al_syft.py:38-40 | Success gives one reading per row, each the row's own reading. Failure carries the error of the first row that cannot be read, all earlier rows being readable |
| Dicts.FromPairsOrder | al_syft.py:38-40 | The comprehension's dict lists the keys in the order of their first occurrence |
| Dicts.FromPairsLastWins | al_syft.py:38-40 | For every key, the comprehension's dict holds the value of the LAST row with that key |
| Scan.DeniedKeysListed | al_syft.py:43-47 | The denylist is exactly (19,19), (19,37), (30,30) and (32,32) |
| Scan.Deny | al_syft.py:43-52 | After the deletion, a key is present if and only if it was present and is not denied. Kept keys keep their values and their relative order |
| Scan.DenyIdempotent | al_syft.py:49-52 | Deleting the denylist twice is deleting it once |
| Scan.DenyAbsent | al_syft.py:49-52 | Denied keys that are absent are no-ops: a dict without any of them is unchanged |
| Scan.DeleteEntry | al_syft.py:50-52 | The inner deletion loop removes exactly the keys of one denylist entry |
| Scan.DeleteDenied | al_syft.py:49-52 | The nested deletion loops compute exactly the denylist deletion |
| Scan.Means | al_syft.py:54-55 | Averaging fails (ZeroDivisionError) if and only if some key has no reading. Otherwise it keeps the keys and their order and maps each key to the mean of its readings |
| Scan.AverageReadings | al_syft.py:54-55 | The averaging loop, in key order, returns what `Means` specifies, including the failure |
| Scan.ReduceContents | al_syft.py:38-55 | The reduced table fails exactly when a surviving key's last row has no reading. Otherwise its keys are the rows' keys minus the denylist, in first-occurrence order, and each holds the mean of its LAST row's readings |
| Scan.SingleRowWithoutReadings | al_syft.py:34-55 | A file whose only data row has `:` right after the product parses to an empty table when the key is denied, and raises ZeroDivisionError otherwise |
| Scan.ParsedFile | al_syft.py:18-57 | A parsed file had a window with no blank row and no empty first cell, and its table is the reduction of the rows read at the first row's sentinel |
| Scan.ProcessFile | al_syft.py:18-57 | `process_file`, step by step, returns `None`, raises or returns the table exactly as the specification `ParseScan` gives |
| Scan.ParseScan | al_syft.py:18-57 | What `process_file` returns or raises for given rows. `Scan.IncompleteFile`, `Scan.ParsedFile`, `Scan.CompleteFile` and `Scan.ReduceContents` state its outcome |
| Averages.MeanWithin | al_syft.py:55 | A mean lies between any lower and upper bound of its readings |
| Averages.MeanPermutation | al_syft.py:55 | A mean does not depend on the order of the readings |
| Text.IndexOf | al_syft.py:34 | `list.index` gives the first position holding the value, and `None` (ValueError) exactly when the value is absent |
| Text.ParseShowInt | al_syft.py:39 | `int()` reads back every integer as it is written |
| Text.ParseInt | al_syft.py:39 | `int()` on an optional sign and ASCII digits; `None` (ValueError) otherwise. A result implies the cell holds a digit |
| Text.ParseDecimal | al_syft.py:39 | `float()` on an optional sign and plain decimal digits with at most one point; `None` (ValueError) otherwise. `Scan.ParseCells` states how a row's cells combine |
| Text.Lower | al_syft.py:75-76 | `str.lower()` on ASCII letters: the same length, with no upper-case letter left. `Discovery.LowerAppend` shows it works piece by piece |
| Text.JoinPath | al_syft.py:69 | `os.path.join` of two parts on POSIX. `Text.JoinPathSpec` states its cases |
| Text.Basename | al_syft.py:114 | `Path(file).name`: a suffix of the path that holds no `/`. `Text.BasenameOfJoin` states that it recovers the listed name |
| Text.JoinPathSpec | al_syft.py:69 | `os.path.join`: an absolute second part replaces the first. Otherwise the result starts with the first part and ends with the second, with one `/` added when the first part is non-empty and lacks one |
| Text.BasenameOfJoin | al_syft.py:114 | The name `Path(file).name` reports for a joined path is the listed name |
| Discovery.LeadThenWordMatches | al_syft.py:74-77 | The directory test matches if and only if the lower-cased name starts with the lead digit and the word occurs after it with no line break in between (what `.*` spans) |
| Discovery.IsScanDirectory | al_syft.py:74-77 | The directory test on the lower-cased name, `0…baseline…` or `2…mass…`: an accepted name starts with `0` or `2`. `Discovery.LeadThenWordMatches` states what each alternative matches |
| Discovery.Candidates | al_syft.py:66-78 | `files_to_process` before filtering. `Discovery.CandidatesFrom` characterises its members |
| Discovery.FilterFiles | al_syft.py:81-101 | `filter_files`: a case-sensitive `.csv` suffix, and one of the nine markers anywhere in the lower-cased path |
| Discovery.CandidatesFrom | al_syft.py:68-78 | A path is a candidate if and only if it is a name listed in a scan directory of the client folder, joined to that directory's path |
| Discovery.CollectCandidates | al_syft.py:66-78 | The directory loop builds exactly the candidate list, in listing order |
| Discovery.CsvUnderBaselineKept | al_syft.py:81-101 | `filter_files` keeps every `.csv` file listed under a directory whose path mentions "baseline" in any case |
| Discovery.KeepMatching | al_syft.py:103 | `filter` keeps exactly the candidates that pass `filter_files`, and no more of them than there are |
| Discovery.KeepMatchingSingle | al_syft.py:103 | One path is kept exactly when it passes `filter_files` |
| Discovery.KeepMatchingAppend | al_syft.py:103 | Filtering a concatenation is concatenating the filtered parts: kept paths keep their order and repetitions, which become the report's column order |
| Discovery.SearchFromSpec | al_syft.py:136 | The search reports the leftmost start of a match and, for it, the largest group position. It reports nothing exactly when no match exists |
| Discovery.MinutesOf | al_syft.py:136-139 | The search and `int(res.group(1))`; `None` when the search finds nothing. `Discovery.MinutesOfMatches` states which match it reports |
| Discovery.MinutesOfMatches | al_syft.py:136-139 | The minutes exist if and only if the pattern matches somewhere. They are the number captured by the leftmost match's last possible group |
| Discovery.MinutesOfScanName | al_syft.py:136-139 | A name `2-Mass-Scan-pos-neg<tag> <digits>min<stamp>.csv` gives `<digits>`. The stamp holds no space and the name no line break |
| Discovery.ThirtyMinuteExample | test_al_syft.py:11 | The scan named in the repository's test reports 30 minutes |
| Discovery.SelfJoinAbsolute | al_syft.py:132-135 | Under an absolute client path, `os.path.join(subDir, subDir)` is `subDir` itself |
| Discovery.MassScansExample | test_al_syft.py:8-11 | A client folder whose mass-scan directory lists the test's scan yields that single file, joined to the directory, with 30 minutes |
| Discovery.MassScansAreThirty | al_syft.py:130-142 | Every reported pair says 30 minutes. The pairs are exactly the listed files whose name matches with 30 minutes, each joined to its directory's path |
| Discovery.MassScanFiles | al_syft.py:130-142 | What `findMassScansFileNames` returns. `Discovery.MassScansAreThirty` characterises its pairs |
| Discovery.DirectoryMassScans | al_syft.py:135-141 | The inner loop picks exactly one directory's 30-minute scans, in listing order |
| Discovery.FindMassScans | al_syft.py:130-142 | `findMassScansFileNames`, loop by loop, returns exactly the specified list |
| Discovery.ClientFolderIsPrefix | al_syft.py:154 | `re.match(r'AL-\d*', f)` holds if and only if `f` starts with `AL-` (the digit run may be empty) |
| Folder.ScanAllSucceeds | al_syft.py:108-112 | The file loop completes if and only if no file raises |
| Folder.ScanAll | al_syft.py:108-114 | The file loop: the complete files, in order, or the first exception. Every table it keeps is a well-formed dict. `Folder.ScanAllSucceeds`, `Folder.ScanAllCompleted` and `Folder.ScanAllFirstFailure` characterise it |
| Folder.ScanAllCompleted | al_syft.py:108-114 | A completed loop keeps the parsed files in order, named by their last path component, and skips the incomplete ones |
| Folder.ScanAllFirstFailure | al_syft.py:108-112 | A failed loop carries the exception of the first file that raises, no earlier file having raised |
| Folder.ScanAllStopsAtFailure | al_syft.py:108-110 | Once a file has raised, the files after it change nothing |
| Folder.AppendSpec | al_syft.py:117-120 | Adding one item grows only its key's list, by the value at the end. A new key goes to the end of the order |
| Folder.AddKeysSpec | al_syft.py:116-120 | Adding a table appends each of its values to its key's list, and lists the new keys after the old ones in the table's order |
| Folder.AggregateCollects | al_syft.py:105-120 | `data` lists each key at its first appearance across the files. For each key it holds the values of the files that have the key, in file order |
| Folder.Aggregate | al_syft.py:105-120 | `data` after the complete files: a well-formed dict in which no key's list is empty |
| Folder.CollectReorder | al_syft.py:108-120 | Processing the same files in another order gathers the same values for each key, as a multiset |
| Folder.ReorderKeepsAverage | al_syft.py:108-127 | The order of the files does not change any key's average |
| Folder.CollectBound | al_syft.py:116-120 | Each file adds at most one value per key. A key has values if and only if some file has it |
| Folder.AddItem | al_syft.py:117-120 | One item: a new key starts its list, a known key extends it, as `Append` specifies |
| Folder.AddTable | al_syft.py:116-120 | The inner loop adds one processed file's items, as `AddKeys` specifies |
| Folder.ReportRows | al_syft.py:123-128 | Below the header there is one row per key in order of first appearance. Each row holds the key, the mean of its gathered values and those values in file order, never more values than files |
| Folder.Report | al_syft.py:123-128 | The rows written for the complete files: the header, then one row per key of `data` |
| Folder.ReportShape | al_syft.py:123-128 | The report always starts with the header and has one row per key found. It is the header alone exactly when no complete file has a key |
| Folder.ColumnShift | al_syft.py:125-128 | With a key absent from the first of two files, the second file's value for it is written in the column headed by the first file's name |
| Folder.FolderReport | al_syft.py:60-128 | The report a client folder yields, or the exception that stops it. `Folder.ProcessFolder` is proved equal to it |
| Folder.WriteRows | al_syft.py:124-128 | The writing loop produces the header, then one row per key of `data` in its order |
| Folder.ReadFile | al_syft.py:109 | Reading one listed path gives what `process_file` gives. A path the folder does not hold raises |
| Folder.ProcessFolder | al_syft.py:60-128 | `process_folder`, loop by loop, returns exactly the specified report rows, or the exception of the first file that raises |

## Left out

- File reading, CSV parsing and writing, logging, and the output path: the model starts from the rows `csv.reader` yields and returns the rows `csv.writer` would write.
- `os.listdir`, `os.path.isfile` and `os.path.isdir` are inputs, as `Entry` listings. Listing order is taken as given. Items that are neither files nor directories are not modelled.
- `Path(rootDir) / name` is modelled with the same POSIX join as `os.path.join`. `Path`'s normalisation (collapsing `//` and `/./`, dropping a trailing `/`) is not modelled.
- Scan.ParseScan: floating point is modelled with exact reals. Rounding of `float()`, of `sum`, of the division, and the CSV formatting of floats are not modelled.
- Text.ParseInt: accepts only an optional sign followed by ASCII digits. Python's `int()` also accepts surrounding whitespace, `_` separators and non-ASCII digits; on such cells the model raises where Python does not.
- Text.ParseDecimal: accepts only an optional sign and plain decimal digits with at most one point. Python's `float()` also accepts exponents, `inf`, `nan`, whitespace and `_`; on such cells the model raises where Python does not.
- Text.Lower: lower-cases ASCII letters only. Python's `str.lower` also folds non-ASCII letters.
- Discovery.MassScanFiles: a directory's `listing` stands for what `os.listdir(os.path.join(subDir, subDir))` returns. Its coincidence with the directory's own listing is proved for absolute client paths (`Discovery.SelfJoinAbsolute`), not assumed.
- Discovery.FindMassScans: the loop gathers each directory's picks into a list, then appends that list, rather than appending each file directly. The resulting list is the same.
- `processMassScans` (al_syft.py:144-148) discards what it computes, and the `__main__` block (al_syft.py:151-157) only creates the output folder and drives `process_folder` over the client folders. Neither is modelled; `Discovery.IsClientFolder` is their only part here.
- `render_pdf.py` and `syft.py` (chart and PDF rendering and their command-line glue) are not part of this model.
