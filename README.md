# Sheets sync: row-transfer bookkeeping

This is a Dafny model of the `GoogleSheetsSync` service in `src/sheets_sync.py`. The service polls a source spreadsheet and picks out the rows whose status cell reads "одобрена". Each such row is keyed by its cell 1 (its *signature*), and only rows with an unseen signature are copied. A copied row becomes a nine-cell row, appended at the end of a destination sheet. The service remembers the signatures it copied, both in an in-memory set and in a JSON file. Before each pass, it prunes that file against the signatures still present in the source sheet.

In the model:

- the spreadsheets are sequences of rows of strings;
- the JSON file is a value of type `StoredFile`;
- the service is a class with three fields: `processed` (the in-memory set), `file` and `target` (the destination sheet).

The model is split into five modules:

- `Text` (`text.dfy`): Python's `str.strip` (over the characters `str.isspace` accepts), `str.lower` for ASCII and Cyrillic capitals, and decimal digits with zero-padded numerals.
- `Calendar` (`calendar.dfy`): spreadsheet serial numbers as days after 30 December 1899 in the proleptic Gregorian calendar, and the `DD.MM.YYYY` format with its parser.
- `Rows` (`rows.dfy`):
  - the blank test `not any(row)`: `IsBlank`, line 77;
  - the approval test: `IsApproved`, line 80;
  - the signature: `Signature`, lines 61-64;
  - the nine-cell destination row: `DestinationRow`, line 85;
  - the serial-date rule that decides its last cell: `DateCell`, lines 85-95.
- `Pass` (`pass.dfy`): one polling pass as a fold of `Step` (the loop body, lines 77-100) over *row views*. A view holds what the pass reads of a row: candidate or not, key, width, destination row. From those the module builds the reference definitions `ApprovedKeys`, `IsNew`, `NewRows` and `Destinations`, and the lemmas connecting the fold to them.
- `SheetsSync` (`sync.dfy`):
  - what the views mean for the rows themselves;
  - the processed-rows file;
  - reconciliation (`delete_row_from_file`): `LiveKeys` (line 148), `Kept` (lines 150-155) and `Reconciled` (lines 126-165);
  - the class `GoogleSheetsSync`, whose methods change its fields step by step as the source does. Each method is proved equal to the specification functions above.

Failures the code has are modelled as values:

- An approved, new row with fewer than 14 cells raises an `IndexError` while its destination row is built. The outer handler catches it and the pass ends there: `PassOutcome.Aborted(row)`. Keys recorded earlier in that pass stay in memory, and the file is not rewritten.
- A failed destination write is swallowed inside `insert_row_from_column_a`. The set of source rows whose write fails is a parameter, `failing`. Such a row still has its signature recorded and is still counted.

Two consequences of the code worth noting:

- **Serial 45000** is 15 March 2023 (`Calendar.SerialExample`).
- **A failed write** is swallowed: the signature is still recorded and the row still counted.

## Model

| member | source | states |
|---|---|---|
| Text.StripLeftShape | src/sheets_sync.py:80 | removing leading white space leaves a suffix that does not start with white space, and everything removed is white space |
| Text.StripRightShape | src/sheets_sync.py:80 | removing trailing white space leaves a prefix that does not end with white space, and everything removed is white space |
| Text.StripEnds | src/sheets_sync.py:80 | `strip()` is no longer than its input, and neither starts nor ends with white space |
| Text.StripRemovesOnlySpace | src/sheets_sync.py:80 | `strip()` is a slice `s[i..j]` of its input, and everything before `i` and after `j` is white space |
| Text.StripUnchanged | src/sheets_sync.py:152 | a string with no white space at either end is its own `strip()` |
| Text.StripIdempotent | src/sheets_sync.py:152 | stripping twice is the same as stripping once |
| Text.Lower | src/sheets_sync.py:80 | `lower()` keeps the length of the string |
| Text.LowerPointwise | src/sheets_sync.py:80 | `lower()` maps each character on its own |
| Text.Padded | src/sheets_sync.py:121 | the number written in exactly `width` digits, zero-padded, reads back as the number |
| Calendar.MonthDate | src/sheets_sync.py:120 | counting days within a year gives a valid date in that year |
| Calendar.CivilDate | src/sheets_sync.py:120 | counting days from 1 January gives a valid date, no earlier than the start year and at most k/365 years later |
| Calendar.SerialDate | src/sheets_sync.py:119-120 | every serial number denotes a valid date |
| Calendar.SerialEpoch | src/sheets_sync.py:119 | serial 0 is 30 December 1899 |
| Calendar.MonthDateNext | src/sheets_sync.py:120 | one more day within a year is the next calendar day |
| Calendar.MonthDateLast | src/sheets_sync.py:120 | the last day counted in a year is 31 December |
| Calendar.CivilDateNext | src/sheets_sync.py:120 | one more day counted from 1 January is the next calendar day, across month and year ends |
| Calendar.SerialNext | src/sheets_sync.py:119-120 | serial n + 1 is the calendar day after serial n |
| Calendar.FormatDate | src/sheets_sync.py:121 | `%d.%m.%Y` is ten characters: two digits, a dot, two digits, a dot, four digits |
| Calendar.FormatThenParse | src/sheets_sync.py:121 | parsing a formatted date gives back the date |
| Calendar.ConvertSerialDate | src/sheets_sync.py:114-124 | the conversion succeeds exactly when the date is no later than year 9999; its text is ten characters and parses back to the serial's date |
| Calendar.SerialYearBound | src/sheets_sync.py:89-91 | every serial below 50000 falls in 1899..2036, so conversion never fails for the serials the pass converts |
| Calendar.SerialExample | src/sheets_sync.py:119-120 | serial 45000 is 15 March 2023 |
| Calendar.ConvertExample | src/sheets_sync.py:114-121 | serial 45000 converts to "15.03.2023" |
| Rows.SignatureIgnoresOtherCells | src/sheets_sync.py:61-64 | the signature depends on cell 1 only: changing any other cell keeps it |
| Rows.UpperCaseApproved | src/sheets_sync.py:80 | "ОДОБРЕНА" in cell 4 approves the row, because the comparison is made after lower-casing |
| Rows.StatusRequired | src/sheets_sync.py:80 | a row with no cell 4 is not approved |
| Rows.RejectedStatus | src/sheets_sync.py:80 | a row whose status is "отклонена" is not approved |
| Rows.DecimalNumeralParts | src/sheets_sync.py:86-88 | a dotted-digit cell with at most one dot, which float() accepts, is its integer digits, then possibly a dot and its fraction digits; both parts are digits only, and removing the dot concatenates them |
| Rows.NumeralValueParts | src/sheets_sync.py:88-89 | the floor of the cell's value is its integer digits; the value exceeds that floor exactly when a fraction digit is nonzero |
| Rows.DateCellMeans | src/sheets_sync.py:85-95 | a cell that is dotted digits, parses as a number and lies strictly between 10000 and 50000 becomes the date of its integer part; every other cell is copied verbatim |
| Rows.WholeNumeralCell | src/sheets_sync.py:86-92 | a cell holding a whole number x converts exactly when 10000 < x < 50000, and is otherwise kept |
| Rows.FractionIgnored | src/sheets_sync.py:88-92 | away from the lower bound, the digits after the dot do not change the result |
| Rows.FractionAtLowerBound | src/sheets_sync.py:89 | at 10000 the fraction decides: "10000.0" stays and "10000.5" becomes the date of serial 10000 |
| Rows.DateCellSerialExample | src/sheets_sync.py:85-92 | cell "45000" becomes "15.03.2023" |
| Rows.DateCellBelowRangeExample | src/sheets_sync.py:89 | cell "5" stays "5" |
| Rows.DateCellLowerBoundExample | src/sheets_sync.py:89 | the lower bound is strict: "10000" stays |
| Rows.DateCellAboveRangeExample | src/sheets_sync.py:89 | cell "99999" stays "99999" |
| Rows.DateCellFormattedExample | src/sheets_sync.py:86-95 | a cell already written as "15.03.2023" has two dots, float() rejects it, and it stays |
| Rows.DateCellTextExample | src/sheets_sync.py:86 | an empty cell and the text "n/a" are not digits and stay |
| Rows.DestinationRow | src/sheets_sync.py:85-92 | the destination row has nine cells: cells 1, 2, 9, 3, 7, 11, 12 and 13 of the row, then the date cell made from cell 5 |
| Pass.Run | src/sheets_sync.py:76-100 | after n rows, the stopping row and every recorded row lie among those n rows |
| Pass.StepMatches | src/sheets_sync.py:77-100 | one row keeps the pass equal to the reference definitions |
| Pass.StepWide | src/sheets_sync.py:85 | one row keeps every recorded row wide enough to project |
| Pass.DestinationsSnoc | src/sheets_sync.py:97 | one more recorded row adds its destination row to the written rows, unless its write fails |
| Pass.StepAppended | src/sheets_sync.py:97-100 | one row keeps the written rows equal to the destination rows of the recorded rows, minus failed writes |
| Pass.StepCount | src/sheets_sync.py:99-100 | one row keeps the count equal to the number of signatures added |
| Pass.RunInvariants | src/sheets_sync.py:76-100 | at every point of a pass: the set is the known keys plus the candidate keys so far; the recorded rows are exactly the new rows so far; a stop is at a new row too short to project; the written rows are the destination rows of the recorded rows minus failed writes; the count equals the number of signatures added |
| Pass.StepHalted | src/sheets_sync.py:111-112 | a pass the handler has ended ignores the next row |
| Pass.HaltedRunStays | src/sheets_sync.py:111-112 | once the handler has ended a pass, no later row changes anything |
| Pass.ApprovedKeysContains | src/sheets_sync.py:80-82 | the key of every candidate row is among the candidate keys |
| Pass.ApprovedKeysFrom | src/sheets_sync.py:80-82 | every candidate key comes from some candidate row |
| Pass.NewRowsMembers | src/sheets_sync.py:82 | a row is listed as new exactly when it is new |
| Pass.NewRowsIncreasing | src/sheets_sync.py:76 | new rows are listed in sheet order, each once |
| Pass.NoNewRows | src/sheets_sync.py:82 | a prefix with no new row lists no new rows |
| Pass.DestinationsBound | src/sheets_sync.py:167-180 | no more rows are written than are counted |
| Pass.DestinationsAll | src/sheets_sync.py:167-177 | when no write fails, each counted row's destination row is written, in order |
| Pass.PassIdempotent | src/sheets_sync.py:82-106 | a second pass over the same sheet, started from the set the first one left, copies and writes nothing, keeps the set and stops at the same row |
| SheetsSync.ViewAt | src/sheets_sync.py:76 | the pass reads row i through view i |
| SheetsSync.ViewMeans | src/sheets_sync.py:77-85 | a view records whether its row is a non-blank approved row, the row's width, its signature and its destination row |
| SheetsSync.RunNextRow | src/sheets_sync.py:76-100 | in row terms: a blank, unapproved or known row changes nothing; a new row shorter than 14 cells stops the pass there; any other new row has its signature added and its destination row written unless the write fails |
| SheetsSync.ApprovedKeysMeans | src/sheets_sync.py:80-99 | a key is a candidate key exactly when some earlier non-blank approved row carries it |
| SheetsSync.IsNewMeans | src/sheets_sync.py:77-82 | a row is new exactly when it is non-blank and approved, its signature was not known, and no earlier such row has that signature |
| SheetsSync.CopiedRows | src/sheets_sync.py:76-100 | a pass copies exactly the new rows before its stopping point, once each and in source order; unapproved, blank, known and repeated rows are never copied |
| SheetsSync.CompletedPassKeys | src/sheets_sync.py:99-100 | after a completed pass the set is the old set plus every candidate row's signature, and the count is the number of signatures added |
| SheetsSync.AbortedPass | src/sheets_sync.py:85-112 | an aborted pass stopped at a non-blank, approved, new row shorter than 14 cells; every new row before it was copied, and the set holds the old keys plus the candidate keys before it |
| SheetsSync.AppendedRows | src/sheets_sync.py:85-100 | each counted row is wide enough and its signature is in the set; no more rows are written than counted; when no write fails, the written rows are the destination rows of the counted rows, in order |
| SheetsSync.ListOf | src/sheets_sync.py:57 | `list(set)` lists each element of the set exactly once |
| SheetsSync.SaveThenLoad | src/sheets_sync.py:46-57 | loading what was saved gives the saved set back |
| SheetsSync.LiveKeysMeans | src/sheets_sync.py:148 | reading the sheet's keys fails exactly when a non-empty row has a single cell; otherwise the keys are the stripped cell 1 of the rows that have one |
| SheetsSync.KeptSubsequence | src/sheets_sync.py:150-155 | the entries kept are the old list with some entries deleted, in order |
| SheetsSync.KeptMultiplicity | src/sheets_sync.py:150-155 | each entry whose stripped form is live is kept as often as it occurs; every other entry is dropped |
| SheetsSync.KeptMembers | src/sheets_sync.py:151-155 | an entry is kept exactly when it was in the list and its stripped form is live |
| SheetsSync.KeptIdempotent | src/sheets_sync.py:150-155 | pruning a pruned list against the same keys changes nothing |
| SheetsSync.ReconcileIdempotent | src/sheets_sync.py:126-165 | reconciling twice against the same sheet is the same as reconciling once |
| SheetsSync.ReconciledEntries | src/sheets_sync.py:141-162 | a sheet with a one-cell row leaves the list as it was; otherwise the new list is an order-preserving subsequence of the old one, holding exactly the entries whose stripped form is some row's stripped cell 1 |
| SheetsSync.LiveKeysExample | src/sheets_sync.py:148 | the sheet `[["1", "A"]]` has live keys `["A"]` |
| SheetsSync.KeptExample | src/sheets_sync.py:150-155 | pruning `["A", "B"]` against `["A"]` keeps `["A"]` |
| SheetsSync.ReconcileExample | src/sheets_sync.py:141-162 | a file listing "A" and "B", against a sheet with a row keyed "A", is rewritten to list just "A" |
| SheetsSync.GoogleSheetsSync.constructor | src/sheets_sync.py:41-50 | the service starts, as `__init__` does at line 23, with the set loaded from the file: the set of the file's list, or the empty set when the file is missing, empty or unreadable; the file and the destination are as given |
| SheetsSync.GoogleSheetsSync.SaveProcessedRows | src/sheets_sync.py:52-59 | the file becomes a list of the in-memory set, each element once, and loading it gives the set back |
| SheetsSync.GoogleSheetsSync.InsertRowFromColumnA | src/sheets_sync.py:167-180 | the row goes at row number len + 1, just past the destination's extent; a failed write is swallowed and leaves the destination unchanged |
| SheetsSync.GoogleSheetsSync.CopyRow | src/sheets_sync.py:77-100 | the loop body for one row moves the set and the destination from the pass after i rows to the pass after i + 1, reports a stop exactly when that pass stops at row i, and reports a copy exactly when it recorded one more row |
| SheetsSync.GoogleSheetsSync.CheckAndCopyRows | src/sheets_sync.py:66-112 | the set and the destination end as the specified pass leaves them; the outcome is the stopping row or the count; the file is rewritten from the set exactly when a completed pass copied something, and is otherwise unchanged |
| SheetsSync.GoogleSheetsSync.DeleteRowFromFile | src/sheets_sync.py:126-165 | the file becomes its reconciled form: a missing file becomes an empty list, an empty or unreadable file stays, and a list is pruned; the in-memory set is untouched |
| SheetsSync.GoogleSheetsSync.MonitorIteration | src/sheets_sync.py:197-198 | one round: reconcile, then one pass. If the pass copies, the file is rewritten from the set and lists every key known before the round, pruned ones included; otherwise the file is the reconciled file |

## Left out

- Google Sheets access: `setup_google_sheets`, `get_spreadsheet`, `worksheet`, `get_all_values` and `update`. Both sheets are plain sequences. A failed read and the handler that catches it are not modelled. A failed write is the `failing` parameter.
- Configuration from `os.getenv` and `load_dotenv`, the base directory and the credentials file: environment plumbing with no part in the bookkeeping.
- JSON encoding and real file I/O: the file is a `StoredFile` value. A JSON value other than a list of strings counts as `Malformed`, which loads as the empty set. In Python, a JSON string would load as the set of its characters, and a dictionary as the set of its keys. Reconciliation is affected the same way: `delete_row_from_file` would iterate the characters of a JSON string or the keys of an object and rewrite the file as the filtered list, while `Reconciled` leaves every `Malformed` file unchanged.
- `monitor_changes`, `print` and `time.sleep`: the start-up banner, the endless loop, the pacing sleeps, the `KeyboardInterrupt` exit and the 30-second back-off. Only one iteration of the loop is modelled (`MonitorIteration`).
- The destination's row count: the source computes it from `get_all_values`, which omits trailing empty rows. The model uses the length of `target`, a sheet that always reads back what was written.
- `USER_ENTERED` reinterpretation of the written cells by the spreadsheet is not modelled: a written row reads back exactly as written.
- Rows.DateCellMeans: the value is read exactly, as a real, not as a binary float. A value rounds differently only with more digits than a double holds (for example "10000.0000000000000001", which float() rounds to 10000.0).
- Rows.DateCellMeans: digits are ASCII only. Python's `isdigit()` and `float()` also accept other Unicode decimal digits; such a cell is copied verbatim here.
- Text.Lower: lower-casing covers ASCII letters and the Cyrillic capitals U+0400..U+042F only. That is enough to decide the approval test, which compares against a Cyrillic token.
- Calendar.ConvertSerialDate: on overflow past year 9999 it returns `None`, where the source returns the number's `str()`. By `SerialYearBound` this cannot happen for the serials the pass converts (below 50000).
- Calendar.FormatDate: it always writes a four-digit year. Platform differences of `strftime("%Y")` before year 1000 are not modelled; no serial reaches those years.
