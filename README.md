# Organic-content consistency check, modelled in Dafny

The Eridu Basin stratigraphy repository ships one validator,
`scripts/validate_organic_data.py`. It cross-references the rows of the
stratigraphy CSV with the organic-material master list (a JSON object mapping
sample id to expected classification). Every row whose `SampleID` is a key of
the master list and whose `OrganicContent` is the sentinel `Undetermined` is an
inconsistency. The script prints `No inconsistencies found.` and exits 0, or
prints `Found inconsistencies:` followed by one line per inconsistency and exits 1.

`validate_organic_data.dfy` (module `ValidateOrganicData`) models `main()` from
the loaded inputs on:

- the inputs are already parsed: a row is a `map<string, string>` from column
  to cell, and the master list is a `map<string, string>`;
- `FindMismatches` is the specification of the loop. It gives the mismatches in
  row order, or the `KeyError` (`MissingColumn`) raised by the first row that
  lacks `SampleID` or `OrganicContent`. `FlaggedIndices` is an independent
  description of the same selection: the increasing indices of the flagged rows;
- `CollectMismatches` is the loop itself, a `for` loop that grows
  `inconsistencies` by appending. It is proved equal to `FindMismatches`;
- `Report` and `PrintReport` model the report branch. `print` and `sys.exit`
  become returned values: the printed lines and the exit status;
- `Validate` runs the loop and then the report. `Run` is its specification. An
  exception that escapes `main()` is the `Raised` outcome, and `ExitStatus`
  gives it status 1, as the Python interpreter does.

A row without `SampleID` or `OrganicContent` makes `main()` raise `KeyError`.
Python then exits with status 1, the same status as "inconsistencies found".
The column names and the sentinel `Undetermined` are literals in the code.

Determinism and idempotence hold by construction, because every specification
member is a function of its inputs.

## Model

| member | source | states |
|---|---|---|
| `ValidateOrganicData.FindMismatches` | scripts/validate_organic_data.py:28-38 | defines the pass: the mismatches in row order, or the `KeyError` of the first row lacking a column. On success there are never more mismatches than rows, and every mismatch has an id that is a master-list key, current value `Undetermined`, and expected value equal to the master-list entry for its id |
| `ValidateOrganicData.Flagged` | scripts/validate_organic_data.py:30-32 | defines the condition on line 32 (id in the master list and content `Undetermined`) on a row that has both columns; a flagged row is one the subscripts on lines 30-31 accept |
| `ValidateOrganicData.MismatchOf` | scripts/validate_organic_data.py:33-38 | the record a flagged row yields: its id, which is a master-list key, the current value `Undetermined`, and the expected value looked up in the master list, a lookup that is defined because membership was tested first |
| `ValidateOrganicData.FindMismatchesSelects` | scripts/validate_organic_data.py:28-38 | when the pass succeeds, there are exactly as many mismatches as flagged rows, and the j-th mismatch is `(id, content, master[id])` of the j-th flagged row. This gives soundness, completeness, exactly one mismatch per flagged row, and row order |
| `ValidateOrganicData.FlaggedIndices` | scripts/validate_organic_data.py:29-32 | the strictly increasing indices of exactly those rows that have both columns, an id in the master list and content `Undetermined` |
| `ValidateOrganicData.FindMismatchesFails` | scripts/validate_organic_data.py:29-31 | the pass fails if and only if some row lacks a column. The error names the first missing column (`SampleID` before `OrganicContent`) of the first such row |
| `ValidateOrganicData.MissingColumnOf` | scripts/validate_organic_data.py:30-31 | no column is reported missing exactly when both are present; a reported column is absent from the row; `SampleID` is the one reported whenever it is missing, as its subscript comes first |
| `ValidateOrganicData.PrefixErrorPersists` | scripts/validate_organic_data.py:29-31 | once a prefix of the rows raises, the whole pass raises the same error: no later row is looked at |
| `ValidateOrganicData.UnknownSampleIgnored` | scripts/validate_organic_data.py:32 | inserting, anywhere, a row that has both columns and an id outside the master list leaves the result unchanged, errors included, whatever its `OrganicContent` value |
| `ValidateOrganicData.EmptyMasterNoMismatches` | scripts/validate_organic_data.py:28-32 | an empty master list gives no mismatches whenever no `KeyError` is raised |
| `ValidateOrganicData.EmptyRowsReportClean` | scripts/validate_organic_data.py:28-48 | no rows give `No inconsistencies found.` with status 0, whatever the master list |
| `ValidateOrganicData.CollectMismatches` | scripts/validate_organic_data.py:28-38 | the imperative loop returns exactly the specified mismatches, or the specified error |
| `ValidateOrganicData.FormatLine` | scripts/validate_organic_data.py:44 | every mismatch line starts with `  Sample ` (two spaces of indent) |
| `ValidateOrganicData.FormatAll` | scripts/validate_organic_data.py:43-44 | one line per mismatch, in order, the k-th being the k-th mismatch's line |
| `ValidateOrganicData.Report` | scripts/validate_organic_data.py:41-48 | status 0 if and only if there are no mismatches, and then the only line is `No inconsistencies found.`. Otherwise the status is 1 and there are 1 + (number of mismatches) lines: the header `Found inconsistencies:`, then each mismatch's line in order |
| `ValidateOrganicData.PrintReport` | scripts/validate_organic_data.py:41-48 | the printing loop produces exactly the lines and status of `Report` |
| `ValidateOrganicData.ExitStatus` | scripts/validate_organic_data.py:45-48 | the process exits 0 exactly when the report is printed with status 0; an escaping exception exits 1, as the Python interpreter does |
| `ValidateOrganicData.Run` | scripts/validate_organic_data.py:28-48 | defines the whole check on loaded inputs: the pass, then the report. It raises exactly when some row lacks a column; otherwise it prints at least one line and exits with status 0 or 1 |
| `ValidateOrganicData.Validate` | scripts/validate_organic_data.py:28-48 | the method runs the loop and then the report, and its outcome is `Run` of its inputs |
| `ValidateOrganicData.RunStatus` | scripts/validate_organic_data.py:29-48 | exit status 0 if and only if every row has both columns and none is flagged |
| `ValidateOrganicData.RunReportsFlaggedRows` | scripts/validate_organic_data.py:28-48 | on well-formed rows, the report is the success line with status 0 when nothing is flagged. Otherwise it is the header, then the formatted line of each flagged row in row order, with status 1 |
| `ValidateOrganicData.ReportLinesDistinguishable` | scripts/validate_organic_data.py:42-47 | the first line is the success line exactly when the status is 0. Only mismatch lines start with a space |
| `ValidateOrganicData.ScenarioFlagged` | scripts/validate_organic_data.py:28-45 | master `{S1: Plant matter}` with one undetermined `S1` row reports that row's mismatch with status 1 |
| `ValidateOrganicData.FormatLineExample` | scripts/validate_organic_data.py:44 | that mismatch prints as `  Sample S1: CSV says 'Undetermined', master list expects 'Plant matter'` |
| `ValidateOrganicData.ScenariosClean` | scripts/validate_organic_data.py:28-48 | a determined row, and an undetermined row whose id the master list lacks, both give `No inconsistencies found.` with status 0 |
| `ValidateOrganicData.ScenarioMissingColumn` | scripts/validate_organic_data.py:30-31 | a row without `OrganicContent` raises `KeyError('OrganicContent')` |

## Left out

- Path resolution relative to the script (scripts/validate_organic_data.py:13-16) is deployment plumbing and is not modelled.
- Opening the files and parsing with `json.load` and `csv.DictReader` (scripts/validate_organic_data.py:18-25) is I/O and library code. The parsed master list and rows are parameters.
- A short CSV row gives `None` cells under `csv.DictReader`, and a JSON master list may hold non-string values. The model has string cells and string values only.
- `print` and `sys.exit` are returned values (lines and status). Standard output, the traceback on standard error and process termination are not modelled.
- The `__main__` guard (scripts/validate_organic_data.py:50-51) is entry-point wiring and is not modelled.
