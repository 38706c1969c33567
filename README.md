# Employee CSV loader and daily department summary, modelled in Dafny

The system is two AWS Lambda handlers that share a DynamoDB table named
`Employees`:

- `lambda/process_csv.py` reads an uploaded CSV file and writes one table
  item per row, keyed by `employee_id`. It reads the columns `name`,
  `department` and `salary`, and converts `salary` with Python's `int()`. The
  first row that lacks a column (`KeyError`) or has a salary `int()` refuses
  (`ValueError`) raises. That ends the invocation; rows already written stay
  written.
- `lambda/daily_summary.py` scans the table and groups the items by
  department in a dictionary, counting items and adding up salaries as
  integers. It writes a CSV report: a header row, then one row per department
  in the order departments were first seen. It stores the report under
  `daily_summary_<date>.csv`, notifies, and returns `{"status": "success",
  "report_key": key}`.

The model keeps the handlers' imperative shape. The table is the class
`Employees.Table`, a `map` that `PutItem` updates in place. The dictionary
`dept_summary` is the class `DailySummary.DeptSummary`, a `map` plus the
sequence of its keys in insertion order, updated field by field. The CSV
writer is the class `DailySummary.CsvWriter`, whose row sequence grows one
`writerow` at a time. Each loop is a method proved against a pure
specification:

- `ProcessCsv.Load` folds the rows over the table.
- `DailySummary.Departments`, `CountOf`, `SumOf` and `Tally` give the
  departments in first-seen order and their counters.
- `DailySummary.ReportOf` gives the rows of the report.

Lemmas then state what the handlers promise in terms of these functions.

Two points follow the code rather than what a loader might be expected to
do. Salaries may be negative: `int()` accepts `-5` and nothing after it
rejects it. A row that raises does not undo the rows before it: there is no
rollback, so a failed run leaves a prefix of the file loaded.

Files:

- `Wrappers.dfy`: `Option` and `Result`.
- `PyInt.dfy`: Python's `int(text)` in base 10 and `str(n)`.
- `Employees.dfy`: the item type and the table.
- `ProcessCsv.dfy`: the loader.
- `DailySummary.dfy`: the aggregation, the report, its key and the handler.

## Model

| member | source | states |
|---|---|---|
| `Employees.Table.PutItem` | lambda/process_csv.py:18-23 | `put_item` stores the record under its `employee_id`, replacing the whole previous item; every item stays keyed by its own id |
| `PyInt.ParseIntToString` | lambda/process_csv.py:22 | `int()` reads back the decimal numeral of every integer, negative ones included, whose numeral has at most 4300 digits, and raises on the numeral of any larger one |
| `PyInt.ParseIntSign` | lambda/process_csv.py:22 | `int()` takes one sign before the numeral: `-` negates the value, `+` keeps it, and a sign before a refused numeral is refused too |
| `PyInt.StripSlice` | lambda/process_csv.py:22 | the white space `int()` skips (the six ASCII C-locale spaces, and non-ASCII `isspace` characters) is removed exactly at both ends and nowhere else |
| `PyInt.ParseIntIgnoresSpace` | lambda/process_csv.py:22 | `int()` gives the same answer with any such white space added around the text |
| `ProcessCsv.ToRecord` | lambda/process_csv.py:18-22 | a row becomes an item exactly when it has all four columns and `int()` accepts its salary; then id, name and department are copied verbatim and the salary is the parsed integer of any sign; otherwise the error is a KeyError naming the first absent column in the order employee_id, name, department, salary, or, only when all four are present, a ValueError carrying the salary text `int()` refused |
| `ProcessCsv.Ingest` | lambda/process_csv.py:17-23 | the loop leaves the table exactly as the fold `Load` over the rows says, and answers the exception of the row that stopped it, or else the number of rows written (a count the handler itself does not return) |
| `ProcessCsv.LoadStopsAtError` | lambda/process_csv.py:17-22 | once a row has raised, no later row changes anything |
| `ProcessCsv.LoadAppend` | lambda/process_csv.py:17-18 | rows are applied strictly in order: loading `a + b` is loading `a` and then `b` on its result, unless `a` raised |
| `ProcessCsv.LastWriteWins` | lambda/process_csv.py:17-23 | when no row raises, all rows are written; each id holds the whole item built from the last row naming it; ids no row names keep their old item or stay absent |
| `ProcessCsv.UnmentionedKeysUnchanged` | lambda/process_csv.py:18 | a key that no row names is left exactly as it was, even when the run raised |
| `ProcessCsv.AbortKeepsPrefix` | lambda/process_csv.py:17-22 | if row k is the first that raises, rows 0..k-1 are all written and the table is what they make of it; row k and the rows after it are not written; the error is row k's |
| `ProcessCsv.KeysGrowth` | lambda/process_csv.py:17-23 | no key is ever removed; at most as many keys are added as rows were written, and no more rows are written than there are |
| `ProcessCsv.LoadKeepsKeys` | lambda/process_csv.py:18-19 | every item the loader leaves in the table sits under its own `employee_id` |
| `ProcessCsv.DistinctRowsAllStored` | lambda/process_csv.py:17-23 | N valid rows with N distinct new ids add exactly N items, each equal to the item built from its row |
| `DailySummary.Departments` | lambda/daily_summary.py:18-23 | the dictionary's keys: exactly the departments that occur among the items, each once |
| `DailySummary.DeptSummary.Insert` | lambda/daily_summary.py:22-23 | a new department gets zeroed counters and goes to the end of the key order |
| `DailySummary.DeptSummary.IncrementCount` | lambda/daily_summary.py:24 | only the department's count grows, by one |
| `DailySummary.DeptSummary.AddSalary` | lambda/daily_summary.py:25 | only the department's salary total changes, by the salary (which may be negative) |
| `DailySummary.DeptSummary.Count` | lambda/daily_summary.py:20-25 | one item: its department's counters grow by one and by its salary, and the department is appended to the key order if it was new |
| `DailySummary.Aggregate` | lambda/daily_summary.py:18-25 | after the loop the dictionary's key order is `Departments(items)` and each department holds its item count and integer salary sum |
| `DailySummary.TallyStep` | lambda/daily_summary.py:20-25 | the counters of one more item are the old counters after one loop step |
| `DailySummary.CountAbsent` | lambda/daily_summary.py:22-23 | a department that does not occur has count 0 and salary sum 0 |
| `DailySummary.CountPositiveIffPresent` | lambda/daily_summary.py:22-24 | a department's count is positive exactly when it occurs among the items |
| `DailySummary.FirstSeenOrder` | lambda/daily_summary.py:22-30 | a department listed before another first occurs earlier among the items |
| `DailySummary.CountsAndTotalsAddUp` | lambda/daily_summary.py:19-25 | the counts over all departments add up to the number of items, and the salary totals to the sum of all salaries |
| `DailySummary.TallyIgnoresScanOrder` | lambda/daily_summary.py:15-25 | two scans holding the same items, in any order, give the same departments and the same counters |
| `DailySummary.CsvWriter.WriteRow` | lambda/daily_summary.py:29 | `writerow` appends one row and changes nothing else |
| `DailySummary.WriteReport` | lambda/daily_summary.py:29-32 | the writer receives the header and then one row per department in the dictionary's order, each carrying the count and total unchanged |
| `DailySummary.ReportLayout` | lambda/daily_summary.py:29-32 | the report is the fixed header plus one row per department in first-seen order, each with its count (at least 1) and salary total; no items gives the header only |
| `DailySummary.OneRowPerDepartment` | lambda/daily_summary.py:22-32 | each department that occurs heads exactly one data row, and no other department heads any |
| `DailySummary.KeyNamesDate` | lambda/daily_summary.py:34 | the key `daily_summary_<date>.csv` gives back the date it was made from |
| `DailySummary.KeyFromDate` | lambda/daily_summary.py:34 | every key that names a date is exactly the report key of that date |
| `DailySummary.KeysDistinguishDates` | lambda/daily_summary.py:34 | two different dates never share a report key |
| `DailySummary.LambdaHandler` | lambda/daily_summary.py:14-44 | the stored body is the report of the scanned items; its key is `daily_summary_<today>.csv` and names today's date; the handler answers success with that same key |

## Left out

- boto3 and all I/O are not modelled: S3 `get_object`, `put_object`, the DynamoDB `put_item` and `scan`, the SNS `publish` and the module-level clients. The loader takes the parsed rows and the table. The report handler takes the scanned items and the date, and returns the object it would store (key and rows).
- Pagination: `scan()` returns only its first page and the handler never asks for more. The model takes "the items" as given and claims nothing about covering the whole table.
- Scanned items are the records the loader writes (id, name, department, integer salary). So `item['department']` and `int(item['salary'])` cannot fail in the model. Items written by other means, and DynamoDB's `Decimal` numbers, are not modelled.
- The average column: `total_salary / count` and `round(avg, 2)` are floating point. The row keeps the average as its two integer operands (`Average(total, count)`), unchanged.
- CSV text: `csv.DictReader` header parsing, `csv.writer` quoting and line endings, and UTF-8 decoding are not modelled. Rows are column-to-text maps; the report is a sequence of rows of cells.
- ProcessCsv.ToRecord: when a short line makes `csv.DictReader` fill a column with `None`, the model counts the column as missing. Python stores `None` for name or department, and `int(None)` raises `TypeError`.
- PyInt.ParseInt: Unicode decimal digits other than `0`-`9`, which Python's `int()` also accepts, are refused.
- PyInt.ParseInt: the 4300-digit limit is the interpreter's default. An interpreter where `sys.set_int_max_str_digits` or `PYTHONINTMAXSTRDIGITS` changes or disables it, or a Python older than the limit, accepts longer numerals; the model does not.
- Employees.Table.PutItem: a put never fails in the model. boto3 raises before writing a salary of more than 38 significant digits (for example `1` followed by 38 zeros), DynamoDB refuses an empty `employee_id` as a key, and the service can refuse any write. Each of these stops the loop like a bad row, with the earlier rows kept; `Load` writes such rows instead.
- The S3 event payload (`event['Records'][0]...`) and `date.today()`: the date is a string parameter.
- The bucket and topic constants, the SNS message text and the `print` logging are not modelled.
