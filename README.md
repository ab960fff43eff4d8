# ARGO ocean-data pipeline and keyword responder, in Dafny

This project models the data pipeline of `Khack.py` and the keyword
responder `ai_specialist` of `Ghack.py`, and proves what they promise.

The pipeline takes a URL to a table of ocean measurements through five stages:

- `download_file` chooses a local file name for the URL and fetches the file
  only when no file of that name exists yet.
- `load_dataset` picks the CSV or JSON reader from the path's suffix.
- `clean_dataset` applies four fixed steps in order:
  1. drop duplicate rows;
  2. drop all-missing columns;
  3. turn the sentinels -999, -9999 and 9999 into missing cells;
  4. coerce every time/date-named column to timestamps.
- `dataset_summary` computes the record count, count/min/max/mean of every
  numeric column, and the time window of the first time/date-named column.
- `print_report` prints the summary line by line.

`example_flow` runs the stages in order.

Modules, one per stage:

| module | models |
|---|---|
| `Outcome` | `Option`, `Result` and the exceptions that escape the pipeline |
| `TextOps` | the string operations the source relies on: `lower()`, `in`, `endswith`, `split("?")[0]`, `os.path.basename`, `str(int)` |
| `Tables` | the DataFrame |
| `Fetcher` | `download_file`, with the file system as the class `FileCache` |
| `Loader` | `load_dataset` |
| `Cleaner` | `clean_dataset`, as one function per step, the method `Clean`, and the method `CoerceTimeColumns` for its `for` loop |
| `Summarizer` | `dataset_summary`, with the method `Summarize` for its loop |
| `Reporter` | `print_report`, as the list of strings it prints |
| `Pipeline` | `example_flow`, as the method `ExampleFlow` and its specification function `Flow` |
| `Specialist` | `ai_specialist` |
| `Scenarios` | worked tables put through cleaning and summarising |

In `Tables`, the DataFrame is modelled as follows:

- It is a list of typed columns and a list of rows of cells.
- A cell is `Missing` (NaN/NaT), `Num(real)`, `Text(string)` or `Time(int)`, an instant count.
- A column's `Kind` stands for its pandas dtype: numeric, object or datetime64.
- The subset type `Frame` holds the tables that pandas readers produce. These are rectangular, every cell fits its column's dtype, and the column labels are unique.

The oracles are passed in as parameters:

- the network's answer to a request is a `bool`;
- the CSV/JSON readers are a `Parser`;
- `pd.to_datetime` on one value is a `TimeParser`;
- `str()` of a timestamp and `str()` of a float are `StampText` and `RealText`.

## Model

| member | source | states |
|---|---|---|
| TextOps.Lower | Khack.py:49 | `lower()` keeps the length, leaves no upper-case letter, maps each upper-case letter to its lower-case partner and keeps every other character |
| TextOps.LowerIdempotent | Ghack.py:14 | lower-casing an already lower-cased string changes nothing |
| TextOps.ContainsIffOccurs | Ghack.py:15 | the substring test `sub in s` holds exactly when `sub` occurs at some position of `s` |
| TextOps.BeforeFirstSplit | Khack.py:10 | `(p + "?" + q).split("?")[0]` is `p` when `p` has no `?` |
| TextOps.AfterLastSplit | Khack.py:10 | the basename of `p + "/" + q` is `q` when `q` has no `/` |
| TextOps.Basename | Khack.py:10 | `os.path.basename` is the longest `/`-free suffix of the path: it follows a `/` or starts the path, and it is empty exactly when the path is empty or ends in `/` |
| TextOps.NatToString | Khack.py:79 | `str(n)` of a count is a non-empty string of decimal digits |
| Tables.IsTimeNameIgnoresCase | Khack.py:49 | the time/date name test gives the same answer for a name and its lower-cased form |
| Tables.ColumnCells | Khack.py:61-66 | `df[col]` is the cells of that column, one per row, top to bottom |
| Tables.ColumnConforms | Khack.py:61 | every cell of a column fits the column's dtype |
| Fetcher.UrlPath | Khack.py:10 | `url.split("?")[0]` is a prefix of the URL without any `?`, and it is followed by a `?` unless it is the whole URL |
| Fetcher.LocalName | Khack.py:10 | the name is never empty, and a non-empty `local_path` wins |
| Fetcher.LocalNameRule | Khack.py:10 | without a `local_path`: a URL path that is empty or ends in `/` gives "ocean_data.csv"; any other gives the path's last segment, which is free of `/` and `?`, ends the path, and starts the path or follows a `/` |
| Fetcher.LocalNameOfUrl | Khack.py:10 | ".../dir/name?query" is stored as "name" |
| Fetcher.LocalNameOfPlainUrl | Khack.py:10 | ".../dir/name" with no query is stored as "name" |
| Fetcher.LocalNameOfDirectoryUrl | Khack.py:10 | a URL whose path ends in `/` is stored as "ocean_data.csv" |
| Fetcher.FileCache.constructor | Khack.py:11 | the files present are the given ones and no request has been made |
| Fetcher.FileCache.Download | Khack.py:8-19 | a cached name is returned with no request and no change. Otherwise exactly one request is made. On success the name is added and returned; on failure a fetch error is returned and nothing is written |
| Fetcher.DownloadTwice | Khack.py:11-19 | two downloads of the same URL: when the name is cached or the first request succeeds, both return the name, the file is present afterwards and at most one request is made (none when cached). When the first request fails, it returns the fetch error and the second call requests again, succeeding or failing as its answer says |
| Loader.FormatOf | Khack.py:24-29 | the CSV reader is chosen exactly for a ".csv" suffix, the JSON reader exactly for a ".json" suffix |
| Loader.Load | Khack.py:22-29 | a ".csv" path goes to the CSV reader and a ".json" path to the JSON reader; anything else fails with the unsupported-format error and its message |
| Loader.UnsupportedIgnoresParsers | Khack.py:28-29 | an unknown suffix fails before any reader is called, whatever the readers would do |
| Loader.XmlRejected | Khack.py:28-29 | a ".xml" path is refused |
| Loader.UpperCaseSuffixRejected | Khack.py:24-29 | the suffix test is case-sensitive: ".CSV" is refused |
| Cleaner.DedupRows | Khack.py:39 | the output is no longer than the input and holds only input rows |
| Cleaner.DropDuplicates | Khack.py:39 | the columns are unchanged; a frame with no columns is returned as it is, and any other frame keeps the deduplicated rows |
| Cleaner.DedupAppend | Khack.py:39 | reading one more row keeps it exactly when it has not been seen before |
| Cleaner.DedupNoRepeats | Khack.py:39 | no two output rows are equal |
| Cleaner.DedupSameRows | Khack.py:39 | a row occurs in the output exactly when it occurs in the input |
| Cleaner.DedupKeepsOrder | Khack.py:39 | the output rows appear in the order of their first occurrences in the input |
| Cleaner.DedupCount | Khack.py:39 | the output has the input's row count minus the number of rows that repeat an earlier row |
| Cleaner.KeptColumns | Khack.py:42 | the kept indices are strictly increasing, and an index is kept exactly when its column has a non-missing cell |
| Cleaner.DropEmptyColumns | Khack.py:42 | the row count is unchanged, and the kept columns keep their headers and cells in their original order |
| Cleaner.DropEmptyColumnsExactly | Khack.py:42 | a column survives exactly when it is not entirely missing |
| Cleaner.NoEmptyColumnAfterDrop | Khack.py:42 | right after the drop no column is entirely missing |
| Cleaner.KeptColumnsAll | Khack.py:42 | with no empty column every index is kept, in order |
| Cleaner.DropEmptyColumnsUnchanged | Khack.py:42 | a table without an empty column passes unchanged |
| Cleaner.DropEmptyColumnsIdempotent | Khack.py:42 | dropping empty columns twice equals dropping them once |
| Cleaner.ReplaceSentinels | Khack.py:45 | in every column, a sentinel cell becomes missing and every other cell is unchanged. Headers and the row count are unchanged |
| Cleaner.NoSentinelAfterReplace | Khack.py:45 | no sentinel is left after the replacement |
| Cleaner.CoerceCell | Khack.py:50 | with errors="coerce": missing stays missing and a timestamp stays itself. Any other value becomes a timestamp exactly when the parser reads it, and then the instant read; otherwise it becomes missing |
| Cleaner.CoerceColumn | Khack.py:50 | the assignment to `df[col]` makes that column datetime and coerces its cells; every other cell and header is unchanged |
| Cleaner.CoercedTable | Khack.py:48-50 | after the loop, time/date-named columns are datetime columns of coerced cells. Other columns, all names, the column order and the row count are unchanged |
| Cleaner.CoerceTimeColumns | Khack.py:48-50 | the `for col in df.columns` loop, proved by invariants to produce CoercedTable |
| Cleaner.CoerceIdempotent | Khack.py:48-50 | coercing an already coerced table changes nothing |
| Cleaner.Cleaned | Khack.py:32-52 | the cleaned table has no more rows or columns than the input, holds no sentinel, and every time/date-named column is a datetime column |
| Cleaner.Clean | Khack.py:32-52 | `clean_dataset` applies the four steps in the source's order |
| Cleaner.LaterDuplicatesStep | Khack.py:39 | one more row adds its index to the later duplicates exactly when it repeats an earlier row |
| Cleaner.DedupKeepsAllMissing | Khack.py:39-42 | deduplication cannot empty or fill a column |
| Cleaner.CleanedRowCount | Khack.py:39-52 | the cleaned table has one row per distinct input row, except that a table without columns keeps all its rows |
| Cleaner.CleanedKeepsColumn | Khack.py:39-52 | an input column appears in the cleaned table exactly when it has a non-missing cell |
| Cleaner.CleanedKeepsNonEmptyColumns | Khack.py:39-52 | the same, for every input column at once |
| Cleaner.SentinelColumnSurvivesDrop | Khack.py:39-42 | a non-empty column made only of sentinels survives dedup and the empty-column drop, still all sentinels |
| Cleaner.SentinelColumnEndsMissing | Khack.py:45-50 | such a column is all missing after the replacement and the time step |
| Cleaner.SentinelColumnKeptEmpty | Khack.py:39-52 | so a column made only of sentinels is kept by `clean_dataset` and comes out entirely missing |
| Summarizer.PresentCount | Khack.py:63 | `count()` is the number of cells minus the number of missing cells |
| Summarizer.NumValues | Khack.py:64-66 | the numbers of a column, skipping missing cells: each number occurs as often as the column holds it |
| Summarizer.PresentCountIsNumCount | Khack.py:63 | in a numeric column, `count()` is the number of numbers |
| Summarizer.MinOf | Khack.py:64 | the minimum is one of the values and is at most every value |
| Summarizer.MaxOf | Khack.py:65 | the maximum is one of the values and is at least every value |
| Summarizer.MeanWithin | Khack.py:66 | the mean of values between lo and hi lies between lo and hi |
| Summarizer.MeanBetween | Khack.py:64-66 | min <= mean <= max for a non-empty list of numbers |
| Summarizer.StatsOf | Khack.py:62-67 | valid counts the non-missing cells. min, max and mean are NaN exactly when no cell is a number. Otherwise min and max are numbers of the column bounding every number in it, and min <= mean <= max |
| Summarizer.StatsBounds | Khack.py:62-67 | valid <= rows. With valid = 0, min, max and mean are NaN. With valid > 0, min and max are values of the column bounding every value, and min <= mean <= max |
| Summarizer.NumericColumns | Khack.py:60-61 | the numeric column indices, strictly increasing, exactly those of numeric dtype |
| Summarizer.PickFollowsNumericColumns | Khack.py:60-62 | picking per-column items for the numeric columns keeps exactly those, in column order |
| Summarizer.EntriesFollowNumericColumns | Khack.py:60-67 | `summary["columns"]` has one entry per numeric column, in column order: that column's name and statistics. Other columns get none |
| Summarizer.EntriesBounded | Khack.py:60-67 | every entry obeys the bounds of StatsBounds for the table's row count |
| Summarizer.Earliest | Khack.py:72 | `min()` of a datetime column is NaT exactly when no cell is a timestamp. Otherwise it is a timestamp of the column no later than any other |
| Summarizer.Latest | Khack.py:73 | `max()` of a datetime column is NaT exactly when no cell is a timestamp. Otherwise it is a timestamp of the column no earlier than any other |
| Summarizer.EarliestNotAfterLatest | Khack.py:72-73 | start and end are both NaT or neither is, and start is never after end |
| Summarizer.TimeColumns | Khack.py:69 | `time_cols` lists, in column order, exactly the time/date-named columns |
| Summarizer.FirstTimeColumn | Khack.py:69-72 | `time_cols[0]` is absent exactly when no column is time/date-named. Otherwise it is time/date-named and no earlier column is |
| Summarizer.FirstTimeColumnAt | Khack.py:69-72 | the first time/date-named column is the one chosen |
| Summarizer.TimeRangeOf | Khack.py:69-74 | `time_range` is absent exactly when no column is time/date-named |
| Summarizer.TimeRangeFromFirstTimeColumn | Khack.py:69-74 | `time_range` is the `str()` of the min and max of the first time/date-named column |
| Summarizer.SummaryOf | Khack.py:55-75 | `n_records` is the row count; `columns` has one entry per numeric column, named after it, in column order; `time_range` is present exactly when some column is time/date-named |
| Summarizer.SummaryBounds | Khack.py:55-75 | `n_records` is the row count. Every entry has valid <= n_records and, when valid > 0, finite min <= mean <= max |
| Summarizer.Summarize | Khack.py:55-75 | the loop over `df.columns` builds exactly SummaryOf, with valid <= n_records for every entry |
| Reporter.ReportLines | Khack.py:77-83 | the lines are, in order: the header, "Total records", the time-range line only when there is a time range, then one line per entry in summary order |
| Reporter.TimeLine | Khack.py:81 | the time-range line starts "Time range: " and ends with the extra newline |
| Reporter.ColumnLine | Khack.py:83 | a column line starts " - name: valid=" |
| Reporter.ColumnLineInSummaryOrder | Khack.py:82-83 | the k-th column line names the k-th summary entry |
| Reporter.TimeLineOnlyWhenPresent | Khack.py:80-81 | a line starting "Time range: " is printed only when the summary has a time range, and only as the third line |
| Pipeline.Flow | Khack.py:86-92 | a failed fetch of an uncached file gives the fetch error; otherwise a load error is passed through, and a loaded table gives its cleaned form and the summary of that cleaned form |
| Pipeline.ExampleFlow | Khack.py:86-92 | the result is Flow: the first error is passed through with nothing printed. On success it returns the cleaned table and its summary and prints the report. The cache changes as Download promises |
| Pipeline.FlowSummaryDescribesCleanTable | Khack.py:88-92 | a successful run returns a summary of the very table it returns: the record count is that table's row count, and every entry is bounded |
| Pipeline.FetchFailureSkipsLoading | Khack.py:13-14 | a failed fetch ends the run with the fetch error, whatever the readers would do |
| Pipeline.CachedRunIgnoresNetwork | Khack.py:11 | with the file cached, the outcome does not depend on the network |
| Pipeline.DefaultNameReadAsCsv | Khack.py:24-25 | the fallback name "ocean_data.csv" is read with the CSV reader |
| Specialist.AiSpecialist | Ghack.py:9-24 | the answer is always one of the five fixed strings |
| Specialist.KeywordPriority | Ghack.py:14-24 | each answer is given exactly when its keyword occurs in the lower-cased query and no earlier keyword does. The default is given exactly when none of the four occurs |
| Specialist.CaseInsensitive | Ghack.py:14 | a query and its lower-cased form get the same answer |
| Specialist.SampleAnswers | Ghack.py:25-30 | the script's three sample questions get the temperature, salinity and graph answers |
| Scenarios.ProfileDeduplicated | Khack.py:39 | the repeated first row of a sample profile is dropped |
| Scenarios.ProfileSentinelsReplaced | Khack.py:45 | its -9999 temperature becomes missing |
| Scenarios.ProfileDatesParsed | Khack.py:48-50 | its "Time" column becomes a datetime column holding the two parsed days, while "Depth", "Temperature" and "Salinity" are untouched |
| Scenarios.ProfileCleaned | Khack.py:39-52 | `clean_dataset` turns the profile into the expected two-row table |
| Scenarios.ProfileSummary | Khack.py:55-75 | its summary is two records, with Depth (2, 0, 10, 5), Temperature (1, 20.5, 20.5, 20.5) and Salinity (2, 35.0, 35.1, 35.05), and the two days as the time range |
| Scenarios.SentinelOnlyCleaned | Khack.py:42-45 | a column holding only -9999 is kept by cleaning and comes out as one missing cell |
| Scenarios.EmptiedColumnDroppedOnSecondPass | Khack.py:42 | cleaning that result again drops the column |
| Scenarios.CleanNotIdempotent | Khack.py:42-45 | so `clean_dataset` applied twice differs from applying it once |
| Scenarios.CleanedMayRepeatRows | Khack.py:39-45 | rows holding -999 and -9999 are distinct at dedup time and come out as two equal rows |

## Left out

- The network and the file system:
  - `requests.get`, its timeout, `raise_for_status` and the bytes written are one boolean answer per request;
  - the file system is the set of names in `FileCache`, and a file written is its name added to that set;
  - a `local_path` that names a directory, or whose write fails, is not modelled.
- Printing: `print_report` and the progress messages of `download_file` are not output. `print_report` is the list of strings it would print, and the progress messages are dropped.
- `pd.read_csv` and `pd.read_json` are the `Parser` oracle. Their dtype inference is what gives each column its `Kind`. A `bool` column, which pandas also calls numeric, has no counterpart.
- `pd.to_datetime` is the `TimeParser` oracle, applied to each cell on its own. pandas may infer one date format for a whole column; the model does not capture that.
- `str()` of a `Timestamp` and of a `float` are the `StampText` and `RealText` oracles.
- Floating point: values, sums and the mean are exact reals, and NaN is the `Float.NaN` case. Rounding, infinities and `float` overflow are not modelled.
- The sentinel test compares exact values. The integer sentinels of `replace` are matched against numeric cells only, never against text.
- `lower()` maps ASCII letters only. Unicode case mapping is not modelled.
- Summarizer.TimeRangeOf: the time window is modelled for datetime columns only (`Summarizer.Earliest` and `Summarizer.Latest` see only timestamps). A time/date-named column of text or numbers gives NaT for both ends, where pandas gives its minimum and maximum value. The pipeline summarises only cleaned tables, where every such column is a datetime column (`Cleaner.Cleaned`).
- Tables with repeated column labels are excluded by `Frame`, since pandas' readers rename repeated headers.
- TextOps.NatToString: states that `str(n)` is a non-empty digit string, not which digits it has.
- `clean_dataset` is not idempotent, and a cleaned table can keep an all-missing column and repeated rows, because the empty-column drop and dedup run before the sentinel replacement. The model follows the code here and proves the counterexamples (`Scenarios.CleanNotIdempotent`, `Cleaner.SentinelColumnKeptEmpty`, `Scenarios.CleanedMayRepeatRows`).
- The `__main__` block of `Khack.py` is not modelled; it calls `example_flow` on a fixed URL and prints any exception. `Hack.py` (plotting), `Ahack.py` (a web service and notebook code), the top-level loading and printing of `Ghack.py`, and `plot_profile` are not part of this model.
