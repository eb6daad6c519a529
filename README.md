# SGS ETL pipeline in Dafny

This project models the three batch stages of an ETL pipeline for time series
from the Central Bank of Brazil's public statistics API (SGS): IPCA inflation
(series 433), the SELIC policy rate (series 1178) and the USD exchange rate
(series 1). It proves properties of that model.

- **Extract** (`etl/extract.py`). `fetch_bcb_series` builds the request window:
  - the start date defaults to 2015-01-01 and the end date to today;
  - for the daily series 1178 and 1, the start is clamped to today's date ten
    years back;
  - both dates are written as `DD/MM/YYYY`;
  - the request goes to `<base>.<id>/dados` with the `formato`, `dataInicial`
    and `dataFinal` parameters;
  - any answer other than status 200 is refused.

  The `__main__` loop fetches the registry (`ipca`, `selic`, `usd`) in order
  and saves each raw dataset. The first failure ends the whole run.
- **Transform** (`etl/transform.py`). `clean_bcb_data` works on a copy of the
  rows:
  - it parses each date as day/month/year;
  - it rewrites every comma in the value as a dot and parses the number;
  - it drops every row where either parse fails;
  - it sorts the rest by date.

  `process_indicator` skips an indicator whose raw file is missing. The
  `__main__` loop runs it for each registry name.
- **Load** (`etl/load.py`). `load_to_postgres` replaces one table wholesale
  (`if_exists="replace"`). `process_indicator` skips a missing clean file. The
  `__main__` loop loads each registry name into a table of that name.

Module layout:

| module | what it holds |
|---|---|
| `Wrappers` | `Option` and `Result` |
| `Digits` | decimal digit text to and from natural numbers, zero padding |
| `Calendar` | Python's `date` (validity, ordering, `max`, `replace(year=...)`) and the `strptime`/`strftime` formats `%Y-%m-%d` and `%d/%m/%Y` |
| `Records` | raw and clean rows, the indicator registry, the shared data folder |
| `Extract`, `Transform`, `Load` | the three stages |

How the model is shaped:
- **The data folder** `../data` is a `DataFolder` object. It holds one map for
  the raw files and one for the clean files, both keyed by indicator name. A
  file exists exactly when its name is a key.
- **The database** is a `Database` object. It maps table names to rows. A
  ghost log records the order in which tables are replaced; it is no state
  of the database.
- **The HTTP exchange and today's date** are parameters.
- **Cleaning** filters the rows into a fresh array and sorts it in place with
  an insertion sort. Its result is specified by the ghost predicate
  `Transform.Cleaned`: sorted by date, and a permutation of the parsable rows.
  The sort in `etl/transform.py:34` is pandas' default quicksort, which is not
  stable, so the model promises nothing about the order of rows that share a
  date.

Three facts about the code that shape the model:
- **No failure isolation.** The extraction loop (`etl/extract.py:86-90`)
  catches nothing, so a failed fetch aborts the remaining indicators.
  `RunExtraction` returns `Aborted(name, error)` and writes nothing further.
- **Only status 200 is accepted** (`etl/extract.py:61`): 201 or 204 fail like
  any error status.
- **The sort is not stable** (`etl/transform.py:34`, see above).

## Model

| member | source | states |
|---|---|---|
| Calendar.DaysInMonth | etl/extract.py:48 | a month has 28 to 31 days; February has 29 exactly in leap years |
| Calendar.MakeDate | etl/extract.py:48 | a date is built exactly when year, month and day form a valid calendar date (years 1..9999) |
| Calendar.DateMax | etl/extract.py:45 | `max` of two dates is one of them and is no earlier than either |
| Calendar.ReplaceYear | etl/extract.py:44 | `replace(year=y)` succeeds exactly when y is in 1..9999 and the date is not 29 February moved to a non-leap year; it keeps month and day |
| Calendar.LeapDayTenYearsBackFails | etl/extract.py:44 | from 29 February, moving ten years back always fails |
| Calendar.FormatIso | etl/extract.py:40 | `%Y-%m-%d` text has length 10 with dashes at positions 4 and 7 |
| Calendar.FormatDmy | etl/extract.py:48-49 | `%d/%m/%Y` text has two-digit day, two-digit month and four-digit year fields that read back as the date's fields |
| Calendar.ParseIso | etl/extract.py:45 | a successful `%Y-%m-%d` parse gives a valid calendar date |
| Calendar.ParseDmy | etl/transform.py:30 | a successful `%d/%m/%Y` parse gives a valid calendar date |
| Calendar.ParseIsoMeaning | etl/extract.py:45-49 | `%Y-%m-%d` text parses to a date exactly when the date is valid and the text spells it: four year digits, then month and day fields of one or two digits each, separated by `-`, nothing more |
| Calendar.ParseDmyMeaning | etl/transform.py:30 | `%d/%m/%Y` text parses to a date exactly when the date is valid and the text spells it: day and month fields of one or two digits each, then four year digits, separated by `/`, nothing more |
| Calendar.IsoRoundTrip | etl/extract.py:46-48 | formatting a valid date as `%Y-%m-%d` and parsing it back gives the same date |
| Calendar.DmyRoundTrip | etl/extract.py:48-49 | formatting a valid date as `%d/%m/%Y` and parsing it back gives the same date |
| Extract.Endpoint | etl/extract.py:51 | the endpoint is the base URL, a dot, the series id in decimal (read back as the id), then `/dados` |
| Extract.EffectiveStart | etl/extract.py:43-48 | the effective start is a valid date; it fails only with `InvalidDate`, or, for a daily series, with `YearReplaceFailed` of today's year minus ten |
| Extract.EffectiveEnd | etl/extract.py:39-40 | the end date is a valid date; it fails only for a given end, with `InvalidDate` of that text |
| Extract.RequestWindow | etl/extract.py:39-49 | the window exists exactly when both dates do; it then runs from the effective start to the effective end, both valid; a failing start is reported before the end is looked at, and a failing end after a good start is reported with the end's own error |
| Extract.BuildRequest | etl/extract.py:48-56 | the request is built exactly when the window is; it carries the window's error otherwise; it has the endpoint and three parameters, `formato=json`, then `dataInicial` and `dataFinal`, which are the window's start and end as zero-padded `%d/%m/%Y` text and parse back to them |
| Extract.CheckResponse | etl/extract.py:61-68 | the answer is accepted exactly when the status is 200 and the array is non-empty, and then its records are returned; any other status fails with that status and the body; status 200 with an empty array fails with `NoColumns` |
| Extract.FetchSeries | etl/extract.py:27-69 | the fetch succeeds exactly when the window exists and the answer has status 200 and records, and then returns those records; a window error is returned before the answer is looked at; any other status fails with that status and the body |
| Extract.DailyEffectiveStart | etl/extract.py:43-46 | for a daily series the start is the later of the requested start and today ten years back; it fails exactly when `replace` or the start's parse fails |
| Extract.EffectiveEndValue | etl/extract.py:39-40 | an omitted end date is today; a given one is its parse, and fails exactly when the parse fails |
| Extract.DailyStartIsClamped | etl/extract.py:43-49 | for series 1178 and 1 the window exists exactly when `replace`, the start's parse and the end's parse succeed, and its start is the later of the requested start and today ten years back |
| Extract.DailyStartNotBeforeTenYears | etl/extract.py:43-46 | a daily series' window never starts before today ten years back, nor before the requested start |
| Extract.OtherSeriesStartUnchanged | etl/extract.py:43-48 | any other series, such as 433, starts at the parsed requested start; an unparsable start fails with `InvalidDate` carrying that text |
| Extract.DefaultWindow | etl/extract.py:27-40 | with no dates given, the window ends today; for a non-daily series it is 2015-01-01 to today |
| Extract.LeapDayFailsForDailySeries | etl/extract.py:43-44 | on 29 February a daily series fails with `YearReplaceFailed(year - 10)`, whatever the dates and the server's answer |
| Extract.DefaultFetchAccepted | etl/extract.py:39-62 | a non-daily series with default dates returns the records of any status-200, non-empty answer |
| Extract.ClampExample | etl/extract.py:43-56 | SELIC from 1990-01-01 on 2024-06-01 is requested at `...bcdata.sgs.1178/dados` from `01/06/2014` to `01/06/2024` |
| Extract.OnlyStatus200Succeeds | etl/extract.py:61-62 | once the request is built, the fetch succeeds exactly for status 200 with records; 201 or 204 fail like any other status, with status and body |
| Extract.ExtractRun | etl/extract.py:86-90 | the run completes exactly when every fetch succeeds |
| Extract.ExtractRunEffect | etl/extract.py:86-90 | the run saves the raw files of exactly the indicators before the first failed fetch, each with its records, and reports that failure or completion; every other raw file is untouched |
| Extract.LeapDayAbortsRemaining | etl/extract.py:20-24 | on 29 February the run saves IPCA, aborts at SELIC, and never fetches USD |
| Extract.LeapDayAbortsAfterFirst | etl/extract.py:86-90 | for a registry starting with a non-daily then a daily series, on 29 February the run saves the first and aborts at the second with `YearReplaceFailed` |
| Extract.RunExtraction | etl/extract.py:83-90 | the loop leaves the raw files and outcome that the run specification gives, and leaves the clean files alone |
| Extract.ExtractEach | etl/extract.py:86-90 | fetching and saving each entry in turn gives the run specification's raw files and outcome, stopping at the first failure |
| Transform.ReplaceCommas | etl/transform.py:31 | the rewrite keeps the length, leaves no comma, turns each comma into a dot and keeps every other character |
| Transform.ParseNumber | etl/transform.py:32 | a number is non-empty text; without a leading `-` it is never negative, with one it is never positive |
| Transform.ParseValue | etl/transform.py:31-32 | a value is non-empty text; without a leading `-` it is never negative, with one it is never positive |
| Transform.ValueMeaning | etl/transform.py:31-32 | a value parses to `v` exactly when it is an optional `-` or `+`, digits, and optionally a comma or dot followed by digits, with at least one digit, and `v` is the digits' decimal value, negated after `-` |
| Transform.ValueRead | etl/transform.py:31-32 | every text of that grammar parses to the value it denotes, with or without a separator or a sign |
| Transform.ValueSpelled | etl/transform.py:31-32 | every value that parses is a text of that grammar denoting the parsed value |
| Transform.SignRead | etl/transform.py:31-32 | a leading `-` negates an unsigned number, a leading `+` keeps it, and the comma rewrite leaves the sign alone |
| Transform.PlainAndSignedExamples | etl/transform.py:31-32 | `"5"` parses to 5 and `"+5,5"` to 5.5 |
| Transform.ValueAlphabet | etl/transform.py:31-32 | a value that parses holds only digits, commas and dots after at most one leading sign |
| Transform.NumberAlphabet | etl/transform.py:32 | a number holds only digits and dots after at most one leading sign |
| Transform.DecimalSeparatorMeaning | etl/transform.py:31-32 | `d,f` and `d.f` both parse to the decimal value of the digits |
| Transform.NegativeDecimalMeaning | etl/transform.py:31-32 | `-d,f` and `-d.f` parse to the negated decimal value |
| Transform.TwoSeparatorsRejected | etl/transform.py:31-33 | a value with two separators (commas or dots) does not parse, so its row is dropped |
| Transform.CommaValueExample | etl/transform.py:31-32 | `"5,5"` parses to 5.5 |
| Transform.ThousandsSeparatorExample | etl/transform.py:31-33 | `"1,234,5"` does not parse |
| Transform.NumberTwoDots | etl/transform.py:32 | text with two dots is not a number, signed or not |
| Transform.ParseRecord | etl/transform.py:30-33 | a row survives exactly when its date and its value both parse, and then it is the record of the parsed date and the parsed value, with a valid date |
| Transform.RowMeaning | etl/transform.py:30-33 | a row is kept as a given record exactly when its date is day/month/year text of that record's valid date and its value is a text of the value grammar denoting that record's value |
| Transform.WellFormedRowParses | etl/transform.py:30-32 | a row holding a date's `%d/%m/%Y` text and a comma decimal parses to that date and that decimal |
| Transform.MalformedDateExamples | etl/transform.py:30 | `"bad"` and `31/02/2020` are not dates |
| Transform.Kept | etl/transform.py:33 | the surviving rows are no more than the input rows, and all hold valid dates |
| Transform.KeptMembers | etl/transform.py:33 | a record survives `dropna` exactly when it is the parse of some input row |
| Transform.CleanedFacts | etl/transform.py:33-34 | any cleaning is no longer than its input, holds only parses of input rows, loses no parsable row, and holds only valid dates |
| Transform.AllMalformedCleansToEmpty | etl/transform.py:33-37 | input with no parsable row cleans to the empty result, not an error |
| Transform.CleanExample | etl/transform.py:29-37 | the three-row example cleans to (2020-03-01, 5.5) then (2020-03-02, 5.7) |
| Transform.SortByDate | etl/transform.py:34 | after the in-place sort the first n rows are in date order and are a permutation of the rows before; the rest of the array is untouched |
| Transform.InsertNext | etl/transform.py:34 | one insertion step extends the date-ordered prefix by one row, keeps the first n rows a permutation of themselves, and leaves the rest of the array untouched |
| Transform.DropUnparsable | etl/transform.py:30-33 | a fresh array whose first n rows are exactly the parsable rows, parsed, in input order |
| Transform.CleanBcbData | etl/transform.py:17-37 | the result is a cleaning of the input: date-sorted, a permutation of the parsable rows, no longer than the input, with no fabricated row and no lost row |
| Transform.ProcessIndicator | etl/transform.py:39-58 | a missing raw file changes nothing; otherwise the clean file of that indicator, and only it, is replaced by a cleaning of the raw rows; raw files are untouched |
| Transform.TransformedStep | etl/transform.py:64-65 | cleaning one more indicator extends the loop's effect by that indicator |
| Transform.RunTransformation | etl/transform.py:61-65 | after the loop each registry indicator with a raw file has a clean file that is a cleaning of it; every other clean file and every raw file is as before |
| Load.Replace | etl/load.py:41 | the named table holds exactly the given rows; every other table is unchanged |
| Load.LoadIndicator | etl/load.py:44-58 | with a clean file, the indicator's table holds exactly the file's rows; every other table, and every table when the file is missing, is as before |
| Load.LoadRun | etl/load.py:60-64 | after the loop a table exists exactly when it existed before or is listed and has a clean file |
| Load.LoadedNamesMembers | etl/load.py:51-54 | the loop replaces exactly the tables that are listed and have a clean file |
| Load.ReplaceDiscardsOld | etl/load.py:41 | the table's previous rows, or its absence, make no difference to the result |
| Load.ReplaceIdempotent | etl/load.py:41 | loading the same rows into the same table twice equals loading them once |
| Load.LoadRunEffect | etl/load.py:51-64 | after the loop, each listed name with a clean file has its table equal to the file's rows; every other table is as before |
| Load.LoadRunIdempotent | etl/load.py:63-64 | running the load loop twice over the same clean files leaves the same tables as running it once |
| Load.MissingFileSkipped | etl/load.py:51-54 | with SELIC's clean file missing, the SELIC table stays as it was while IPCA and USD are loaded, in that order |
| Load.MiddleSkipped | etl/load.py:51-54 | of three names whose middle one has no clean file, the middle table is untouched, the others get their files' rows, and the first and last are replaced in that order |
| Load.Database.LoadToPostgres | etl/load.py:25-42 | the store becomes the old store with the named table replaced by the rows, and the replacement is logged; nothing is returned |
| Load.Database.ProcessIndicator | etl/load.py:44-58 | a missing clean file changes nothing; otherwise the indicator's table is replaced by the file's rows |
| Load.Database.LoadEach | etl/load.py:63-64 | loading each listed name in turn gives the loop specification's tables and replacement log |
| Load.Database.RunLoad | etl/load.py:60-66 | the load loop over `ipca`, `selic`, `usd` gives the loop specification's tables and replaces the tables in that order |

## Left out

- The HTTP request, JSON decoding and DataFrame construction (`etl/extract.py:58-69`) are outside the model. The server's answer is a parameter: a status, a body and two-field records. An empty array is modelled as failing at the column rename.
- CSV reading and writing, `os.makedirs` and `os.path.exists` are outside the model. Files are map entries. The type inference of `read_csv` is not modelled, so clean dates are not turned back into text on reload.
- The SQLAlchemy engine, the connection settings with credentials, and transactions, atomicity and concurrent readers are outside the model. The database is an in-memory map.
- `datetime.today()` is read once on line 40 (for an omitted end date) and twice on line 44 (for the year and for the date whose year is replaced), so a fetch of a daily series with the default end date reads the clock three times, and each fetch of a run reads it afresh. The model uses one `today` for a whole extraction run. So it does not capture reads that straddle midnight: the end date and the clamp may then fall on different days, and if the two reads on line 44 straddle New Year's midnight, 31 December is combined with the next year minus ten, which steps back nine years instead of ten. Time of day is dropped: only the date part is formatted, so the date-level `max` gives the same text.
- Values are exact decimals over a restricted grammar: optional sign, digits, at most one `.`, at least one digit (`Transform.ValueMeaning`). Floating-point rounding is not modelled. Nor is the rest of what `pd.to_numeric` accepts: exponents, `inf`/`nan` spellings, surrounding whitespace.
- Dates outside pandas' Timestamp range (1677 to 2262) are not modelled. `pd.to_datetime` with `errors="coerce"` would turn them into NaT and drop the row; the model keeps them.
- `strptime` details beyond ASCII digits (space-padded days, non-ASCII digits) are not modelled.
- `%Y` formatting is always four digits, zero-padded. On platforms that do not pad years below 1000, the ten-year clamp for such years would produce text that fails to parse again; that is not modelled.
- Calendar.ParseIso: the contract states only that a parsed date is valid. Which texts parse, and to which date, is stated by `Calendar.ParseIsoMeaning`.
- Calendar.ParseDmy: the contract states only that a parsed date is valid. Which texts parse, and to which date, is stated by `Calendar.ParseDmyMeaning`.
- Transform.SortByDate: no stability is claimed, since the source's quicksort does not promise it.
- A failing `read_csv`, `to_csv` or `to_sql` (a missing folder, an unreadable file, a database error) is not modelled. In the source such a failure aborts the rest of the transformation or load loop (`etl/transform.py:64-65`, `etl/load.py:63-64`), as a failed fetch aborts extraction, because neither loop catches anything. The model's file and table operations always succeed.
- `print` logging is not modelled, including the row count printed by `load_to_postgres` and the cleaned-row count.
- The dashboard (`dashboard/app.py`) is not part of this model.
- Idempotence of cleaning across the CSV round trip is not claimed. Clean files store ISO dates, which `%d/%m/%Y` would reject.
