# Daily install sync — verified model of its row-shaping core

`zero_cost_etl/daily_sync.py` is a once-a-day job. It reads the install counts of the
day two days before the run from two vendor reports and appends them to a Google Sheet:

- the Google Play monthly overview export, read from a Cloud Storage bucket;
- the App Store Connect daily sales report.

Around the network and library calls sits a small amount of deterministic logic. This
project models that logic in Dafny and proves what it does:

- **Android fetcher** (`get_google_play_data`). The blob name is
  `stats/installs/installs_<package>_<YYYYMM>_overview.csv`. The loop keeps the CSV records
  dated on the target day. A missing `Daily User Installs` column counts as 0, a missing
  `Country` column becomes `Unknown`, and a row is emitted only when installs are positive.
- **iOS fetcher** (`get_apple_data`). The unpacked report is stripped, split into lines
  and split on tabs. `Units` and `Country Code` are looked up by name, using the first
  occurrence of each. One row is emitted per data line with positive units, dated with the
  requested date.
- **Entry point and sheet writer**. The run concatenates the Android rows and then the iOS
  rows. `update_sheet` issues one batch append, or no call at all when the list is empty.

Python exceptions that the script does not catch become `Err` results:

- `KeyError` on `Date`;
- `ValueError` from `int()`;
- `IndexError` on a short TSV line.

Nothing in the script catches these around the parse loops, so the process stops before
`update_sheet`. The model records that as `DailySync.Run` returning `Aborted`.

The Python built-ins the logic relies on are modelled as functions with their own
contracts: `str.strip`, `str.split`, `list.index`, `int()` and `strftime`.

Modules (one file each):

- `Wrappers`: `Option` and `Result`.
- `Strings`: `strip` (and the different whitespace `int()` skips), `split`, `join` and `index`.
- `Integers`: `int()`, `str()` and zero padding.
- `Calendar`: dates and `strftime`.
- `Rows`: the sheet row and the shared append loop `Collect`.
- `GooglePlay`: the Android fetcher.
- `AppStore`: the iOS fetcher.
- `DailySync`: `update_sheet` and `__main__`.

The two fetch loops are imperative methods (`GetGooglePlayData`, `GetAppleData`). Each is
proved equal to a specification function, and the lemmas are proved about those functions.

## Model

| member | source | states |
|---|---|---|
| Strings.Strip | zero_cost_etl/daily_sync.py:136 | `content.strip()` neither starts nor ends with whitespace (Python's `isspace` set), is never longer than its input, and is empty exactly when the input is all whitespace |
| Strings.Trim | zero_cost_etl/daily_sync.py:136 | removing the blanks of one kind (`str.strip()`'s or `int()`'s) leaves a text with no blank at either end, never longer than the input, and empty exactly when the input is all blanks |
| Strings.TrimDecompose | zero_cost_etl/daily_sync.py:136 | what trimming keeps is one slice of the input, and everything removed before and after it is blank |
| Strings.TrimSurrounded | zero_cost_etl/daily_sync.py:149 | blanks around a core that neither starts nor ends with one are exactly what trimming removes: the core comes back unchanged |
| Strings.Split | zero_cost_etl/daily_sync.py:136-137 | `str.split(sep)` gives one more piece than there are separators (so never an empty list), and no piece contains the separator |
| Strings.JoinSplit | zero_cost_etl/daily_sync.py:136-137 | joining the pieces of a split with the separator gives back the original text |
| Strings.SplitJoin | zero_cost_etl/daily_sync.py:148 | splitting a join of separator-free pieces gives back exactly those pieces |
| Strings.IndexOf | zero_cost_etl/daily_sync.py:141-142 | `list.index` gives the first position holding the value; it fails (`ValueError`) exactly when the value is absent |
| Integers.ParseInt | zero_cost_etl/daily_sync.py:149 | `int()` of an empty cell, or of one holding only the whitespace `int()` skips, fails |
| Integers.ParseIntDigits | zero_cost_etl/daily_sync.py:74 | `int()` of a plain digit run, leading zeros included, is the number the digits denote (no digit-count limit, see below) |
| Integers.ParseIntSpaced | zero_cost_etl/daily_sync.py:149 | `int()` ignores its own whitespace (ASCII space, `\t`..`\r`, non-ASCII whitespace) on either side of a digit run |
| Integers.ParseIntRejectsSeparator | zero_cost_etl/daily_sync.py:149 | a separator U+001C..U+001F before the digits is removed by `strip()` but makes `int()` fail |
| Integers.ParseIntRender | zero_cost_etl/daily_sync.py:149 | `int(str(i)) == i` for every integer, negative ones included (no digit-count limit, see below) |
| Integers.PadValue | zero_cost_etl/daily_sync.py:47 | zero-padding a field for `strftime` never changes the number it denotes |
| Calendar.IsoDate | zero_cost_etl/daily_sync.py:110 | `strftime('%Y-%m-%d')`, also the `Date` filter value at line 72, is ten characters with dashes at positions 4 and 7 |
| Calendar.YearMonth | zero_cost_etl/daily_sync.py:47 | `strftime('%Y%m')` is six decimal digits |
| Calendar.IsoDateLayout | zero_cost_etl/daily_sync.py:110 | `%Y-%m-%d` is ten characters: dashes at positions 4 and 7, and digit fields that read back as the year, month and day |
| Calendar.IsoDateInjective | zero_cost_etl/daily_sync.py:72 | two dates print the same `%Y-%m-%d` text exactly when they are equal, so the `Date` filter selects exactly one day |
| Calendar.YearMonthLayout | zero_cost_etl/daily_sync.py:47 | `%Y%m` is six digits: the 4-digit year, then the zero-padded 2-digit month |
| Calendar.YearMonthInjective | zero_cost_etl/daily_sync.py:47 | two dates share a `%Y%m` key exactly when they fall in the same month of the same year |
| Calendar.YearMonthOfIsoDate | zero_cost_etl/daily_sync.py:47 | the month key is the date text without its dashes and day |
| Rows.PlatformNamesDistinct | zero_cost_etl/daily_sync.py:81 | the platform cell (`'Android'` here, `'iOS'` at line 156) names exactly one platform |
| Rows.Collect | zero_cost_etl/daily_sync.py:67-83 | the append loop yields at most one row per item, and a failure it reports lies at a real item position |
| Rows.CollectSucceeds | zero_cost_etl/daily_sync.py:147-158 | the append loop finishes exactly when no item raises |
| Rows.CollectFirstFailure | zero_cost_etl/daily_sync.py:147-158 | when the loop raises, it is with the exception of the first item that raises; every earlier item was handled without one |
| Rows.CollectKept | zero_cost_etl/daily_sync.py:70-83 | the rows of a finished loop are the values of the producing items, one each, in item order, and no other item adds a row |
| Rows.CollectStops | zero_cost_etl/daily_sync.py:147-150 | once a prefix raises, the whole loop raises the same exception: no partial list comes out |
| GooglePlay.BlobName | zero_cost_etl/daily_sync.py:47-48 | the blob name is `stats/installs/installs_`, the package name, `_`, the six-digit `%Y%m` key of the target date, then `_overview.csv` |
| GooglePlay.CountryOf | zero_cost_etl/daily_sync.py:75 | `row.get('Country', 'Unknown')`: the record's `Country` cell when the column is present, `Unknown` otherwise |
| GooglePlay.FilterDay | zero_cost_etl/daily_sync.py:67-83 | the record loop yields at most one row per record; when it raises, it names a record, and that record's own outcome is the exception raised |
| GooglePlay.RecordOutcome | zero_cost_etl/daily_sync.py:72-83 | a record raises exactly when it lacks `Date`, or is of the target day with an installs cell `int()` rejects. It yields a row exactly when it is of the target day with positive installs. That row is `[day, Country or 'Unknown', 'Android', installs]`. A record without an installs cell never yields a row |
| GooglePlay.GooglePlayData | zero_cost_etl/daily_sync.py:50-64 | a missing blob, a permission error and any other download error all give an empty row list |
| GooglePlay.GetGooglePlayData | zero_cost_etl/daily_sync.py:32-86 | the fetcher's loop, which stops at the first exception, returns exactly the specified rows or exception |
| GooglePlay.AndroidRowsFromRecords | zero_cost_etl/daily_sync.py:70-83 | each Android row comes from its own record, in record order. It carries the target day, the record's country (or `Unknown`) and the record's positive installs. Every record of the target day with positive installs is emitted. There are at most as many rows as records |
| GooglePlay.AndroidRowsShape | zero_cost_etl/daily_sync.py:77-83 | every Android row has the target date, platform Android and a positive count |
| GooglePlay.AndroidFailure | zero_cost_etl/daily_sync.py:72-74 | the record loop raises exactly when some record raises, and then at the first such record |
| GooglePlay.SameBlobSameMonth | zero_cost_etl/daily_sync.py:47-48 | two target dates read the same blob exactly when they are in the same month of the same year |
| GooglePlay.AndroidExample | zero_cost_etl/daily_sync.py:70-83 | the record `Date=2024-03-01, Country=US, Daily User Installs=5` for target 2024-03-01 yields exactly `[2024-03-01, US, Android, 5]` |
| AppStore.ReportLines | zero_cost_etl/daily_sync.py:136 | the stripped report always has at least one line, the header |
| AppStore.Columns | zero_cost_etl/daily_sync.py:140-145 | the lookup fails exactly when the header lacks `Units` or `Country Code`; otherwise it gives the first position of each |
| AppStore.LineOutcome | zero_cost_etl/daily_sync.py:148-158 | a data line raises exactly when it is too short for either column or its units cell is not an integer. It yields a row exactly when its units are positive, and that row is `[date_str, Country Code cell, 'iOS', units]` |
| AppStore.ParseApple | zero_cost_etl/daily_sync.py:134-158 | a header lacking one of the two columns (or both) gives an empty list, and a parse never gives more rows than there are data lines |
| AppStore.AppleData | zero_cost_etl/daily_sync.py:122-132 | a non-200 status, or a body that does not gunzip and decode, gives an empty row list |
| AppStore.GetAppleData | zero_cost_etl/daily_sync.py:122-161 | the fetcher's loop, which stops at the first exception, returns exactly the specified rows or exception |
| AppStore.AppleRowsFromLines | zero_cost_etl/daily_sync.py:147-158 | each iOS row comes from its own data line, in line order. It carries the requested date (never one read from the report), that line's `Country Code` cell and its positive units. Every line with positive units is emitted |
| AppStore.AppleRowsShape | zero_cost_etl/daily_sync.py:152-158 | every iOS row has the requested date, platform iOS and a positive count |
| AppStore.AppleFailure | zero_cost_etl/daily_sync.py:147-150 | with both columns found, the parse raises exactly when some data line raises, and then at the first such line |
| AppStore.AppleEmptyReport | zero_cost_etl/daily_sync.py:136-145 | an empty or all-whitespace report has the header `['']` and gives no rows |
| AppStore.ReportRoundTrip | zero_cost_etl/daily_sync.py:134-158 | writing (units, country) entries out as a two-column report and parsing it gives one iOS row per entry with positive units, in entry order, with the country cell as written (empty or padded cells included). The only condition is that no cell holds a tab or newline and that the last line's cell survives `strip()`: not empty and not ending in whitespace |
| AppStore.EntryLineParse | zero_cost_etl/daily_sync.py:148-158 | a line `units<TAB>country` with a tab-free country (empty or padded allowed) parses back to its units and that exact country text |
| DailySync.UpdateSheet | zero_cost_etl/daily_sync.py:167-178 | no write happens exactly when the row list is empty; otherwise one batch append of exactly that list |
| DailySync.Applied | zero_cost_etl/daily_sync.py:178 | an append keeps the existing sheet rows and puts the batch after them |
| DailySync.Combine | zero_cost_etl/daily_sync.py:191 | the combined list is the Android rows followed by the iOS rows, and its length is the sum of the two |
| DailySync.GooglePlayRows | zero_cost_etl/daily_sync.py:32-86 | whatever the bucket holds, the Android fetcher returns only Android rows of the target date with positive counts |
| DailySync.AppleRows | zero_cost_etl/daily_sync.py:122-161 | whatever the response, the iOS fetcher returns only iOS rows of the target date with positive counts |
| DailySync.Run | zero_cost_etl/daily_sync.py:188-192 | a run stops before writing exactly when one of the fetchers raises; once both return, it writes nothing exactly when both found nothing |
| DailySync.RunWrites | zero_cost_etl/daily_sync.py:188-192 | a completed run writes nothing exactly when both fetchers found nothing. Otherwise it appends one batch: the Android rows of the target date, then the iOS rows of the target date |
| DailySync.RepeatedAppendDuplicates | zero_cost_etl/daily_sync.py:178 | appending the same non-empty batch twice duplicates it, because nothing deduplicates against the sheet |

## Left out

- Configuration from the environment (lines 18-30). The package name, the bucket contents and the sales-report response are parameters instead.
- The target date `now - 2 days` (line 185). It needs the clock and `datetime` arithmetic, so the target date is an input.
- `blob.exists()` and `download_as_text(encoding='utf-16')` (lines 52-64). The bucket is a map from blob name to what those two calls give: parsed CSV records, `Forbidden`, or another error. A name that is not a key is a blob `exists()` reports missing.
- Calls outside any `try` whose exceptions end the run before `update_sheet`: `storage.Client.from_service_account_info` (line 39), `jwt.encode` (line 107), `requests.get` (line 120), and the gspread calls in `update_sheet` (lines 174-178). They are not among the model's inputs, so `DailySync.Run` is `Aborted` only for the exceptions of the two parse loops, and a completed run assumes the sheet call succeeds.
- `csv.DictReader` tokenisation (line 68). Its output is taken as a sequence of `map<string, string>`. For a line with fewer fields than the header, DictReader fills the missing fields with `None`, and `int(None)` raises `TypeError`. A string map cannot express such a record.
- The JWT for App Store Connect (lines 95-107). It is an ES256 signature under RFC 7519 and section 3.4 of RFC 7518, computed by a crypto library.
- The HTTPS request (lines 110-120), gzip decompression (RFC 1952) and UTF-8 decoding (lines 128-132). The response is a status plus either the decoded text or a marker that decompression or decoding failed.
- gspread authorisation, `open_by_key`, `worksheet` and the effect of `append_rows` on the real spreadsheet (lines 173-178). The model gives the call that `update_sheet` makes and appends that batch to a sequence of rows.
- All `print` logging.
- Integers.ParseInt: accepts only ASCII digits. Python's `int()` also accepts other Unicode decimal digits, such as Arabic-Indic ones.
- Integers.ParseInt: has no limit on the number of digits. Since Python 3.11, `int()` of a text with more than 4300 digits raises `ValueError` (the default of `sys.set_int_max_str_digits`); `ParseIntDigits` and `ParseIntSpaced` hold without that bound.
- Integers.ParseIntRender: `str(i)` also raises `ValueError` in Python 3.11 and later when `i` has more than 4300 digits; the round trip is stated for every integer.
- Calendar.IsoDate, Calendar.YearMonth, Calendar.YearMonthLayout and GooglePlay.BlobName: render `%Y` as four zero-padded digits for every year. Some C libraries print years below 1000 without padding. The script only formats dates near the current day.
- Rows.Row: stores the platform as an enumeration, and the sheet operations carry `Row` values rather than the four-item lists the script appends. The platform cell text each value stands for is `Rows.PlatformName` (`Android` or `iOS`, distinct by `Rows.PlatformNamesDistinct`).
