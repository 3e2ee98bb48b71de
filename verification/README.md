# Temperature blanket: a verified Dafny model

This project models the core of a temperature-blanket app. Each day the app records the
day's high temperature together with a yarn colour, chosen from ten seeded temperature
bands. It also remembers the last blanket row that has been knitted. The data lives in
three SQLite tables, each modelled as a Dafny class:

- `temperature_ranges` becomes `TemperatureRanges.RangeTable`.
- `daily_temperatures` becomes `DailyTemperatures.DailyTable`.
- `progress` becomes `Progress.ProgressTable`.

Each class holds its rows as a field and changes them in methods. The SQL queries of the
services become pure functions over those rows: filter, `ORDER BY`, `LIMIT 1`, `MAX`
and `COUNT`. The table constraints become invariants and predicates:

- `UNIQUE(min_temp, max_temp)` is `UniqueBands`.
- The `date` primary key is `UniqueDates`.
- `CHECK (id = 1)` is `Singleton`.

Modules, one file each:

- `TemperatureRanges`: the colour resolver (first containing band by `display_order`,
  otherwise the fallback `Unknown`/`#000000`), `getAll`, and `seed`. `seed` fills an
  empty table in one transaction and rolls back on a UNIQUE violation.
- `SeedRanges`: the ten seeded bands and what they guarantee. They are contiguous and
  non-overlapping over [-999, 999], each band has a fixed colour, and the fallback
  answers outside that interval.
- `DailyTemperatures`: `INSERT OR IGNORE` keyed by date, the date-ordered queries
  (all, by year, by inclusive text range), the latest date and the statistics.
- `Progress`: the singleton progress row with its `get` and its update-or-insert `set`.
  `LastCompletedRowService` and `ProgressService` are the same code under two names,
  so one model covers both.
- `PopulateData`: the ingestion loop of the populate script, over already-rounded
  daily highs.
- `App`: the client's display helpers. These are `parseLocalDate`, `getOrdinalDay`,
  `shouldShowMonthRow`, `isRowKnitted` and the progress toggle on a row click.
- `JsText`, `JsDate`: the JavaScript built-ins those helpers use. They cover `split`,
  `Number`, `Number.parseInt`, `String(n)`, truncating `%`, and
  `new Date(y, m, d)` with its overflow normalisation.
- `Lex`: the text order that SQLite's BINARY collation and JavaScript's `<=` apply to
  date strings.
- `Seqs`, `Wrappers`: a list filter and `Option`.

Dates are strings and compare as text, exactly as the SQL `date >= ? AND date <= ?`,
`ORDER BY date` and `MAX(date)` do.

## Model

| member | source | states |
|---|---|---|
| TemperatureRanges.OrderByDisplayOrder | src/db/services/temperature-range.service.ts:11-17 | `getAll`: the result is sorted by ascending `display_order` and is a permutation (same multiset) of the table's rows |
| TemperatureRanges.HeadIsFirstMatch | src/db/services/temperature-range.service.ts:23-27 | the containing rows ordered by `display_order` are empty exactly when no row contains t; otherwise the first is a containing row with the least `display_order` |
| TemperatureRanges.ColorForTemperature | src/db/services/temperature-range.service.ts:19-38 | if some row contains t, the answer is the colour of a row that contains t and whose `display_order` is minimal among containing rows; if none does, the answer is exactly `Unknown`/`#000000` |
| TemperatureRanges.ColorOfOnlyMatch | src/db/services/temperature-range.service.ts:25-37 | when exactly one row contains t, the resolver answers with that row's colour |
| TemperatureRanges.AfterSeed | src/db/services/temperature-range.service.ts:40-68 | the table `seed` leaves: either the old rows or the numbered ranges, and a table without duplicate bands never gains one; characterised by `RangeTable.Seed` and `SeedIdempotent` |
| TemperatureRanges.SeedIdempotent | src/db/services/temperature-range.service.ts:41-45 | seeding twice leaves the table as seeding once does |
| TemperatureRanges.RangeTable.Seed | src/db/services/temperature-range.service.ts:40-68 | a non-empty table is unchanged and seeding completes. From empty, the table becomes exactly the given ranges in order with ids 1..n. It fails iff two ranges share a `(min_temp, max_temp)` band; the failure names the first insert whose band was already staged, and the table stays empty. The UNIQUE and id invariant is kept |
| SeedRanges.SeedListShape | src/db/db.ts:50-61 | ten ranges, contiguous, spanning 999 down to -999, `display_order` = position + 1, none named `Unknown` |
| SeedRanges.ContiguousDescends | src/db/db.ts:51-60 | in a contiguous list every later band lies wholly below every earlier band |
| SeedRanges.ContiguousCovers | src/db/db.ts:51-60 | a contiguous list leaves no gap between its lowest and highest bound |
| SeedRanges.ContiguousPartition | src/db/db.ts:51-60 | between those bounds each temperature lies in exactly one band |
| SeedRanges.ContiguousTableResolves | src/db/services/temperature-range.service.ts:23-37 | a table seeded from a contiguous list resolves t to the colour of the band containing t |
| SeedRanges.ContiguousBounds | src/db/db.ts:51-60 | every band of a contiguous list lies within its first band's maximum and last band's minimum |
| SeedRanges.ContiguousTableOutside | src/db/services/temperature-range.service.ts:32-35 | below the lowest or above the highest bound the resolver returns the fallback |
| SeedRanges.NoBandOutside | src/db/db.ts:51-60 | outside the list's bounds no seeded row contains t |
| SeedRanges.SeedBandsPartition | src/db/db.ts:51-60 | every integer of [-999, 999] lies in exactly one seeded band |
| SeedRanges.SeedOrdering | src/db/db.ts:21 | seeded `display_order` and ids run 1..10 and the bands strictly descend, so no two share a band and the UNIQUE constraint cannot abort the seed |
| SeedRanges.SeededColorCovers | src/db/db.ts:51-60 | on [-999, 999] the resolver answers with the colour of the band containing t, never the fallback |
| SeedRanges.SeededBandColors | src/db/db.ts:51-60 | the colour of every temperature band by band (90 Yellow, 89 Pink, 100 Bright Orange, 1 Blue, 0 Light Blue); outside [-999, 999], e.g. 1000, the fallback |
| SeedRanges.SeedTemperatureRanges | src/db/db.ts:47-64 | seeding with the ten ranges always completes; an empty table ends up holding exactly the ten seeded rows, a non-empty one is unchanged |
| DailyTemperatures.Lookup | src/db/db.ts:25 | the looked-up row is in the table with that date; None iff no row has that date |
| DailyTemperatures.InsertOrIgnore | src/db/services/daily-temperature.service.ts:41-55 | returns true iff the year is not NULL and the date is absent. When true, that date then maps to the record and the row count grows by one; when false, nothing changes. Other dates keep their rows, old rows are never altered, and dates stay unique |
| DailyTemperatures.DailyTable.Insert | src/db/services/daily-temperature.service.ts:41-55 | the new table and the returned flag are those of `InsertOrIgnore` on the old table; unique dates are kept |
| DailyTemperatures.OrderByDate | src/db/services/daily-temperature.service.ts:13 | `ORDER BY date`: ascending by date text and a permutation of its input |
| DailyTemperatures.UniqueDatesOfSubset | src/db/db.ts:25 | any sub-multiset of a table with unique dates has unique dates |
| DailyTemperatures.GetAll | src/db/services/daily-temperature.service.ts:11-15 | every row, ascending by date; strictly ascending (one row per date) for a keyed table |
| DailyTemperatures.GetByYear | src/db/services/daily-temperature.service.ts:17-21 | exactly the rows whose `year` equals y, ascending (strictly, for a keyed table) by date |
| DailyTemperatures.GetByDateRange | src/db/services/daily-temperature.service.ts:23-32 | exactly the rows with start <= date <= end as text, bounds included, ascending (strictly, for a keyed table) by date |
| DailyTemperatures.LastRecordedDate | src/db/services/daily-temperature.service.ts:34-39 | None iff the table is empty; otherwise a stored date that no stored date exceeds |
| DailyTemperatures.GetStats | src/db/services/daily-temperature.service.ts:57-69 | `total` is the row count and `latest` is the maximum date (None when empty) |
| DailyTemperatures.StatsAfterInsert | src/db/services/daily-temperature.service.ts:41-69 | an insert that adds a row raises `total` by one and makes `latest` the later of the old latest and the new date; an ignored insert changes neither |
| Progress.Upsert | src/db/services/last-completed-row.service.ts:21-38 | whether `set` updates or inserts, afterwards the table holds exactly row 1 with the given date (null included) and the given timestamp; the row is never duplicated |
| Progress.UpsertAll | src/db/db.ts:34 | any run of `set` calls keeps the table at most one row, with id 1 |
| Progress.LastWriteWins | src/db/services/last-completed-row.service.ts:24-30 | after any non-empty run of `set` calls the row holds the last call's date, whatever was stored before |
| Progress.ProgressTable.constructor | src/db/db.ts:33-37 | a new progress table holds no row, so `get` answers null before any `set` |
| Progress.ProgressTable.Get | src/db/services/ProgressService.ts:12-19 | returns the stored row (or null); a returned row has id 1 |
| Progress.ProgressTable.Set | src/db/services/ProgressService.ts:21-38 | the new row is `Upsert` of the old one; the single-row invariant is kept; any date is accepted |
| PopulateData.YearOf | scripts/populate-data.ts:32 | definition: `parseInt` of the text before the first dash, NaN as no year; characterised by `YearOfDate` |
| PopulateData.DayRecord | scripts/populate-data.ts:33-49 | definition: the record handed to `insert` for one day; characterised by `Records` and `PopulateAddsDays` |
| PopulateData.YearOfDate | scripts/populate-data.ts:32 | a date text starting with a year's digits and a dash yields that year |
| PopulateData.Records | scripts/populate-data.ts:31-49 | one insert record per fetched day, in order; record i carries day i's date, its rounded high, the resolver's colour for that high and the year parsed from the date |
| PopulateData.Ingest | scripts/populate-data.ts:30-57 | `inserted` <= number of days; the table grows by exactly `inserted` rows; old rows stay in place; dates stay unique |
| PopulateData.IngestAdvance | scripts/populate-data.ts:43-52 | one pass of the loop: `inserted` goes up by one exactly when that day's insert returned true |
| PopulateData.IngestKeepsStored | scripts/populate-data.ts:43-49 | a date already stored keeps its original row (colour and temperature) through the whole run |
| PopulateData.IngestKeepsOthers | scripts/populate-data.ts:43-49 | a date no fetched day carries is looked up exactly as before the run |
| PopulateData.IngestAddsRecords | scripts/populate-data.ts:43-49 | every added row is one of the records, stored as given |
| PopulateData.PopulateAddsDays | scripts/populate-data.ts:32-49 | every added row holds a fetched day's date, its rounded high, the resolver's colour for that high, and the year parsed from the date |
| PopulateData.IngestCovers | scripts/populate-data.ts:30-57 | afterwards every day whose year parses has a row for its date |
| PopulateData.IngestNothingNew | scripts/populate-data.ts:43-52 | days already stored (or without a year) change nothing and count nothing |
| PopulateData.PopulateRerun | scripts/populate-data.ts:30-57 | running the loop again over the same days inserts 0 and leaves the table as it is |
| PopulateData.IngestAllFresh | scripts/populate-data.ts:30-57 | with distinct, unstored dates that all parse, `inserted` equals the number of days |
| PopulateData.Populate | scripts/populate-data.ts:30-57 | the loop over the live tables leaves the daily table and `inserted` as `Ingest` over the days' records describes |
| App.ParseLocalDate | src/client/App.tsx:52-58 | any valid result is a real calendar date; characterised by `ParseLocalDateOfDigits` and `ParseLocalDateDefaults` |
| App.Pred | src/client/App.tsx:57 | `month - 1` keeps NaN as NaN and otherwise subtracts one |
| App.ParseLocalDateOfDigits | src/client/App.tsx:52-58 | `y-m-d` made of digit runs and naming a calendar date parses to that date, with the month counted from 1 and years 0..99 read as 19xx |
| App.ParseLocalDateDefaults | src/client/App.tsx:52-57 | a date text without dashes reads as January 1st of that year, and one with a single dash as the 1st of that month |
| App.SuffixOfLastTwoEnglish | src/client/App.tsx:62-64 | on the last two digits 0..99 the two-step table lookup agrees with the English ordinal rule |
| App.LastDigitOfLastTwo | src/client/App.tsx:63 | the last digit of `day % 100` is the last digit of the day |
| App.OrdinalSuffixEnglish | src/client/App.tsx:60-65 | for every day >= 0 the suffix is "st", "nd" or "rd" by the last digit except 11th-13th, else "th" (1st, 2nd, 3rd, 11th, 21st, 22nd, 23rd, 31st) |
| App.OrdinalSuffixNegative | src/client/App.tsx:63-64 | with truncating `%` a negative day only indexes at or below 0 and gets "th" |
| App.GetOrdinalDay | src/client/App.tsx:60-65 | the text always ends in one of "th", "st", "nd", "rd"; characterised by `GetOrdinalDayOfDate` |
| App.GetOrdinalDayOfDate | src/client/App.tsx:60-65 | on a well-formed date the ordinal is the day's decimal text followed by its English suffix |
| App.ShouldShowMonthRow | src/client/App.tsx:73-81 | definition: true for row 0, false for a missing row or an empty date, else whether the months differ; characterised by `ShouldShowMonthRowOfDates` |
| App.MonthChangesOfDates | src/client/App.tsx:78-80 | for well-formed dates the months compare unequal iff the month numbers differ |
| App.ShouldShowMonthRowOfDates | src/client/App.tsx:73-81 | for a row after the first with well-formed dates, the header shows iff the month differs from the previous row's, whatever the years |
| App.IsRowKnitted | src/client/App.tsx:94-97 | definition: false without a non-empty progress date, else `date <= last_knitted_date` as text; characterised by `KnittedDownwardClosed`, `LaterNotKnitted` and `ToggleKnits` |
| App.KnittedDownwardClosed | src/client/App.tsx:94-97 | a date at or before a knitted date is knitted |
| App.LaterNotKnitted | src/client/App.tsx:96 | a date after the progress date is not knitted |
| App.Toggle | src/client/App.tsx:100-101 | clicking the marked date clears progress; clicking any other date marks that date |
| App.ToggleKnits | src/client/App.tsx:94-101 | after clicking an unmarked non-empty date, exactly that date and the ones before it are knitted; after clicking the marked date, none are |
| JsText.Split | src/client/App.tsx:53 | `split` gives at least one piece and no piece contains the separator |
| JsText.JoinSplit | src/client/App.tsx:53 | joining the pieces with the separator restores the string |
| JsText.SplitJoin | src/client/App.tsx:53 | splitting a join of separator-free pieces gives the pieces back |
| JsText.SplitAfterPiece | scripts/populate-data.ts:32 | the text before the first separator is the first piece |
| JsText.TrimStart | src/client/App.tsx:53 | removes a prefix made only of ECMAScript whitespace, after which the text does not start with whitespace |
| JsText.TrimEnd | src/client/App.tsx:53 | removes a suffix made only of ECMAScript whitespace, after which the text does not end with whitespace |
| JsText.DecimalString | src/client/App.tsx:64 | `String(n)` of a natural: digits only, no leading zero, whose value is n |
| JsText.DigitPrefix | scripts/populate-data.ts:32 | the longest prefix of decimal digits |
| JsText.ParseIntOfDecimal | scripts/populate-data.ts:32 | `parseInt` reads back a natural's decimal text followed by text not starting with a digit; after 0 the follower must not start with `x`/`X`, because `0x` switches to hexadecimal |
| JsText.ToNumber | src/client/App.tsx:53 | definition: `Number` on trimmed text, "" as 0, a digit run as its value, anything else NaN; characterised by `ToNumberOfDigits` and `ToNumberOfDecimal` |
| JsText.ParseInt | scripts/populate-data.ts:32 | definition: `parseInt` with leading whitespace, a sign, `0x`, and the longest digit run; characterised by `ParseIntOfDecimal` |
| JsText.ToNumberOfDigits | src/client/App.tsx:53 | `Number` reads a non-empty digit run, leading zeros included, as its decimal value |
| JsText.ToNumberOfDecimal | src/client/App.tsx:53 | `Number` reads back a natural's decimal text |
| JsText.TruncRem | src/client/App.tsx:63-64 | JavaScript `%`: sign of the dividend, magnitude below the divisor, equal to the Euclidean remainder on magnitudes |
| JsDate.DaysInMonth | src/client/App.tsx:57 | months have 28..31 days, 29 exactly for February of a leap year |
| JsDate.CarryForward | src/client/App.tsx:57 | a day past the month's end moves into later months, same day number, giving a calendar date |
| JsDate.Balance | src/client/App.tsx:57 | any day offset, before or after the month, lands on the calendar date with the same day number |
| JsDate.MakeDate | src/client/App.tsx:57 | `new Date(y, m, d)` is valid iff no argument is NaN, and is then the calendar date whose day number is that of day d of month m of year y (years 0..99 as 19xx, month overflow carried into the year) |
| JsDate.CalendarDateUnique | src/client/App.tsx:57 | two calendar dates with the same day number are the same date |
| JsDate.MakeDateInRange | src/client/App.tsx:57 | on an in-range year, month and day, `new Date` is exactly that date |
| Lex.LessTransitive | src/db/services/daily-temperature.service.ts:29 | text order is transitive |
| Lex.LessTrichotomy | src/db/services/daily-temperature.service.ts:13 | any two texts are equal or one sorts before the other |
| Lex.LessEqAntisymmetric | src/db/services/daily-temperature.service.ts:36 | two texts each at or before the other are equal |

## Left out

- The HTTP server and its routes, the weather API fetch, the fetch-yesterday script, and React state, effects and rendering are I/O and glue outside this model. `handleRowClick` is modelled only as its toggle expression; its `fetch` call is not.
- `getMonthYear` is not part of this model, because it uses locale formatting (`toLocaleDateString`). `getTextColorForBackground` is not part of this model either, because it computes floating-point luminance.
- `Math.round(day.tempmax)` is outside the model: floating-point rounding. A day carries its high already rounded to an integer.
- `CURRENT_TIMESTAMP` is a clock reading. `Progress` receives it as a `now` parameter. The `created_at` columns are not modelled.
- SQLite itself, the DDL and the async/Promise wrappers are not modelled. Each table is an in-memory collection with sequential semantics.
- PopulateData.Populate: the source asks the ranges table for a colour on every iteration; the model reads the range rows once before the loop. The loop writes only the daily table, so the answers are the same. The log lines and the final `getStats` print are left out.
- PopulateData.Populate: the `!color` skip branch (populate-data.ts:38-41) has no counterpart. The resolver always returns a mapping, falling back to `Unknown`, so every day reaches `insert`. The `?? '2026'` default is dead too, because `split` always yields a first piece.
- App.ParseLocalDate: the `?? 0` default for the year is dead, because `split` always yields a first piece.
- JsText.ToNumber: only `Number` on whitespace, the empty string and decimal digit runs is modelled. Fractions, exponents, signs, `0x`/`0o`/`0b` prefixes and `Infinity` are all read as NaN, where JavaScript reads them as numbers.
- JsText.ParseInt: integers are unbounded. Precision loss above 2^53 is not modelled.
- JsDate.MakeDate: time zones, time of day, and the ±8.64e15 ms limit beyond which JavaScript gives Invalid Date are not modelled.
- Lex.Less: text is compared by code point, which is SQLite's BINARY collation on UTF-8. JavaScript's `<=` in `isRowKnitted` compares UTF-16 code units instead, which differs only for characters above U+FFFF.
- TemperatureRanges.OrderByDisplayOrder: SQL leaves the order of rows with equal keys unspecified. The model keeps them in insertion order. Its contracts state only sortedness and permutation, which hold for any order of ties. The same applies to DailyTemperatures.OrderByDate.
- TemperatureRanges.RangeTable.Seed: the ids assume the AUTOINCREMENT counter starts at 1 on an empty table. That holds because no code path deletes ranges. A UNIQUE violation is an exception in the source; here it is the `UniqueConstraintFailed` outcome.
- DailyTemperatures.InsertOrIgnore: a NaN year is bound as NULL, and the `NOT NULL` constraint then makes `OR IGNORE` skip the row. The model writes that year as None. No other value checks exist in the source and none are modelled.
- `ProgressService` (src/db/services/ProgressService.ts) differs from `LastCompletedRowService` only in its class and type names. Both are modelled by `Progress.ProgressTable`.
