# SurfsUp climate API, modelled in Dafny

SurfsUp is a small Flask application (`SurfsUp/app.py`). It serves weather
observations from Hawaii, stored in a SQLite database, as JSON. The
observations are `measurement` rows of station, date, precipitation and
temperature, and the stations are `station` rows. Each of the five data
routes works the same way:
1. run one or more SQLAlchemy queries;
2. copy the rows of the last one into a Python `dict` or `list` with a
   `for` loop;
3. return that as JSON.

`stations`, `start` and `start_end` run one query each. `precipitation`
runs two: the latest date (line 66), then the window's rows (lines 72-75).
`tobs` runs three, and has two loops:
- the per-station counts (lines 122-124), copied into a dict whose first
  key is the most active station (lines 128-132);
- that station's latest date (lines 135-137);
- its rows in the window (lines 144-148), copied into the result dict
  (lines 156-157).

`precipitation` and `tobs` compute a start date between their queries.
They split a stored date string on `-`, call `int()` on the fields, build
a `datetime.date`, and subtract `timedelta(days = 365)`.

The model takes these parts one by one:

- `outcomes.dfy` (module `Outcomes`): `Option`, `Result`, and the Python
  exceptions the handlers can raise, as `Fault` values:
  - `NoneSubscript`, for `None[0]`;
  - `FieldMissing`, for an index error on the split fields;
  - `NotAnInteger`, for a `ValueError` from `int()`;
  - `NotACInt`, for the `OverflowError` of `date()` on an argument that does
    not fit a C `int`;
  - `BadDate`, for a `ValueError` from `date()`;
  - `OutOfRange`, for an `OverflowError` from the subtraction;
  - `NoStation`, for the index error at line 132.
- `text.dfy` (module `Text`): string order, `str.split`, `int()` on a field,
  and zero-padded numerals.
  - SQLite compares the `date` column as TEXT, so `LexLe` is the
    lexicographic order on `seq<char>`.
- `calendar.dfy` (module `Calendar`): the proleptic Gregorian calendar
  that Python's `datetime.date` uses.
  - Day numbers follow `toordinal`/`fromordinal`, for years 1 to 9999.
  - `ParseDate` is the parse of lines 69 and 140, with the same fields and
    the same order of failure.
  - `SubtractDays` and `WindowStart` are the window start.
  - `IsoFormat` is the text form in which a date is bound into a query.
- `ordered_dict.dfy` (module `OrderedDict`): a Python `dict` as keys in
  insertion order plus a map.
  - `FromPairs` is what `for k, v in rows: d[k] = v` leaves.
  - `BuildDict` is that loop, as a method proved equal to `FromPairs`.
- `tables.dfy` (module `Tables`): the relational meaning of the SQL each
  query renders:
  - filtering;
  - `GROUP BY date ORDER BY date`;
  - `GROUP BY station ORDER BY station`;
  - `count`;
  - `ORDER BY count DESC`;
  - `min`, `avg` and `max` over a group.
- `surfs_up.dfy` (module `SurfsUp`): the five handlers. Each is a method
  that runs the query model and then the handler's loop, and is proved
  against the query's meaning:
  - which dates come back;
  - which row each value comes from;
  - the ascending key order;
  - the trailing 365-day window on well-formed data;
  - the most active station;
  - the summaries;
  - the error paths.

## Model

| member | source | states |
|---|---|---|
| Text.LexLe | SurfsUp/app.py:73 | Definition, no contract: SQLite's comparison of TEXT values, lexicographic by character; its order laws are the lemmas below. |
| Text.LexLeReflexive | SurfsUp/app.py:73 | Every date string is `>=` itself, so a row dated exactly on the bound is kept. |
| Text.LexLeAntisymmetric | SurfsUp/app.py:73 | Two strings that are each `<=` the other are equal. |
| Text.LexLeTransitive | SurfsUp/app.py:73 | The text comparison of the filters is transitive. |
| Text.LexLeTotal | SurfsUp/app.py:73 | Any two date strings are comparable. |
| Text.LexLtTransitive | SurfsUp/app.py:73 | "Strictly before" followed by "not after" is strictly before. |
| Text.LexLeAppend | SurfsUp/app.py:73 | For equal-length heads, comparing two concatenations compares the heads first and the tails only on a tie. |
| Text.Split | SurfsUp/app.py:69 | `str.split('-')` always yields at least one field, empty fields included; `Join` inverts it (`JoinSplit`, `SplitJoin`). |
| Text.JoinSplit | SurfsUp/app.py:69 | `split('-')` loses nothing: joining its fields with `-` gives back the string, and no field contains a `-`. |
| Text.SplitAfterField | SurfsUp/app.py:69 | A field without a separator, followed by the separator, splits off as the first field. |
| Text.SplitWithoutSeparator | SurfsUp/app.py:69 | A string without the separator splits into itself alone. |
| Text.SplitJoin | SurfsUp/app.py:69 | Splitting the join of separator-free fields returns those fields. |
| Text.ParseInt | SurfsUp/app.py:69 | Definition, no contract: `int()` of a field, defined on non-empty ASCII digit strings of at most 4300 digits (CPython's conversion limit) and a ValueError otherwise; for widths 1 to 4300 it is the inverse of zero-padded printing (`ParseOfPad`, `PadOfValue`). |
| Text.Pad | SurfsUp/app.py:73 | The `%04d`/`%02d` printing of an ISO date's fields: exactly `width` characters, all digits. |
| Text.ValueOfPad | SurfsUp/app.py:69 | The value of a zero-padded numeral is the number written, when it fits the width. |
| Text.ParseOfPad | SurfsUp/app.py:69 | `int()` of a zero-padded numeral of width 1 to 4300 is the number written, when it fits the width. |
| Text.PadOfValue | SurfsUp/app.py:69 | A digit string is the zero-padded form of its own value. |
| Text.NumeralOrder | SurfsUp/app.py:73 | On digit strings of equal length, text order is numeric order, and text equality is numeric equality. |
| Text.NumeralEquality | SurfsUp/app.py:73 | Digit strings of equal length are equal exactly when their values are. |
| Text.NumeralLe | SurfsUp/app.py:73 | On digit strings of equal length, `<=` as text is `<=` as numbers. |
| Text.PadOrder | SurfsUp/app.py:73 | Zero-padded numerals of one width compare as text exactly as the numbers compare. |
| Calendar.MonthTable | SurfsUp/app.py:69 | The cumulative month table steps by each month's length and ends at the year's length. |
| Calendar.DaysBeforeMonthMonotone | SurfsUp/app.py:69 | Days before a month never decrease through the year. |
| Calendar.LeapCounts | SurfsUp/app.py:69 | A year's length is 365, plus one for years divisible by 4, minus one for centuries, plus one for years divisible by 400. |
| Calendar.DaysBeforeYearStep | SurfsUp/app.py:69 | The closed-form count of days before a year advances by exactly that year's length. |
| Calendar.DaysBeforeYearMonotone | SurfsUp/app.py:69 | Each later year starts at least 365 days later. |
| Calendar.DayOfYearBounds | SurfsUp/app.py:69 | A valid date's day of the year lies between 1 and the year's length. |
| Calendar.YearOf | SurfsUp/app.py:69 | Splits a day count into a year and a day of that year, the first half of `fromordinal`. |
| Calendar.MonthOf | SurfsUp/app.py:69 | Splits a day of the year into a month and a day of that month. |
| Calendar.FromOrdinal | SurfsUp/app.py:69 | `date.fromordinal` yields a valid date with the given day number, for every day number from 1 to 3652059. |
| Calendar.ToOrdinal | SurfsUp/app.py:69 | Definition, no contract: `date.toordinal()`, days before the year, plus days before the month, plus the day; `FromOrdinal` inverts it (`FromToOrdinal`). |
| Calendar.OrdinalIncreasing | SurfsUp/app.py:69 | A date earlier in (year, month, day) order has a smaller day number. |
| Calendar.OrdinalOrder | SurfsUp/app.py:69 | Day numbers order dates as the calendar does, and are one-to-one. |
| Calendar.FromToOrdinal | SurfsUp/app.py:69 | `fromordinal(toordinal(d)) == d`, and every day number lies within 1 to 3652059. |
| Calendar.MakeDate | SurfsUp/app.py:69 | `datetime.date(y, m, d)` succeeds exactly on an existing day of years 1 to 9999. It raises an OverflowError exactly when an argument does not fit a C `int`, and a ValueError for every other invalid triple. |
| Calendar.SubtractDays | SurfsUp/app.py:69 | `date - timedelta(days = n)` moves the day number back by n exactly when the result stays in range, and raises an OverflowError otherwise. |
| Calendar.WindowIsOneYearUnlessLeap | SurfsUp/app.py:69 | Going back 365 days lands on the same day of the previous year exactly when that day exists and no 29 February lies between. |
| Calendar.YearBackDistance | SurfsUp/app.py:69 | The same day a year earlier lies 365 days back, or 366 across a 29 February. |
| Calendar.WindowExamples | SurfsUp/app.py:69 | From 2017-08-23 the window starts on 2016-08-23; from 2017-02-28 on 2016-02-29; from 2016-08-23 on 2015-08-24, a day late, across 29 February 2016. |
| Calendar.ParseDate | SurfsUp/app.py:69 | Split, `int()` of fields 0, 1 and 2, then `datetime.date`; any date it produces is valid. |
| Calendar.ParseSingleField | SurfsUp/app.py:69 | A string with no `-` gives a ValueError from `int()`, or an IndexError at field 1 when it is numeric. |
| Calendar.ParseFirstFieldFirst | SurfsUp/app.py:69 | A non-numeric first field raises a ValueError whatever follows it. |
| Calendar.IsoFields | SurfsUp/app.py:69 | A YYYY-MM-DD string splits into exactly its three numerals. |
| Calendar.ParseIsoShape | SurfsUp/app.py:69 | On a YYYY-MM-DD string the parse is `date()` of the three numerals' values. |
| Calendar.IsoShapeFault | SurfsUp/app.py:69 | A YYYY-MM-DD string that fails to parse fails with the ValueError of `date()`, never with an OverflowError. |
| Calendar.ParseOverflow | SurfsUp/app.py:69 | Three numeric fields within `int()`'s 4300-digit limit, one of which exceeds a C `int`, raise the OverflowError of `date()`, whatever the other two are. |
| Calendar.ParseIgnoresSurplus | SurfsUp/app.py:69 | Text after a third `-` is never read. |
| Calendar.FormatParse | SurfsUp/app.py:69 | A stored YYYY-MM-DD date that parses is the ISO text of its parse. |
| Calendar.IsoFormat | SurfsUp/app.py:73 | `date.isoformat()`, the text in which the start date is bound into the filter: always ten characters, inverted by the parse (`ParseFormat`, `FormatParse`). |
| Calendar.ParseFormat | SurfsUp/app.py:69 | The parse of a date's ISO text returns that date. |
| Calendar.IsoFormatFields | SurfsUp/app.py:69 | A date's ISO text is YYYY-MM-DD shaped, and its three numerals read back as the year, month and day. |
| Calendar.IsoTextOrder | SurfsUp/app.py:73 | ISO texts compare as strings exactly as their dates compare in (year, month, day) order. |
| Calendar.IsoOrder | SurfsUp/app.py:73 | ISO texts compare as strings exactly as their day numbers compare, so the string filter is the date filter. |
| Calendar.IsoStringOrder | SurfsUp/app.py:73 | Two well-formed stored date strings compare as text exactly as the dates they name. |
| Calendar.OrdinalRange | SurfsUp/app.py:69 | Day numbers lie in 1 to 3652059, and exceed 365 exactly from year 2 on. |
| Calendar.WindowStart | SurfsUp/app.py:140 | The start date is 365 days before the parsed date; a parse failure propagates unchanged, and year 1 raises OverflowError. |
| OrderedDict.Put | SurfsUp/app.py:84 | Definition, no contract: `d[k] = v`, appending k to the key order only when it is new; its meaning is `PutContents`. |
| OrderedDict.PutContents | SurfsUp/app.py:84 | `d[k] = v` keeps the dict well formed, adds k, maps k to v, and leaves every other key's value alone. |
| OrderedDict.FromPairs | SurfsUp/app.py:83-84 | Definition, no contract: the dict the loop leaves, one `Put` per row in row order; its meaning is `FromPairsContents` and `FromPairsDistinct`. |
| OrderedDict.PairKeys | SurfsUp/app.py:83 | Definition, no contract: the `k` of each `for k, v in rows`, in row order. |
| OrderedDict.FromPairsContents | SurfsUp/app.py:83-84 | After the loop, the dict holds exactly the keys that occur, each with the value of its last occurrence. |
| OrderedDict.PutLastValues | SurfsUp/app.py:84 | One more assignment extends "keys with their last values" from a prefix to the prefix plus one pair. |
| OrderedDict.PairKeysOfPrefix | SurfsUp/app.py:83 | The keys of a sequence are the keys of all but its last pair, then the last key. |
| OrderedDict.LastOccurrenceInPrefix | SurfsUp/app.py:83 | A last occurrence before the final pair is also a last occurrence in the prefix. |
| OrderedDict.FromPairsFirstKey | SurfsUp/app.py:132 | `list(d.keys())[0]` is the key of the first row. |
| OrderedDict.FromPairsDistinct | SurfsUp/app.py:83-84 | With distinct keys every row survives, in order, with its own value. |
| OrderedDict.BuildDict | SurfsUp/app.py:83-84 | The loop leaves exactly `FromPairs` of its rows. The same method is the loop of lines 128-129, 156-157, 187-188 and 218-219. |
| Tables.Where | SurfsUp/app.py:73 | A filter keeps exactly the rows meeting its condition and adds none. |
| Tables.WhereMultiplicity | SurfsUp/app.py:73 | A kept row occurs in the result as often as in the table, a dropped row not at all, so `avg` over a bucket sees every duplicate. |
| Tables.OnDate | SurfsUp/app.py:74 | A date's bucket holds exactly the rows of that date. |
| Tables.OnDateNonEmpty | SurfsUp/app.py:74 | A date that occurs has a non-empty bucket. |
| Tables.Count | SurfsUp/app.py:121 | `count(date)` for a station is at most the number of rows, and is positive exactly when the station occurs. |
| Tables.CountIsWhere | SurfsUp/app.py:121-123 | The count of a station is the number of that station's rows. |
| Tables.AscendingIsDistinct | SurfsUp/app.py:96-97 | A strictly ascending sequence has no repeats. |
| Tables.BelowAll | SurfsUp/app.py:97 | Below the head of an ascending sequence is below all of it. |
| Tables.InsertSorted | SurfsUp/app.py:96-97 | Inserting into a strictly ascending sequence keeps it strictly ascending, and adds exactly the new element. |
| Tables.SortedDistinct | SurfsUp/app.py:96-97 | `GROUP BY x ORDER BY x`: strictly ascending, holding exactly the values that occur. |
| Tables.RaiseBound | SurfsUp/app.py:66 | A bound on every date stays a bound when raised. |
| Tables.LatestDate | SurfsUp/app.py:66 | `ORDER BY date DESC ... first()` gives a date that occurs, and every date is at or before it. |
| Tables.InsertByCount | SurfsUp/app.py:124 | Inserting into a count-descending ranking keeps it count-descending, and adds exactly that pair. |
| Tables.HeadBoundsInsertion | SurfsUp/app.py:124 | A head with a count at least the inserted pair's stays at least every count after the insertion. |
| Tables.ConsDescending | SurfsUp/app.py:124 | A pair at least every count of a descending ranking heads a descending ranking. |
| Tables.SortByCountDesc | SurfsUp/app.py:124 | `ORDER BY count DESC`: count-descending, and a permutation of its input. |
| Tables.GroupsFor | SurfsUp/app.py:74 | One group per requested key, holding that key's bucket, which is non-empty. |
| Tables.ConsGroups | SurfsUp/app.py:74 | A first group prepended to the groups of the remaining keys gives the groups of all the keys. |
| Tables.GroupByDate | SurfsUp/app.py:74-75 | One non-empty group per distinct date, in strictly ascending date order, each holding exactly its date's rows. |
| Tables.Last | SurfsUp/app.py:72 | The bare column of a grouped query comes from a row of its group. |
| Tables.MinTobs | SurfsUp/app.py:170 | `min(tobs)` is at most every member, and is attained. |
| Tables.MaxTobs | SurfsUp/app.py:172 | `max(tobs)` is at least every member, and is attained. |
| Tables.TimesIsProduct | SurfsUp/app.py:171 | k copies of x added up make k times x. |
| Tables.SumBounds | SurfsUp/app.py:171 | A sum of tobs lies between its count times any lower bound and its count times any upper bound. |
| Tables.MeanBounds | SurfsUp/app.py:171 | A quotient by a positive n of a value between n·lo and n·hi lies between lo and hi. |
| Tables.MeanWithin | SurfsUp/app.py:171 | An average of k values lies within any bounds of those values. |
| Tables.Summarize | SurfsUp/app.py:169-173 | min ≤ avg ≤ max; every member lies between min and max; min and max are attained. |
| SurfsUp.Since | SurfsUp/app.py:73 | `date >= bound` keeps exactly the rows whose date text is not below the bound. |
| SurfsUp.Until | SurfsUp/app.py:208 | `date <= end` keeps exactly the rows whose date text is not above the bound. |
| SurfsUp.OfStation | SurfsUp/app.py:146 | `station == s` keeps exactly that station's rows. |
| SurfsUp.InDates | SurfsUp/app.py:74 | A date occurs in the column exactly when some row has it. |
| SurfsUp.InStations | SurfsUp/app.py:123 | A station occurs in the column exactly when some row has it. |
| SurfsUp.BucketUnfiltered | SurfsUp/app.py:177-178 | A filter that every row of a date passes leaves that date's group unchanged, rows and order alike. |
| SurfsUp.DictOfAscendingPairs | SurfsUp/app.py:83-84 | From rows with strictly ascending keys, the dict has those keys in that order, each with its row's value. |
| SurfsUp.EntryOfKey | SurfsUp/app.py:84 | Every key of such a dict comes from a row, and carries that row's value. |
| SurfsUp.MostRecentDate | SurfsUp/app.py:66 | `None` exactly for an empty table; otherwise a date that occurs, with no date after it. |
| SurfsUp.PrecipitationStart | SurfsUp/app.py:66-69 | Definition, no contract: `None[0]` is a TypeError on an empty table, otherwise `WindowStart` of the latest date; `Precipitation` states what follows from it. |
| SurfsUp.PrecipitationRows | SurfsUp/app.py:72-75 | Definition, no contract: the window start's fault, or the grouped (date, prcp) rows on or after its ISO text; its meaning is `PrcpPairsMeaning`. |
| SurfsUp.PrcpPairs | SurfsUp/app.py:72 | Definition: one (date, prcp) row per group; its keys are `GroupKeys`; its meaning is `PrcpPairsMeaning` and `PrcpPairsFromRows`. |
| SurfsUp.GroupedPairKeys | SurfsUp/app.py:74-75 | Rows keyed by a GROUP BY date have strictly ascending keys, one per date that occurs. |
| SurfsUp.PrcpPairsMeaning | SurfsUp/app.py:72-75 | One row per date of the table on or after the bound, ascending; each prcp comes from a row of that date. |
| SurfsUp.PrcpPairsFromRows | SurfsUp/app.py:72 | Each (date, prcp) row's value is the prcp of a table row of that date. |
| SurfsUp.NotAfterLatest | SurfsUp/app.py:66 | No date of the table is after its latest date. |
| SurfsUp.WithinPrecipitationWindow | SurfsUp/app.py:69-73 | On well-formed dates, a date kept by the filter lies in the 365 days that end on the latest date. |
| SurfsUp.Precipitation | SurfsUp/app.py:62-86 | Failure exactly when the window start fails (an empty table is TypeError at line 69). On success, the dict holds exactly the dates on or after the start, each at most the latest date, ascending, each prcp taken from a row of that date, and, on well-formed data, all within the trailing window. |
| SurfsUp.PrecipitationDictMeaning | SurfsUp/app.py:72-84 | The same facts about the dict built from the precipitation rows. |
| SurfsUp.StationRows | SurfsUp/app.py:95-97 | Definition, no contract: one-column rows of the distinct station ids in ascending order; `Stations` states its meaning. |
| SurfsUp.Unwrap | SurfsUp/app.py:109 | Definition, no contract: `[tuple[0] for tuple in rows]`. |
| SurfsUp.Stations | SurfsUp/app.py:95-109 | The list follows the query rows one to one, is strictly ascending, and holds exactly the station ids of the table. |
| SurfsUp.ActivityCounts | SurfsUp/app.py:121-123 | Definition, no contract: each distinct station, ascending, with its count; its meaning is `CountsMember`. |
| SurfsUp.ActivityRanking | SurfsUp/app.py:124 | Definition, no contract: those counts sorted by count, largest first; its meaning is `RankingMeaning`. |
| SurfsUp.RankingMeaning | SurfsUp/app.py:121-124 | The ranking is count-descending, empty only on an empty table, and holds exactly each occurring station with its count. |
| SurfsUp.CountsMember | SurfsUp/app.py:121-123 | The grouped counts hold exactly each occurring station with its count. |
| SurfsUp.MostActiveStation | SurfsUp/app.py:127-132 | An IndexError exactly on an empty table; otherwise an occurring station whose count no station exceeds. |
| SurfsUp.TopOfRanking | SurfsUp/app.py:124-132 | The ranking's head is an occurring station with a maximal count. |
| SurfsUp.StationHasRows | SurfsUp/app.py:135-137 | The chosen station has rows, so line 137's `first()` is never `None`. |
| SurfsUp.StationWindowStart | SurfsUp/app.py:135-140 | Definition, no contract: `WindowStart` of the station's latest date, which exists by `StationHasRows`. |
| SurfsUp.TobsRows | SurfsUp/app.py:143-148 | Definition, no contract: the station choice's or window start's fault, or the grouped (date, tobs) rows of the station on or after the start; its meaning is `TobsPairsMeaning`. |
| SurfsUp.TobsPairs | SurfsUp/app.py:143 | Definition: one (date, tobs) row per group; its keys are `GroupKeys`; its meaning is `TobsPairsMeaning`. |
| SurfsUp.TobsPairsMeaning | SurfsUp/app.py:143-148 | One row per date of the station's rows on or after the bound, ascending; each tobs comes from such a row. |
| SurfsUp.WithinWindow | SurfsUp/app.py:140 | On well-formed dates, a date on or after the start lies in the 365 days ending on the latest date. |
| SurfsUp.WellFormedOfStation | SurfsUp/app.py:146 | Filtering by station keeps the dates well formed. |
| SurfsUp.WithinStationWindow | SurfsUp/app.py:135-146 | On well-formed dates, every kept row lies in the 365 days ending on the station's own latest date. |
| SurfsUp.Tobs | SurfsUp/app.py:117-159 | Failure exactly when the station choice or its window start fails (an empty table is IndexError). On success: the station has a maximal count; the dict holds exactly the dates of its rows on or after its start, ascending, each tobs from such a row; on well-formed data, all within the station's trailing window. |
| SurfsUp.TobsDictMeaning | SurfsUp/app.py:143-157 | The same facts about the dict built from the temperature rows. |
| SurfsUp.SummaryPairs | SurfsUp/app.py:169-173 | Definition: one (date, min, avg, max) row per group; its keys are `GroupKeys`; its meaning is `SummaryRowsMeaning`. |
| SurfsUp.SummaryRowsMeaning | SurfsUp/app.py:176-179 | Under a filter that treats a date's rows alike: one row per admitted date, ascending, each summarising every row of that date. |
| SurfsUp.StartRows | SurfsUp/app.py:176-179 | Definition, no contract: the summary rows of the dates on or after `start`; its meaning is `StartRowsMeaning`. |
| SurfsUp.StartRowsMeaning | SurfsUp/app.py:176-179 | One row per date of the table on or after `start`, ascending, each the min/avg/max of that date's rows. |
| SurfsUp.Start | SurfsUp/app.py:165-190 | The dict holds exactly the dates on or after `start`, ascending, each mapped to the summary of all that date's rows. |
| SurfsUp.SummaryDictMeaning | SurfsUp/app.py:187-188 | The dict built from such rows has one entry per row, in order, each value the summary of its date. |
| SurfsUp.StartEndRows | SurfsUp/app.py:206-210 | Definition, no contract: the summary rows of the dates from `start` to `end`; its meaning is `StartEndRowsMeaning`. |
| SurfsUp.StartEndRowsMeaning | SurfsUp/app.py:206-210 | One row per date between `start` and `end`, both inclusive, ascending, each the summary of that date's rows. |
| SurfsUp.StartEnd | SurfsUp/app.py:196-221 | The dict holds exactly the dates from `start` to `end` inclusive, ascending, each mapped to its date's summary; bounds out of order give an empty dict. |
| SurfsUp.ReversedBoundsNoRows | SurfsUp/app.py:207-208 | With `end` before `start` the query returns no rows. |
| SurfsUp.EmptyRange | SurfsUp/app.py:207-208 | No string lies between bounds that are out of order. |
| SurfsUp.BothBounds | SurfsUp/app.py:207-208 | Two successive filters keep exactly what their conjunction keeps, in the same order. |

## Left out

- Flask, routing and `jsonify`: handlers are methods over in-memory tables and
  return the dict or list that `jsonify` would encode. `home()` returns only a
  fixed text, so it is left out, and so is `app.run` at lines 223-224.
- The engine, automapping and sessions (lines 14-27, 63, 77 and the other
  `Session`/`close` calls) are left out: the tables are parameters, a
  sequence of `Measurement` rows and a sequence of `Station` rows.
- SQLite's query planner is not modelled. Each query is given by its
  relational meaning: filter, group and order.
- The row order of an ungrouped table is the order of the sequence.
- Each handler opens its own session, so the handlers share no mutable
  state. Flask's threaded serving is not modelled.
- Floating point: `prcp`, `tobs` and `avg` are Dafny `real`, exact and
  unrounded. `jsonify`'s float printing is not modelled.
- Text.ParseInt: the 4300-digit limit is CPython's default since 3.11 (and
  3.10.7, 3.9.14, 3.8.14, 3.7.14); earlier versions have none. Changing it
  with `sys.set_int_max_str_digits` is not modelled.
- `int()` accepts surrounding whitespace, a sign, underscores between digits
  and non-ASCII digits. The model accepts only a non-empty run of ASCII
  digits, so on such fields it reports `NotAnInteger` where Python would
  parse a number. Stored dates never contain these.
- A `date` bound into a query is modelled as its ISO text (`IsoFormat`),
  the form the SQLite dialect binds it in. Conversions other than that
  string comparison are not modelled.
- SurfsUp.Tobs: line 145 wraps the comparison in `func.strftime(...)`.
  - SQLite then formats 0 or 1 as text, and the WHERE clause reads that
    text back as a truth value.
  - The model states the comparison `date >= start` itself. It does not
    model `strftime`.
- Tables.Last: a bare column in a grouped query (the `prcp` of line 72 and
  the `tobs` of line 143) comes from an arbitrary row of its group in
  SQLite. The model fixes the group's last row, and the lemmas about the
  handlers promise only "a row of that date".
- SurfsUp.MostActiveStation: with several stations sharing the largest
  count, SQLite's order among them is unspecified. The model's stable sort
  keeps them in ascending station order, so the smallest id wins. The
  contracts promise only that the chosen count is maximal.
- `count(Measurement.date)` skips NULL dates. The model counts all of a
  station's rows, since dates are never NULL in this table.
- SurfsUp.Precipitation and SurfsUp.Tobs: the code does not check that the
  stored dates are well formed. The trailing-window guarantee is therefore
  stated only under `WellFormedDates`. Without it the contracts still give
  the string-order facts.
