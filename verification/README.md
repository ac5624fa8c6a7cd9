# clickhouse_import, modelled in Dafny

`clickhouse_import.py` reads a product feed in XML, one `offer` element at a
time. Each offer becomes one row of the `Data` model. The rows are collected
in a buffer. Then the `Data` table is created in ClickHouse and the whole
buffer is inserted.

This project models that script's logic:

- `wrappers.dfy`: `Option` and `Result`.
- `schema.dfy` (module `Schema`): the `Data` declaration.
  - It has thirteen columns in order; `modified_time` is the only DateField.
  - It has the MergeTree date column and key tuple.
  - `Record` is one row.
- `lookup.dfy` (module `Lookup`): `safely_get_data`.
  - An offer element is an attribute map plus its direct children as (tag, text) pairs.
  - An optional position says where iterating over the children raises.
  - The lookup returns the first matching child's text. It returns `None` when the children run out without a match. It returns `"not found"` only when the iteration raises.
- `decimal.dfy` (module `Decimal`):
  - decimal digit strings;
  - what `int()` accepts of a lookup result (an optional sign and one or more digits);
  - the zero-padded digits that `strftime` writes.
- `calendar.dfy` (module `Calendar`): `datetime.datetime.fromtimestamp(t).strftime('%Y-%m-%d')`.
  - The host's local time is a fixed offset from UTC.
  - Days are counted by floor division by 86400.
  - A day count is converted to a proleptic Gregorian date by 400-, 100-, 4- and 1-year cycles.
  - The conversion is proved correct against a closed-form day numbering.
  - Python 2 refuses years before 1900 in `strftime` and after 9999 in `fromtimestamp`. These refusals are an error result that carries the year.
- `extractor.dfy` (module `Extractor`): the body of the loop in `parse_clickhouse_xml`.
  - It reads the two required attributes and the eleven lookups with their fixed tags.
  - It converts `modified_time`.
  - The result is a `Record`, or the exception that ends the run: `KeyError`, `int()` failing, or a refused year.
- `loader.dfy` (module `Loader`): the loop over the offers, as a method with a loop invariant.
  - It appends one record per offer to `data_buffer`.
  - The first exception aborts the run before any database call.
  - Otherwise it makes the two storage calls: create the table, then insert the buffer.

The docstring of `safely_get_data` reads as if the "error value" were
returned when the key is missing. The code returns `None` when no child
matches, and `"not found"` only when iterating over the children raises. The
model follows the code and keeps the two outcomes distinct.

## Model

| member | source | states |
|---|---|---|
| Schema.DataSchemaShape | clickhouse_import.py:16-32 | Thirteen distinct column names. The seventh, `modified_time`, is the only DateField and is the MergeTree date column. The key tuple is exactly the other twelve columns, in declaration order, and does not contain the date column. |
| Lookup.WalkFrom | clickhouse_import.py:43-45 | The `for child in element` loop from a position on stops at the first child with the key, runs out, or raises. Each outcome comes with its witness: no earlier child matches, and no raise occurs before the stop. |
| Lookup.SafelyGetData | clickhouse_import.py:35-47 | If the first child tagged `key` is reached before any raise, its text is returned. If no child is tagged `key` and nothing raises, the result is `None`. If the iteration raises before any matching child, the result is `"not found"`. |
| Lookup.NotFoundOnlyFromRaise | clickhouse_import.py:46-47 | `"not found"` is returned only when the iteration raises, or when the first matching child's own text is `"not found"`. |
| Lookup.NoneOnlyFromMissOrEmptyChild | clickhouse_import.py:42-45 | `None` is returned only for a miss without a raise, or for a first matching child that has no text. |
| Decimal.PadDigits | clickhouse_import.py:76 | A zero-padded field of the given width: exactly `width` digits whose value is `n`. |
| Decimal.NatString | clickhouse_import.py:76 | The canonical decimal text of `n`: non-empty, all digits, value `n`, and no leading zero unless it is `"0"`. |
| Decimal.ParseInt | clickhouse_import.py:76 | `int(text)` succeeds exactly on an optional sign followed by one or more digits. The sign of the result follows the leading `-`. |
| Decimal.ParseIntString | clickhouse_import.py:76 | Round trip: parsing the decimal text of any integer gives that integer back. |
| Decimal.ParseIntPadded | clickhouse_import.py:76 | Leading zeros do not change the parsed value. A leading `+` keeps it and a leading `-` negates it, so `-007` is -7 and `-0` is 0. |
| Decimal.ParseIntRejectsText | clickhouse_import.py:68-76 | The empty text, a bare sign, `"not found"`, `"not-a-number"` and `"12.5"` are not integers. |
| Calendar.MonthsFillYear | clickhouse_import.py:76 | The twelve months exactly fill the year (365 or 366 days). |
| Calendar.YearStep | clickhouse_import.py:76 | The day numbering of January 1st advances by the length of the year. |
| Calendar.YearAndDayOfYear | clickhouse_import.py:76 | The 400/100/4/1-year cycle split of a day count gives a year and a day of that year within its length. The year's first day plus that offset is the count. |
| Calendar.MonthFrom | clickhouse_import.py:76 | The month found contains the day of the year. |
| Calendar.CivilFromDays | clickhouse_import.py:76 | The date of day `z` after 1970-01-01 is valid (month 1..12, day within its month). Its day number is `z`. |
| Calendar.LocalDate | clickhouse_import.py:76 | The local date of an epoch second is valid. Its day number is the floor of (seconds + offset) / 86400. |
| Calendar.YearsOrdered | clickhouse_import.py:76 | A later year starts after the whole of an earlier one. |
| Calendar.MonthsOrdered | clickhouse_import.py:76 | A later month starts after the whole of an earlier one. |
| Calendar.DayOfYearInYear | clickhouse_import.py:76 | A valid date's day of the year lies inside its year. |
| Calendar.DayNumberInjective | clickhouse_import.py:76 | Distinct valid dates have distinct day numbers. |
| Calendar.CivilFromDayNumber | clickhouse_import.py:76 | Round trip: converting a valid date's day number back gives that date. |
| Calendar.SameDaySameDate | clickhouse_import.py:76 | Every second in `[86400 k, 86400 (k+1))` of local time gives the same date, namely day `k`. |
| Calendar.NextDay | clickhouse_import.py:76 | 86400 seconds later is the next day number. |
| Calendar.FormatDate | clickhouse_import.py:76 | `%Y-%m-%d` gives ten characters: four, two and two digits separated by hyphens. Reading them back gives the date. |
| Calendar.EpochToDateText | clickhouse_import.py:76 | A date text is produced exactly when the local year is in 1900..9999. It reads back as the local date. Otherwise the error carries the refused year. |
| Calendar.SameDaySameText | clickhouse_import.py:76 | Every second of the same local day gives the same text, or the same refusal. |
| Calendar.DateTextIsValid | clickhouse_import.py:76 | The text produced names a valid date: month 1..12, day within the month. |
| Calendar.KnownDate | clickhouse_import.py:76 | A valid date in years 1900..9999 with day number `z` is the text that second `86400 z` gives in UTC. |
| Calendar.EpochText | clickhouse_import.py:76 | Second 0 is `1970-01-01` in UTC. |
| Calendar.NewYear2021Text | clickhouse_import.py:76 | Second 1609459200 is `2021-01-01` in UTC. |
| Extractor.TextColumnsCoverSchema | clickhouse_import.py:16-28 | The ten text columns are distinct. They are the schema's columns other than `available`, `item_id` and `modified_time`, in declaration order. |
| Extractor.ParseTimestamp | clickhouse_import.py:76 | `int(modified_time)` succeeds exactly when the lookup gave integer text. The value is the integer the text denotes. `None` and other text are `int()` errors that carry the raw value. |
| Extractor.ExtractRecord | clickhouse_import.py:62-92 | A missing `available` is reported first, then a missing `id`, then a bad timestamp. `Data(...)` is called with these values exactly when both attributes exist, the timestamp is an integer and its local year is accepted. The row copies `available` and `id` verbatim. Its date is the `YYYY-MM-DD` text of the local date. When both attributes exist and the timestamp is an integer but its local year is refused, the error is that year. |
| Extractor.ColumnsReadTheirTags | clickhouse_import.py:63-74 | The fixed mapping: every text column holds the lookup of its tag. `category_id` reads `categoryId`, `currency_id` reads `currencyId`, `topseller` reads `top_seller`, and every other column reads its own name. |
| Extractor.AbsentChildGivesNone | clickhouse_import.py:63-74 | A column whose tag no child carries holds `None`, not `"not found"`, when the iteration does not raise. |
| Extractor.NonNumericTimestampFails | clickhouse_import.py:68-76 | With both attributes present, a `modified_time` lookup of `None`, `"not found"` or `"not-a-number"` makes `int()` raise, and no row is made. |
| Extractor.NewYearSeconds | clickhouse_import.py:76 | `int("1609459200")` is 1609459200. |
| Extractor.DatedRecord | clickhouse_import.py:76-92 | An offer with both attributes and a timestamp that has a date text becomes a row dated by that text. |
| Extractor.NewYear2021 | clickhouse_import.py:68-92 | An offer with both attributes whose `modified_time` lookup gives `1609459200` becomes a row dated `2021-01-01` in UTC. |
| Extractor.ExtractDependsOnlyOnLookups | clickhouse_import.py:62-92 | Extraction is a deterministic function of the two attributes and the eleven lookups. Offers that agree on those give the same row or the same error. |
| Loader.ExtractAll | clickhouse_import.py:57-94 | The accumulated batch. On success it has one row per offer, row `i` being offer `i`'s extraction. On failure it names the first offer whose extraction raises, with the error, and every earlier offer extracts. |
| Loader.FirstFailureIsFinal | clickhouse_import.py:60-94 | Offers after the first failure change nothing. |
| Loader.ExtendBatch | clickhouse_import.py:94 | An offer that extracts appends its row to the batch. |
| Loader.FailAt | clickhouse_import.py:60-76 | An offer that raises after a complete batch is the failure of the whole run. |
| Loader.AllExtractedLoads | clickhouse_import.py:60-94 | If every offer extracts, the batch is complete. |
| Loader.FirstRaisingOffer | clickhouse_import.py:60-94 | The first offer that raises, after offers that all extract, is the failure reported, with its error. |
| Loader.LoadedRow | clickhouse_import.py:60-94 | Row `i` of a complete batch is what `ExtractRecord` makes of offer `i`, so its `item_id` is that offer's `id` attribute. |
| Loader.MissingAvailableAborts | clickhouse_import.py:62 | An offer without `available`, after offers that all extract, ends the run with `KeyError('available')` at that offer. |
| Loader.ParseClickhouseXml | clickhouse_import.py:57-104 | The loop keeps `data_buffer` equal to the batch of the offers seen so far. The first failing offer aborts the run with its position and error, before `create_table` and `insert`. Otherwise the run calls `create_table(Data)` and then `insert` with exactly the full batch, in document order. |

## Left out

- `etree.iterparse` streaming is left out. The offers arrive as an already-parsed sequence of `offer` elements in document order. Parse errors of the XML file are left out, and so are nested `offer` elements.
- `offer.clear()` (line 95) is left out. It releases parser memory and changes no value the loop reads afterwards.
- Comments and processing instructions among an offer's children are modelled as children whose tag matches no key.
- LocalDate: the host's time zone is a fixed offset from UTC. Daylight saving and historical zone changes are not modelled, because they come from the host's time zone database.
- EpochToDateText: a timestamp outside the platform's `time_t` or `localtime` range raises in Python before the year checks. The model refuses only years outside 1900..9999, because those limits depend on the platform.
- ParseInt: only an optional sign followed by ASCII digits is accepted. Python's `int()` also accepts surrounding whitespace and non-ASCII decimal digits in unicode text; these are not modelled.
- ExtractRecord: a `Record` holds the raw values given to `Data(...)`, `None` included. The ORM converts and validates each field value when the row is built (line 78). That conversion can raise, and the run then aborts at line 78 even though the model makes a row. Two likely cases are a StringField given `None` (a missing or empty optional child) and a DateField before the ORM's lowest date. That code is in infi.clickhouse_orm, which is not part of this model.
- ParseClickhouseXml: `create_table` and `insert` are recorded as storage-call events. `Database(...)` (line 99) is left out, and so are connecting to the server, its failures and the data actually stored.
- The `time()` measurements and the two `print` statements (lines 58, 97, 102, 105) are left out. They are diagnostic output.
- The `__main__` entry point (lines 108-113) is left out. It only calls `parse_clickhouse_xml` with fixed arguments.
