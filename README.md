# GHCN-Daily reader: a Dafny model

This project models the core of `ghcnpy`, a Python package that reads
Global Historical Climatology Network Daily (GHCN-Daily) station files and
draws climate charts from them. It proves properties of that model.

The core has two parts.

- **`ghcnpy/iotools.py`**
  - Decoding of `.dly` records. Each record is one station, one element,
    one month: a year at columns 11-15, a month at 15-17, an element code
    at 17-21, and 31 day slots of 8 characters from column 21. A slot holds
    a 5-character value, then the measurement, quality and source flags.
  - The dense grid that `to_datastructure` and `output_to_csv` fill from
    those records, indexed year × month × day × element.
  - The rows both routines extract for every date with data.
  - The fixed-width parse of the station list in
    `get_stations_in_datastructure`, and the column widths that
    `get_ghcnd_stations` hands to `np.genfromtxt`.
- **`ghcnpy/plotting.py`**: the computing half of `plot_temperature`,
  `plot_precipitation` and `plot_snowfall`.
  - The station-name lookup and its normalisation.
  - The three decode loops.
  - The calendar-day record and average tables of temperature, and the walk
    over the requested date span.
  - The last day with data, and its three-month shift for snowfall.
  - The cumulative "average year" curves.
  - The per-year precipitation and per-season (October to September)
    snowfall running totals.

## Modelling conventions

- **Exceptions.** A Python exception that escapes a routine makes its
  result `Err(ValueError | IndexError | NameError)`. An exception the source
  swallows with `try: ... except: pass` makes that step do nothing.
- **Grids.** numpy grids are flattened row-major into `seq<real>` or
  `array<real>`. `DailyGrid.Cell(y, m, d, e, ne)` is the position of a cell.
- **numpy indexing.** Indexing follows numpy: a negative index counts from
  the end (`PyModel.NumpyIndex`) and slice bounds are clipped
  (`PyModel.SliceBound`).
- **Dates.** The date checks the source delegates to `datetime(...)` are
  the explicit Gregorian calendar of module `Calendar`, with years 1 to
  9999.
- **Numbers.** Values are exact reals. A masked value or a NaN is `None`;
  NaN propagates through sums (`Averages.AddNaN`).
- **Inputs.** The clock (`datetime.now().year`), the station table and the
  lines of a station file are parameters.
- **Proof style.** Every imperative loop of the source is a Dafny `method`
  with the same loop. Its contract ties the result or the new array
  contents to a specification function. Lemmas about those functions state
  what the source promises.

## Behaviour kept as written

The model keeps the source's behaviour, including the surprising cases
below. Each one is stated by a lemma.

- **Averaging window.** The temperature averages slice the years
  `[1980 - 1895 : 2010 - 1895]`. That is calendar years 1980 to 2009, not
  the 1981-2010 the comment beside it names (`TemperatureStats.WindowYears`).
- **Last year left out.** The precipitation and snowfall averages run over
  the years `valid_begin .. valid_end - 1`, so the last year with data is
  never averaged. When only one year has data the average is NaN
  (`Averages.WindowExcludesLastYear`).
- **Snow month list.** The snow average loop walks the list
  `[9, 10, 11, 12, 1, …, 9]` with `month + 1`.
  - It visits October to December, then a month 13 that no date matches,
    then February to October.
  - January is never visited and October is counted twice.
  - The curve still fills exactly 366 slots (`DayWalk.SnowAverageDates`,
    `DayWalk.SnowListNoJanuary`).
- **Snow season of the first year.** The snowfall accumulation starts with
  `day_of_year` where the average loop left it, at 366. The January to
  September days of the first year therefore raise an IndexError that is
  swallowed, and row 0 stays zero (`Plotting.SnowfallCurveEnd`,
  `Accumulations.SnowfallEdges`).
- **The December fix** tests row `year_counter`, the row that has just
  received January to September. It copies slot 364 into a zero slot 365
  (`Accumulations.FixedRow`, `Accumulations.SnowfallRows`).
- **Temperature date walk.**
  - The walk visits only days `begin_dd .. end_dd` of every month, not the
    months' full lengths. With `begin_dd` past 1 no first day of a month
    is visited, and with `begin_dd` past `end_dd` no date at all
    (`TemperatureVisits.VisitedExactly`, `TemperatureVisits.NoFirstDays`,
    `TemperatureVisits.NothingVisited`).
  - The series have `num_days` slots, but only the visited dates fill
    them: slot `k` holds the `k`-th visited date and the slots after the
    last one keep `-9999.0` (`TemperatureVisits.WalkContents`,
    `Plotting.TemperatureSeries`).
  - When the span starts and ends in the same year, the year loop's first
    branch runs the months up to December. That overruns `month_pos` with
    an IndexError unless the span ends in December
    (`TemperatureWalk.WindowOutcome`, `TemperatureWalk.OneMonthCrashes`).
- **Earlier years wrap.** A record whose year lies before the grid's first
  year, by at most as many years as the grid has rows, is written into a
  row counted from the end by numpy's negative indexing
  (`DailyGrid.EarlierYearWraps`). A year further before, or one at or past
  the end of the grid, raises IndexError (`DailyGrid.OutOfRangeYearFails`).
- **Last-day shift.** The snowfall last-day shift counts 92 days on and
  wraps at 365.
  - It is the day's position in its snow season only in a common year, and
    not on September 30, which becomes 0.
  - In a leap year, a date from October on lands one day later
    (`Plotting.ShiftIsSeasonDay`, `Plotting.ShiftCommonYear`,
    `Plotting.ShiftSeptember30`).
- **Two flag tests.** `iotools.py` accepts a quality flag that strips to
  nothing. `plotting.py` accepts only a single space
  (`Plotting.ReadersDecode`, `DailyGrid.FieldsAreColumns`).

## Model

| member | source | states |
|---|---|---|
| PyModel.Slice | ghcnpy/iotools.py:117 | A Python string slice `s[lo:hi]` is clipped to the string: it is empty when `lo >= hi` or `lo` is past the end, and character `k` is `s[lo + k]` |
| PyModel.StripSpec | ghcnpy/iotools.py:268 | `strip()` is empty exactly when the text is all whitespace; otherwise the result neither starts nor ends with whitespace |
| PyModel.StripIdempotent | ghcnpy/plotting.py:40 | Stripping twice is stripping once |
| PyModel.ParseInt | ghcnpy/iotools.py:135 | `int()` succeeds only on text that is not blank, and a negative result comes from text that starts with `-` once stripped |
| PyModel.ParseIntRoundTrip | ghcnpy/iotools.py:143 | `int()` of `str(n)` padded with leading spaces is `n`, for every integer `n` |
| PyModel.NumpyIndex | ghcnpy/iotools.py:143 | numpy accepts an index `i` on an axis of length `n` exactly when `-n <= i < n`; a negative index counts from the end and a non-negative one is itself |
| PyModel.SliceBound | ghcnpy/plotting.py:272 | A numpy slice bound is clipped to `0 .. n`, and a negative bound counts from the end |
| Calendar.DaysInMonth | ghcnpy/plotting.py:290 | The dates `datetime` accepts: a month has 28 to 31 days; February has 29 exactly in a leap year; another month has 30 exactly when it is April, June, September or November |
| Calendar.DaysBeforeMonthMonotone | ghcnpy/plotting.py:257 | The days before a month grow with the month |
| Calendar.YearIsTwelveMonths | ghcnpy/plotting.py:283-297 | The twelve months of a year add up to 365 days, or 366 in a leap year |
| Calendar.DayOfYear | ghcnpy/plotting.py:257 | `tm_yday` of a valid date lies in `1 ..` the year's length, and in January it is the day of the month |
| Calendar.DayOfYearOrdered | ghcnpy/plotting.py:257 | A later date in the same year has a larger `tm_yday` |
| Calendar.OrdinalNewYear | ghcnpy/plotting.py:96 | The date ordinal behind `date - date` steps by one from December 31 to January 1 |
| DlyRecord.GridElementsExact | ghcnpy/iotools.py:118-133 | The grid reader keeps exactly TMAX, TMIN, PRCP, SNOW and SNWD, at distinct element indices 0 to 4, dividing by 10 for the first three and by 1 for SNOW and SNWD |
| DlyRecord.AcceptedSlots | ghcnpy/iotools.py:141-142 | There are 31 accept flags, and flag `i` is the accept test of day slot `i` |
| DlyRecord.LastTrue | ghcnpy/plotting.py:250-253 | `last_day` after a line's slot loop is one plus the index of the last accepted slot, and no slot after it is accepted; it stays unset when none is accepted |
| DlyRecord.IntTextWidth | ghcnpy/iotools.py:142 | Every value in -9999 .. 99999 fits the 5-character value field |
| DlyRecord.EncodeSlot | ghcnpy/iotools.py:140-144 | A day slot is written as 8 characters |
| DlyRecord.EncodeSlots | ghcnpy/iotools.py:140-144 | A run of slots is written as 8 characters per slot |
| DlyRecord.SlotColumns | ghcnpy/iotools.py:140-144 | A 21-character header and 31 slots make a 269-character record, and slot `i` occupies columns `21 + 8i .. 29 + 8i` |
| DlyRecord.EncodedSlotValue | ghcnpy/iotools.py:143 | `int()` of the first 5 characters of an encoded slot is its value, and character 6 is its quality flag |
| DlyRecord.DecodeEncodedSlot | ghcnpy/iotools.py:140-144 | Round trip: decoding slot `i` of an encoded record gives back that slot's value and quality flag |
| DlyRecord.DecodeSlotAt | ghcnpy/iotools.py:142-143 | Any 269-character line that holds an encoded slot at position `i` decodes there to that slot's value and quality flag |
| DlyRecord.SlotFields | ghcnpy/iotools.py:140-144 | With `char = 21 + 8i`, slot `i` reads its value from columns `21 + 8i .. 26 + 8i` and its flag from `27 + 8i .. 28 + 8i` |
| DailyGrid.CellInGrid | ghcnpy/iotools.py:114 | Every (year, month, day, element) index of the grid's shape lies inside the flattened grid |
| DailyGrid.CellInjective | ghcnpy/iotools.py:114 | Distinct indices are distinct cells of the flattened grid |
| DailyGrid.Fields | ghcnpy/iotools.py:135-144 | The decoded form of a line has an accept flag and a parsed value for each of the 31 slots |
| DailyGrid.FieldsOf | ghcnpy/iotools.py:116 | Every line of the file is decoded, in order |
| DailyGrid.FieldsAreColumns | ghcnpy/iotools.py:135-143 | The element is columns 17-21, the year is `int()` of 11-15 and the month `int()` of 15-17; slot `i` is accepted exactly when its value text is not `-9999` and its flag passes the routine's blank test; its value is `int()` of its value text |
| DailyGrid.ApplySlots | ghcnpy/iotools.py:141-144 | The slot loop keeps the grid's size |
| DailyGrid.ApplyLine | ghcnpy/iotools.py:117-144 | One line's pass keeps the grid's size |
| DailyGrid.ApplyLines | ghcnpy/iotools.py:116-144 | The line loop keeps the grid's size |
| DailyGrid.ApplySlotsEffect | ghcnpy/iotools.py:141-144 | After the slot loop from slot `i`, a cell holds the slot's value divided by the element's divisor exactly when it is the line's element and the year and month cell (under numpy indexing) of an accepted slot `d >= i`; every other cell is unchanged |
| DailyGrid.ApplyLineEffect | ghcnpy/iotools.py:117-144 | After one line, a cell holds that line's write for it if it has one, and is unchanged otherwise |
| DailyGrid.LastWriteWins | ghcnpy/iotools.py:116-144 | After the line loop, each cell holds the write of the last line in file order that targets it, or its starting value if none does |
| DailyGrid.OtherCodeUnchanged | ghcnpy/iotools.py:118 | A line whose element is not kept leaves the grid unchanged and targets no cell |
| DailyGrid.EarlierYearWraps | ghcnpy/iotools.py:143 | An accepted January slot of a kept line whose year lies up to `years` before row 0 is written, into row `year - begin + years` |
| DailyGrid.OutOfRangeYearFails | ghcnpy/iotools.py:143 | A kept line whose year is outside the range numpy accepts raises IndexError at its first accepted slot |
| DailyGrid.SkipRejected | ghcnpy/iotools.py:142 | Rejected slots do nothing |
| DailyGrid.ScanYearRange | ghcnpy/plotting.py:243-244 | `valid_begin` and `valid_end` bound the year of every kept line; each is either its start value or the year of some kept line |
| DailyGrid.ScanLastLine | ghcnpy/plotting.py:241-246 | `year` and `month` after the loop are those of the last kept line, and stay unset when no line is kept |
| DailyGrid.ReadLines | ghcnpy/plotting.py:235-254 | The line loop on the grid array fails exactly when the line-loop function does, with the same exception; otherwise the array holds that function's grid and the year range and last line are those of the scan |
| DailyGrid.ReadSlots | ghcnpy/plotting.py:249-254 | The slot loop on the grid array fails exactly when the slot function does; otherwise the array holds its grid and `last_day` is the last accepted slot |
| IoTools.GridReader | ghcnpy/iotools.py:114-133 | The reader has five elements, each with a valid index and a non-zero divisor |
| IoTools.YearRange | ghcnpy/iotools.py:109-111 | An empty file raises IndexError. When the first and last lines' years parse and do not decrease, the grid's row 0 is the first line's year and its last row is the last line's year |
| IoTools.RowAtKey | ghcnpy/iotools.py:240-249 | The row made from grid position `p` has month 1-12, day 1-31 and year `begin + p / 372`, and its date key is `p` |
| IoTools.KeyOrderIsDateOrder | ghcnpy/iotools.py:229-231 | Ordering rows by grid position is ordering them by (year, month, day) |
| IoTools.RowsUpToKeys | ghcnpy/iotools.py:229-250 | The rows extracted from the first `n` positions have keys below `n`, in strictly increasing order |
| IoTools.RowsUpToExact | ghcnpy/iotools.py:232-250 | There is a row for position `p` exactly when some element there is not -9999, and that row carries the position's date and five values |
| IoTools.ExtractRows | ghcnpy/iotools.py:229-250 | The nested loops over the grid array return exactly the rows of the extraction function |
| IoTools.GridFrom | ghcnpy/iotools.py:194-224 | The filled grid has the shape `years × 12 × 31 × 5` |
| IoTools.GridRows | ghcnpy/iotools.py:194-250 | Filling the array and extracting from it gives the rows of the grid the line-loop function describes, or its exception |
| IoTools.ToDataStructure | ghcnpy/iotools.py:169-252 | `to_datastructure` returns the rows of its file's grid, or the exception sizing or filling the grid raises |
| IoTools.OutputToCsv | ghcnpy/iotools.py:89-166 | `output_to_csv` succeeds exactly when `to_datastructure` does on the same lines; it writes the header and then exactly the same rows, and otherwise raises the same exception |
| IoTools.RowsAscending | ghcnpy/iotools.py:229-249 | Every row has month 1-12, day 1-31 and a year of the grid, and the rows are in strictly ascending date order |
| IoTools.RowsAreDatesWithData | ghcnpy/iotools.py:229-250 | There is a row for a date exactly when the grid has data at that date, and its five values are the last writes of the file's lines (or -9999) |
| Stations.ParseStationShape | ghcnpy/iotools.py:266-288 | Each entry carries its line index; its fields are stripped, the id at most 11 and the name at most 30 characters; the GSN flag is empty for a line of length 72 or less and the WMO id for a line of length 80 or less |
| Stations.StationsOf | ghcnpy/iotools.py:266-290 | There is one entry per line, and entry `i` is line `i` parsed with index `i` |
| Stations.GetStationsInDatastructure | ghcnpy/iotools.py:261-292 | The `enumerate` loop returns exactly the list of parsed lines |
| Stations.StripPads | ghcnpy/iotools.py:268-276 | Stripping a field padded to its column width gives the field back |
| Stations.StationLine | ghcnpy/iotools.py:266-276 | A station line written in the station-file layout has 86 characters |
| Stations.StationColumns | ghcnpy/iotools.py:268-276 | Each column the parse reads from a written line holds exactly that field, padded |
| Stations.ParseStationLine | ghcnpy/iotools.py:266-288 | Round trip: parsing a written station line gives back its id, coordinates, elevation, name, GSN flag and WMO id |
| Stations.Offsets | ghcnpy/iotools.py:68 | The start columns of fixed-width fields are the prefix sums of their widths |
| Stations.StationOffsets | ghcnpy/iotools.py:68 | The widths (11, 9, 10, 7, 4, 30) start their columns at 0, 11, 20, 30, 37 and 41 and end at 71 |
| Stations.GenFromTxtRow | ghcnpy/iotools.py:68 | A line splits into one field per width |
| Stations.GenFromTxt | ghcnpy/iotools.py:68 | The station table has a row of 6 fields per line |
| Stations.GenFromTxtAgrees | ghcnpy/iotools.py:68 | Field 0 of the table is columns 0-11 and field 5 is columns 41-71; stripped, they are the id and the name the station parse reads |
| PlotStation.Matching | ghcnpy/plotting.py:34 | No more rows are selected than the table has, and every selected row's first field is the station id |
| PlotStation.FirstMatch | ghcnpy/plotting.py:34-35 | The first row whose id matches, or none when no row matches |
| PlotStation.StationMetaIsFirstMatch | ghcnpy/plotting.py:34-35 | `ghcnd_meta[0]` is the first matching row, and an id with no row raises IndexError |
| PlotStation.CollapseSpaces | ghcnpy/plotting.py:41 | `re.sub(' +', ' ', s)` keeps the first and last characters, leaves no two adjacent spaces, and leaves text without spaces unchanged |
| PlotStation.ReplaceSpaces | ghcnpy/plotting.py:42 | `replace(" ", "_")` turns each space into `_` and keeps every other character in place |
| PlotStation.NormaliseName | ghcnpy/plotting.py:40-42 | The normalised name has no space, is no longer than the raw name, and does not start or end with whitespace |
| PlotStation.NormaliseNameIdempotent | ghcnpy/plotting.py:40-42 | Normalising twice is normalising once |
| PlotStation.NormaliseSpacedName | ghcnpy/plotting.py:40-42 | A stripped name without runs of spaces is normalised just by replacing its spaces |
| PlotStation.StationName | ghcnpy/plotting.py:33-42 | The lookup fails only with IndexError, and a name that is found has no spaces |
| PlotStation.StationNameFromFile | ghcnpy/plotting.py:33-42 | On the station table read with those widths, an id with no row raises IndexError; otherwise the name is the normalised name field of the first matching line |
| DayWalk.MonthDays | ghcnpy/plotting.py:287-290 | A month index contributes as many dates as `datetime` accepts in that month: none for an index past December or a year outside 1 .. 9999 |
| DayWalk.DatesAreBlocks | ghcnpy/plotting.py:266-277 | Walking `months × range(31)` and keeping the dates `datetime` accepts gives each month's valid days, month after month |
| DayWalk.CalendarBlocks | ghcnpy/plotting.py:286-290 | After the first `i` months of a year, the walk has visited the days before month `i + 1`, each numbered by its day of the year |
| DayWalk.CalendarYear | ghcnpy/plotting.py:286-295 | The walk over a year's twelve months visits 365 or 366 dates by the leap rule, date `k` being day `k + 1` of the year |
| DayWalk.NoDatesOutsideYears | ghcnpy/plotting.py:290 | A year outside 1 .. 9999 has no date `datetime` accepts |
| DayWalk.MonthsOf2012 | ghcnpy/plotting.py:489-493 | With `month_counter + 1`, each entry of the snow month list has the 2012 length of the following month, and entry 12 (month 13) has none |
| DayWalk.SnowListLength | ghcnpy/plotting.py:489-493 | The snow month list visits 366 dates in 2012, ending with a second October |
| DayWalk.SnowListOctobers | ghcnpy/plotting.py:489-493 | The first 31 and the last 31 dates of the snow walk are both October |
| DayWalk.SnowListNoJanuary | ghcnpy/plotting.py:489-493 | The snow walk never visits January |
| DayWalk.SnowAverageDates | ghcnpy/plotting.py:489-501 | The snow average curve's 366 dates start and end with October and contain no January |
| Averages.WindowExcludesLastYear | ghcnpy/plotting.py:272 | With both data years in the grid, the mean is over the years from `valid_begin` up to but not including `valid_end`: NaN exactly when both are the same year, and otherwise their sum over `valid_end - valid_begin` |
| Averages.Means | ghcnpy/plotting.py:272 | One window mean per visited date, in order |
| Averages.RunningNaN | ghcnpy/plotting.py:272-273 | The running sums have one slot per input |
| Averages.RunningNaNStep | ghcnpy/plotting.py:272-273 | Slot 0 is 0 plus the first mean, and slot `k` is slot `k - 1` plus mean `k` |
| Averages.RunningIsTotal | ghcnpy/plotting.py:272-273 | Slot `k` is the NaN-propagating total of the first `k + 1` means, and is NaN once any of them is |
| Averages.CurveIsRunningMeans | ghcnpy/plotting.py:263-277 | At every point of the average loop, the slots written so far are the running sums of the window means of the dates visited, the rest are still -9999, and `day_of_year` and `day_before` are the count and the last sum |
| Averages.PrecipitationCurve | ghcnpy/plotting.py:263-277 | The precipitation curve has 366 slots, the running sums of the window means of the dates of 2012 |
| Averages.SnowfallCurve | ghcnpy/plotting.py:486-501 | The snowfall curve has 366 slots, the running sums of the window means along the snow month list in 2012 |
| Averages.AverageCurve | ghcnpy/plotting.py:263-277 | The average loop on arrays leaves the slots, `day_of_year` and `day_before` of the curve function |
| Accumulations.RunningSum | ghcnpy/plotting.py:291-293 | One running total per day, the last being the sum |
| Accumulations.RunningStep | ghcnpy/plotting.py:291 | Slot 0 is the first value, and slot `k` is slot `k - 1` plus value `k` |
| Accumulations.RunningIsPrefixSum | ghcnpy/plotting.py:291-293 | Slot `k` is the sum of the first `k + 1` values |
| Accumulations.RunningNonDecreasing | ghcnpy/plotting.py:291-293 | With non-negative values, the running totals are non-negative and never decrease |
| Accumulations.RunningConcat | ghcnpy/plotting.py:518-520 | Running on across two stretches continues from the first stretch's sum |
| Accumulations.ExpectedRow | ghcnpy/plotting.py:281 | A row of `prcp_accum` or `snow_accum` has 366 slots |
| Accumulations.ExpectedRowShape | ghcnpy/plotting.py:281-295 | A filled row holds the running totals of its days, then zeros |
| Accumulations.ExtendEffect | ghcnpy/plotting.py:288-297 | Running further days into a row that holds the totals of earlier days makes it hold the totals of all of them; the row total and the carry become their sum |
| Accumulations.ExtendFresh | ghcnpy/plotting.py:284-297 | Running days into a zero row from a zero carry makes the row their running totals and its total their sum |
| Accumulations.DateValues | ghcnpy/plotting.py:291 | One grid value per visited date, in order |
| Accumulations.RangeLength | ghcnpy/plotting.py:286-290 | A run of months contributes as many values as it has valid dates |
| Accumulations.SpanBounds | ghcnpy/plotting.py:281 | A year has at most 366 valid dates, January to September at most 274, October to December at most 92 |
| Accumulations.SpanExact | ghcnpy/plotting.py:286-290 | A year of 1 .. 9999 has as many valid dates as its length; October to December always 92; January to September 245 plus February's length; any other year none |
| Accumulations.RangeIsDates | ghcnpy/plotting.py:286-291 | The values the month loop reads are those of the year's valid dates, in calendar order |
| Accumulations.DaysAsExtend | ghcnpy/plotting.py:287-297 | The day loop of one month runs that month's valid dates, up to day `d`, into the target row |
| Accumulations.Segment | ghcnpy/plotting.py:286-297 | Months without a reset run their valid dates on from the carry, as one stretch |
| Accumulations.PrecipitationUpTo | ghcnpy/plotting.py:283-297 | After `y` years, rows `0 .. y - 1` hold each year's running totals and totals, and the other rows are zero |
| Accumulations.PrecipitationRows | ghcnpy/plotting.py:283-297 | Row `y` of `prcp_accum` is the running total of year `y`'s daily amounts, zero-padded to 366, and `total_accum[y]` is their sum |
| Accumulations.YearValuesAreDates | ghcnpy/plotting.py:283-297 | A year's values are those of its valid dates in calendar order: 365 or 366 by the leap rule, value `k` from day `k + 1` of the year |
| Accumulations.SeasonsDoneStep | ghcnpy/plotting.py:508-525 | One year of the snowfall loop closes season row `y` (October to December before it, then January to September) and opens row `y + 1` with October to December |
| Accumulations.SnowfallUpTo | ghcnpy/plotting.py:505-525 | After `y` years, the closed season rows hold their running totals with the December fix, the open row holds October to December, and the later rows are zero |
| Accumulations.SnowfallRows | ghcnpy/plotting.py:505-525 | Row `r` of `snow_accum`, for `1 <= r < num_years`, is the running total of October to December of year `r - 1` followed by January to September of year `r`, with the December fix; `total_accum[r]` is their sum |
| Accumulations.SnowfallEdges | ghcnpy/plotting.py:505-525 | Row 0 stays zero, because the first year's January to September find `day_of_year` past the row; the last row holds only the last year's October to December |
| Accumulations.SnowfallIgnoresCarry | ghcnpy/plotting.py:505-513 | The snowfall tables do not depend on the carry the average loop leaves |
| Accumulations.SeasonsDoneTables | ghcnpy/plotting.py:505-525 | Two loop states that both hold the first `y` seasons have the same tables |
| Accumulations.SeasonLength | ghcnpy/plotting.py:505-525 | A season of years 1 .. 9999 has 92 days of autumn, and October to September has as many days as the later year |
| AccumulationLoops.FixedRowCompletes | ghcnpy/plotting.py:524-525 | On a row of 365 running sums the repair writes the total into the zero slot 365 and leaves slots 0 .. 364 |
| AccumulationLoops.CommonSeasonRepaired | ghcnpy/plotting.py:505-525 | A snow season without February 29 ends, in both slot 364 and slot 365 of its repaired row, with the season's total |
| Accumulations.PartLengths | ghcnpy/plotting.py:509-523 | October to December has 92 valid dates in every year, and January to September 245 plus February's length |
| Accumulations.Accumulate | ghcnpy/plotting.py:281-297 | The accumulation has one row per year for precipitation and one more for snowfall |
| AccumulationLoops.WriteDay | ghcnpy/plotting.py:288-297 | One valid date writes `day_before` plus the value into the row slot and the row total and advances the day; past the row's end it changes nothing |
| AccumulationLoops.WriteMonth | ghcnpy/plotting.py:287-297 | The day loop of a month leaves the tables, `day_of_year` and `day_before` the month's specification function gives |
| AccumulationLoops.RepairDecember | ghcnpy/plotting.py:524-525 | After December, a zero slot 365 of row `year_counter` gets slot 364 |
| AccumulationLoops.PrecipitationAccumulation | ghcnpy/plotting.py:281-297 | The nested loops leave `prcp_accum` and `total_accum` holding the accumulation function's tables |
| AccumulationLoops.SnowfallAccumulation | ghcnpy/plotting.py:505-525 | The nested loops, with the October switch to `year_counter + 1` and the December fix, leave `snow_accum` and `total_accum` holding the accumulation function's tables |
| TemperatureStats.FahrenheitMonotone | ghcnpy/plotting.py:75 | `x * 1.8 + 32` is strictly increasing and one-to-one |
| TemperatureStats.ColumnIsConverted | ghcnpy/plotting.py:74-75 | A calendar day's column after masking and conversion is the converted masked Celsius column |
| TemperatureStats.MaxMasked | ghcnpy/plotting.py:84 | `ma.max` is masked exactly when every entry is, and otherwise is an unmasked entry at least as large as every unmasked entry |
| TemperatureStats.MinMasked | ghcnpy/plotting.py:85 | `ma.min` is masked exactly when every entry is, and otherwise is an unmasked entry no larger than any unmasked entry |
| TemperatureStats.MaxCommutes | ghcnpy/plotting.py:74-84 | The maximum of the converted values is the converted maximum |
| TemperatureStats.MinCommutes | ghcnpy/plotting.py:74-85 | The minimum of the converted values is the converted minimum |
| TemperatureStats.MeanMasked | ghcnpy/plotting.py:86-89 | `ma.average` is masked exactly when no entry is unmasked |
| TemperatureStats.MeanCommutes | ghcnpy/plotting.py:74-89 | The mean of the converted values is the converted mean |
| TemperatureStats.Window | ghcnpy/plotting.py:87 | The window slice is no longer than the column |
| TemperatureStats.WindowYears | ghcnpy/plotting.py:86-89 | The window holds the column's entries for 1980 to 2009 that the grid has, in order: 30 of them once the grid reaches 2009 |
| TemperatureStats.RecordMaxIsConverted | ghcnpy/plotting.py:84 | The record maximum is the Fahrenheit value of the highest unmasked Celsius TMAX of that day over all years, masked exactly when every year's value is missing |
| TemperatureStats.RecordMinIsConverted | ghcnpy/plotting.py:85 | The record minimum is the Fahrenheit value of the lowest unmasked Celsius TMIN of that day over all years, masked exactly when every year's value is missing |
| TemperatureStats.AverageIsConverted | ghcnpy/plotting.py:86-89 | The average is the Fahrenheit value of the mean unmasked Celsius value over the window |
| TemperatureStats.FillTables | ghcnpy/plotting.py:78-89 | The month and day loops fill entry `(m, d)` of all four tables with that day's statistics |
| TemperatureStats.DailyStatistics | ghcnpy/plotting.py:74-89 | Entry `(m, d)` of the record tables is the record maximum and minimum of that calendar day, and of the average tables the window averages |
| TemperatureWalk.Start | ghcnpy/plotting.py:100-111 | The series have `num_days` slots and `month_pos` has `num_months`, with both counters at 0 |
| TemperatureWalk.DayWritten | ghcnpy/plotting.py:123-134 | A valid date of a grid year with room left in the series fills slot `day_index` with the calendar day's four statistics and that year's raw TMAX and TMIN, and advances `day_index`; a date `datetime` refuses changes nothing |
| TemperatureWalk.DayStep | ghcnpy/plotting.py:123-134 | One day changes no month position and advances `day_index` by at most one, and only while it is inside the series |
| TemperatureWalk.WalkDays | ghcnpy/plotting.py:122-134 | The day loop never moves `day_index` back or past the series |
| TemperatureWalk.MonthStep | ghcnpy/plotting.py:119-135 | A month succeeds exactly when `month_index` is inside `month_pos` (otherwise IndexError), and moves `month_index` on by one |
| TemperatureWalk.WalkMonths | ghcnpy/plotting.py:119-135 | The month loop fails only with IndexError, and never moves `day_index` back or past the series |
| TemperatureWalk.WalkYears | ghcnpy/plotting.py:112-135 | The year loop fails only with IndexError, and never moves `day_index` back or past the series (which date fills which slot is `TemperatureVisits.WalkContents`) |
| TemperatureWalk.ToInt | ghcnpy/plotting.py:93 | `int()` of a date field fails only with ValueError |
| TemperatureWalk.ParseDates | ghcnpy/plotting.py:93-94 | The six casts of `YYYYMMDD` fail only with ValueError |
| TemperatureWalk.Counts | ghcnpy/plotting.py:96-107 | `num_days` and `num_months` exist only for two valid dates: the day difference plus one, and the month difference plus one |
| TemperatureWalk.MonthsFit | ghcnpy/plotting.py:119-135 | A run of months succeeds exactly when `month_pos` has room for all of them, and then advances `month_index` by their number |
| TemperatureWalk.YearsFit | ghcnpy/plotting.py:112-135 | The year loop succeeds exactly when `month_pos` has room for every month it visits, and then advances `month_index` by that number |
| TemperatureWalk.YearsOrdered | ghcnpy/plotting.py:96 | A later year starts after every day of an earlier one |
| TemperatureWalk.SpanOrdered | ghcnpy/plotting.py:96-98 | A non-empty span of valid dates starts no later than it ends, by year and within one year by month |
| TemperatureWalk.WalkOutcome | ghcnpy/plotting.py:110-135 | With `num_months` as the routine computes it, the walk succeeds exactly when the span crosses a year or ends in December, and then fills every month position |
| TemperatureWalk.WindowOutcome | ghcnpy/plotting.py:93-135 | For a non-empty span of valid dates, the walk fails, with IndexError, exactly when it starts and ends in one year that it does not finish in December; otherwise every one of `num_months` month positions is written |
| TemperatureWalk.OneMonthCrashes | ghcnpy/plotting.py:112-120 | A span inside one month before December raises IndexError |
| TemperatureVisits.StartFilled | ghcnpy/plotting.py:99-111 | Freshly allocated series, with `day_index` at 0, hold no date yet: every slot is blank |
| TemperatureVisits.RoomFilled | ghcnpy/plotting.py:123-132 | A valid date of a grid year, with room left in the series, goes into slot `day_index`, which moves on; the other slots keep what they held |
| TemperatureVisits.DayFills | ghcnpy/plotting.py:122-134 | One day of a grid year adds its date to the dates the series hold exactly when `datetime` accepts it; once the series are full, a further date changes no slot |
| TemperatureVisits.DaysFill | ghcnpy/plotting.py:122-134 | The day loop adds the accepted dates of its days, in order |
| TemperatureVisits.MonthFills | ghcnpy/plotting.py:119-135 | A month that does not raise adds the accepted dates of its days `begin_dd .. end_dd`; writing `month_pos` touches no slot |
| TemperatureVisits.MonthsFill | ghcnpy/plotting.py:119-135 | The month loop, when it does not raise, adds the accepted dates of its months, month after month |
| TemperatureVisits.YearFills | ghcnpy/plotting.py:113-135 | A year of the grid that does not raise adds the accepted dates of its months `start_month .. end_month` |
| TemperatureVisits.YearsFill | ghcnpy/plotting.py:112-135 | The year loop over grid years, when it does not raise, adds the accepted dates of every year in turn |
| TemperatureVisits.DaysMembers | ghcnpy/plotting.py:122-126 | A date is among a day loop's dates exactly when it has the loop's year and month, a day in its range and `datetime` accepts it |
| TemperatureVisits.MonthsMembers | ghcnpy/plotting.py:119-126 | A date is among a month loop's dates exactly when it has the loop's year, a month in its range, a day in `begin_dd .. end_dd` and `datetime` accepts it |
| TemperatureVisits.YearsMembers | ghcnpy/plotting.py:112-126 | A date is among the year loop's dates exactly when its year is in range, its month in that year's `start_month .. end_month`, its day in `begin_dd .. end_dd`, and `datetime` accepts it |
| TemperatureVisits.VisitedExactly | ghcnpy/plotting.py:112-126 | A date is visited exactly when `datetime` accepts it, its year is in `begin_yy .. end_yy`, its month in that year's `start_month .. end_month` and its day in `begin_dd .. end_dd` |
| TemperatureVisits.NoFirstDays | ghcnpy/plotting.py:122 | With `begin_dd` past 1, no visited date is the first day of a month |
| TemperatureVisits.NothingVisited | ghcnpy/plotting.py:122 | With `begin_dd` past `end_dd`, no date is visited |
| TemperatureVisits.DaysAscending | ghcnpy/plotting.py:122 | A day loop's dates are in strictly increasing date order |
| TemperatureVisits.MonthsAscending | ghcnpy/plotting.py:119-122 | A month loop's dates are in strictly increasing date order |
| TemperatureVisits.YearsAscending | ghcnpy/plotting.py:112-122 | The year loop's dates are in strictly increasing date order |
| TemperatureVisits.VisitedAscending | ghcnpy/plotting.py:112-126 | The walk visits dates in strictly increasing date order, so never one twice |
| TemperatureVisits.OrdinalEarlier | ghcnpy/plotting.py:95 | An earlier date has a smaller ordinal |
| TemperatureVisits.AscendingWithin | ghcnpy/plotting.py:95 | Dates in strictly increasing order whose ordinals lie in `lo .. hi` are at most `hi - lo + 1`, the last one's ordinal at least `lo` plus their number less one |
| TemperatureVisits.VisitedInSpan | ghcnpy/plotting.py:95-126 | Unless the span stays in one year that does not end in December, every visited date lies between the begin and the end date |
| TemperatureVisits.VisitedFit | ghcnpy/plotting.py:95-126 | Unless the span stays in one year that does not end in December, the walk visits at most `num_days` dates |
| TemperatureVisits.OneYearEndsInDecember | ghcnpy/plotting.py:112-120 | A walk that does not raise and begins and ends in one year ends in December |
| TemperatureVisits.WalkContents | ghcnpy/plotting.py:95-135 | On a walk that does not raise, over years that are all grid rows, `day_index` ends at the number of visited dates, at most `num_days`; slot `k` below it holds the statistics and raw values of the `k`-th visited date, and every later slot is still blank |
| TemperatureLoops.WalkDay | ghcnpy/plotting.py:122-134 | The `try` body on the arrays leaves the series and `day_index` of the one-day function |
| TemperatureLoops.WalkMonth | ghcnpy/plotting.py:119-135 | One month on the arrays fails exactly when the month function does, with IndexError, and otherwise leaves its series, `month_pos` and counters |
| TemperatureLoops.WalkMonthsOf | ghcnpy/plotting.py:119-135 | The month loop on the arrays fails exactly when the months function does, and otherwise leaves its series, `month_pos` and counters |
| TemperatureLoops.GatherWindow | ghcnpy/plotting.py:100-135 | The year loop on new arrays fails exactly when the walk function does, with IndexError, and otherwise leaves its series and `month_pos` |
| Plotting.NumYears | ghcnpy/plotting.py:206-207 | `num_years` is the number of years from 1895 to the current year; a current year before 1894 makes a negative dimension (ValueError) |
| Plotting.TemperatureReader | ghcnpy/plotting.py:50-71 | The temperature reader is valid and has two elements |
| Plotting.PrecipitationReader | ghcnpy/plotting.py:228-254 | The precipitation reader is valid and has one element |
| Plotting.SnowfallReader | ghcnpy/plotting.py:447-474 | The snowfall reader is valid and has one element |
| Plotting.ReadersDecode | ghcnpy/plotting.py:58-70 | The temperature loop keeps TMAX and TMIN as elements 0 and 1 in tenths, the precipitation loop PRCP in tenths, the snowfall loop SNOW unscaled; all accept only a flag that is exactly a space, unlike the strip test |
| Plotting.LastDayOfYear | ghcnpy/plotting.py:257 | `tm_yday` of the last kept line's year and month and the last accepted day: NameError when no line bound them, ValueError when they make no date, otherwise a day of that year |
| Plotting.LastDayShift | ghcnpy/plotting.py:477-480 | For a `tm_yday` in 1 .. 366 the shifted day lies in 0 .. 364, and before day 273 it is 92 days later |
| Plotting.SeasonDay | ghcnpy/plotting.py:477-480 | A date's position in its snow season is at least 1 |
| Plotting.ShiftIsSeasonDay | ghcnpy/plotting.py:477-480 | The shifted day is the date's position in its snow season, one more from October on in a leap year, modulo 365 |
| Plotting.ShiftCommonYear | ghcnpy/plotting.py:477-480 | In a common year the shift gives the date's season position, except on September 30 |
| Plotting.ShiftSeptember30 | ghcnpy/plotting.py:477-480 | In a common year September 30 is day 365 of its season, and the shift turns it into 0 |
| Plotting.Inches | ghcnpy/plotting.py:260 | Every grid cell is multiplied by 0.0393701 |
| Plotting.InchesKeepOrder | ghcnpy/plotting.py:260 | The conversion keeps zeros at zero and keeps the order of values |
| Plotting.ToInches | ghcnpy/plotting.py:483 | The conversion on arrays gives the converted grid |
| Plotting.PrecipitationPlot | ghcnpy/plotting.py:228-297 | `plot_precipitation` fails exactly when its line loop raises or its last day fails, with that exception; otherwise it carries the name, the last day in 1 .. 366, the 366-slot running mean curve over 2012's dates, and a row and a total per year |
| Plotting.PrecipitationPlotRow | ghcnpy/plotting.py:281-297 | Row `y` of the plot is the running total of year `y`'s amounts in inches, and its total their sum |
| Plotting.SnowfallCurveEnd | ghcnpy/plotting.py:486-501 | The average loop leaves `day_of_year` at 366 |
| Plotting.SnowfallCarryUnused | ghcnpy/plotting.py:499-525 | The snowfall tables are the same whatever `day_before` the average loop leaves |
| Plotting.SnowfallPlot | ghcnpy/plotting.py:447-501 | `plot_snowfall` fails exactly when its line loop raises or its last day fails; otherwise it carries the name, the shifted last day in 0 .. 364, and the 366-slot running mean curve along the snow month list |
| Plotting.SnowfallPlotEdges | ghcnpy/plotting.py:505-525 | The plot has `num_years + 1` rows; row 0 and its total are zero, and the last row is the running total of the last year's October to December |
| Plotting.SnowfallPlotRow | ghcnpy/plotting.py:505-525 | Row `r` of the plot is the running total, with the December fix, of October to December of year `r - 1` and January to September of year `r`, in inches; its total is their sum |
| Plotting.PrecipitationFrom | ghcnpy/plotting.py:228-297 | The precipitation routine on arrays gives the precipitation plot function's result |
| Plotting.SnowfallFrom | ghcnpy/plotting.py:447-525 | The snowfall routine on arrays gives the snowfall plot function's result |
| Plotting.TemperaturePlotOutcome | ghcnpy/plotting.py:93-135 | For a non-empty span of valid dates, the temperature routine fails, with IndexError, exactly when the span starts and ends in one year not ending in December; otherwise its series have `num_days` slots and `month_pos` has `num_months` entries (what fills the slots is `Plotting.TemperatureSeries`) |
| Plotting.StatTablesAt | ghcnpy/plotting.py:82-89 | Entry `(m, d)` of the tables is that day's record maximum and minimum and its two window averages |
| Plotting.StatisticsTables | ghcnpy/plotting.py:74-89 | The table loops on the grid array give the statistics tables of the grid |
| Plotting.TemperatureSeries | ghcnpy/plotting.py:73-135 | When the temperature routine does not raise and the requested years are grid rows, slot `k` of the six series shows the `k`-th visited date: its calendar day's record maximum and minimum, its two window averages, and that year's raw TMAX and TMIN; the slots after the visited dates stay at `-9999.0` |
| Plotting.TemperatureFrom | ghcnpy/plotting.py:50-135 | The temperature routine on arrays gives the temperature plot function's result |
| Plotting.RoutinesLookUpFirst | ghcnpy/plotting.py:29-42 | All three routines raise IndexError for a station not in the table and ValueError for a negative year count, before reading any line; a plot that is made carries a name without spaces |
| Plotting.PlotTemperature | ghcnpy/plotting.py:21-135 | `plot_temperature` up to the drawing gives the function's result |
| Plotting.PlotPrecipitation | ghcnpy/plotting.py:197-297 | `plot_precipitation` up to the drawing gives the function's result |
| Plotting.PlotSnowfall | ghcnpy/plotting.py:416-525 | `plot_snowfall` up to the drawing gives the function's result |

## Left out

- Network and disk I/O: `get_ghcnd_version`, `get_data_station`, `get_data_year`, `get_ghcnd_inventory`, the download inside `get_ghcnd_stations` and `get_stations_in_datastructure`, and every `open`, `readlines` and `write`. The lines of a file and the station table are parameters, and the CSV is a returned value.
- Drawing: all matplotlib, pylab and Basemap code (`ghcnpy/plotting.py:137-190`, `299-394`, `527-627`), including `argsort` colour ordering, `np.nanargmin`, axis limits, legends and `savefig`. It only renders.
- The `month_names` labels of `plot_temperature` (`ghcnpy/plotting.py:108`, `121`): they feed only the drawing.
- The `print` calls: console output only.
- float32 storage: values are exact reals, so float32 rounding is not modelled.
- `float()` of a slot's value text is modelled as `int()`. `.dly` values are integers.
- `datetime.now()`: the current year is the parameter `endYear`.
- numpy masked-array internals: a fully masked `ma.max`, `ma.min` or `ma.average` is `None`. What numpy stores when the masked constant is written into a float array is not modelled.
- `ghcnpy/__init__.py`: it only re-exports the two modules and prints. `metadata.py` is not part of this model.
- IoTools.OutputToCsv: the text of each row (`%04i,%02i,%02i,%7.1f,…`) is not produced. The model returns the header and the row values. Its decode of the lines (`ghcnpy/iotools.py:116-144`) and its filter loop (`ghcnpy/iotools.py:150-165`) repeat `to_datastructure`'s (`ghcnpy/iotools.py:196-250`) statement for statement, so the model writes them once and `OutputToCsv` calls `ToDataStructure`; that its rows agree with `to_datastructure`'s is therefore true by construction, not a proved property.
- Stations.GetStationsInDatastructure: latitude, longitude and elevation stay as stripped text. The `float()` conversion, and its ValueError on text that is not a number, are not modelled.
- PlotStation.StationName: the `float()` of the matched row's latitude, longitude and elevation (`ghcnpy/plotting.py:36-38`) is not modelled, so a malformed coordinate raises no ValueError in the model.
- Stations.GenFromTxt: only the fixed-width split of `np.genfromtxt` is modelled. Its comment and blank-line handling are not, and neither is its shape for a one-line file: `genfromtxt` then returns a 1-D array, so `ghcnd_stations[:, 0]` (`ghcnpy/plotting.py:34`) raises an IndexError, where the model's table still has one row and the name lookup succeeds.
- PyModel.ParseInt: underscores between digits and non-ASCII digits, which Python's `int()` also accepts, are refused.
- Plotting.Carry: a NaN `day_before` handed from the average loop to an accumulation loop is read as 0. The precipitation loop resets the carry before each year, and `Plotting.SnowfallCarryUnused` shows that the snowfall tables do not depend on it.
- The Fahrenheit conversion and the millimetre-to-inch factor are exact real scalings.
