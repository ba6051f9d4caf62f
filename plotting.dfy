/** The three routines of `ghcnpy/plotting.py`, `plot_temperature`,
    `plot_precipitation` and `plot_snowfall`, from the station lookup up to
    the point where drawing begins. Each routine looks up the station's
    name, fills its own grid from the station's `.dly` lines, and computes
    the series the figure shows: the calendar-day tables and the
    requested date span for temperature; the last day with data, the
    average cumulative curve and the per-year (or per-season) running
    totals for precipitation and snowfall. The table of stations, the
    file's lines and the current year (`datetime.now().year`) come in as
    parameters. */
module Plotting {
  import opened PyModel
  import opened Calendar
  import opened DlyRecord
  import opened DailyGrid
  import DayWalk
  import Averages
  import Accumulations
  import AccumulationLoops
  import TemperatureStats
  import TemperatureWalk
  import TemperatureLoops
  import TemperatureVisits
  import PlotStation

  /** `begin_year`: grid row 0 of all three routines. */
  const BeginYear := 1895

  /** `* 0.0393701`: millimetres to inches. */
  const InchesPerMillimetre: real := 0.0393701

  /** `num_years = (end_year - begin_year) + 1`, or the ValueError that
      `np.zeros` raises for a negative dimension. */
  function NumYears(endYear: int): (r: Result<nat>)
    ensures r.Ok? <==> endYear + 1 >= BeginYear
    ensures r.Ok? ==> BeginYear + r.value == endYear + 1
    ensures r.Err? ==> r.failure == ValueError
  {
    if endYear - BeginYear + 1 < 0 then Err(ValueError) else Ok(endYear - BeginYear + 1)
  }

  /** A grid of `n` cells, all `v`. */
  function Fill(n: nat, v: real): (r: seq<real>)
    ensures |r| == n && forall i :: 0 <= i < n ==> r[i] == v
  {
    seq(n, _ => v)
  }

  /** The temperature reader: TMAX and TMIN into elements 0 and 1, a slot
      kept only when its quality flag is exactly a space. */
  function TemperatureReader(years: nat): (rd: Reader)
    ensures ValidReader(rd) && rd.years == years && rd.ne == TemperatureStats.ElementCount
  {
    Reader(TemperatureElements, ExactlySpace, BeginYear, years, TemperatureStats.ElementCount)
  }

  /** The precipitation reader: PRCP alone, in tenths of a millimetre. */
  function PrecipitationReader(years: nat): (rd: Reader)
    ensures ValidReader(rd) && rd.years == years && rd.ne == 1
  {
    Reader(PrecipitationElements, ExactlySpace, BeginYear, years, 1)
  }

  /** The snowfall reader: SNOW alone, in millimetres. */
  function SnowfallReader(years: nat): (rd: Reader)
    ensures ValidReader(rd) && rd.years == years && rd.ne == 1
  {
    Reader(SnowfallElements, ExactlySpace, BeginYear, years, 1)
  }

  /** Each routine's decode loop keeps only its own element codes, TMAX and
      TMIN in tenths of a degree, PRCP in tenths of a millimetre and SNOW
      in millimetres, and accepts a slot only when its quality flag is
      exactly one space: a flag that merely strips to nothing does not do. */
  lemma ReadersDecode(years: nat, code: string, flag: string)
    ensures code in TemperatureReader(years).table <==> code == "TMAX" || code == "TMIN"
    ensures code in TemperatureReader(years).table ==>
      TemperatureReader(years).table[code]
      == Element(if code == "TMAX" then TemperatureStats.TMax else TemperatureStats.TMin, 10.0)
    ensures code in PrecipitationReader(years).table <==> code == "PRCP"
    ensures code in PrecipitationReader(years).table ==> PrecipitationReader(years).table[code] == Element(0, 10.0)
    ensures code in SnowfallReader(years).table <==> code == "SNOW"
    ensures code in SnowfallReader(years).table ==> SnowfallReader(years).table[code] == Element(0, 1.0)
    ensures FlagBlank(flag, TemperatureReader(years).rule) <==> flag == " "
    ensures FlagBlank(flag, PrecipitationReader(years).rule) <==> flag == " "
    ensures FlagBlank(flag, SnowfallReader(years).rule) <==> flag == " "
    ensures FlagBlank("\t", StripsToBlank) && !FlagBlank("\t", SnowfallReader(years).rule)
  {
    StripSpec("\t");
  }

  // ---------------------------------------------------------------------
  // The last day with data

  /** `datetime(year, month, last_day).timetuple().tm_yday`, with `year` and
      `month` of the last line read and `last_day` of the last accepted
      slot of any line: a NameError when the loop never bound them, a
      ValueError when they make no date. */
  function LastDayOfYear(s: Scan): (r: Result<nat>)
    ensures r.Ok? <==> s.last.Some? && s.lastDay.Some? && IsValidDate(s.last.value.0, s.last.value.1, s.lastDay.value)
    ensures r.Err? ==> r.failure == (if s.last.None? || s.lastDay.None? then NameError else ValueError)
    ensures r.Ok? ==> 1 <= r.value <= YearLength(s.last.value.0)
    ensures r.Ok? && s.last.value.1 == 1 ==> r.value == s.lastDay.value
  {
    if s.last.None? || s.lastDay.None? then Err(NameError)
    else if IsValidDate(s.last.value.0, s.last.value.1, s.lastDay.value) then
      Ok(DayOfYear(s.last.value.0, s.last.value.1, s.lastDay.value))
    else Err(ValueError)
  }

  /** The snowfall routine's "shift three months": 92 days on, less 365
      from 365 on. */
  function LastDayShift(t: int): (s: int)
    ensures 1 <= t <= 366 ==> 0 <= s <= 364
    ensures t < 273 ==> s == t + 92
  {
    if t + 92 >= 365 then t + 92 - 365 else t + 92
  }

  /** The position, from 1, of a date in its snow season: October 1 is 1,
      and a January date comes after the 92 days of October to December. */
  function SeasonDay(y: int, m: int, d: int): (n: int)
    requires IsValidDate(y, m, d)
    ensures 1 <= n
  {
    if m >= 10 then
      DaysBeforeMonthMonotone(y, 10, m);
      DayOfYear(y, m, d) - DaysBeforeMonth(y, 10)
    else 92 + DayOfYear(y, m, d)
  }

  /** October to December is 92 days in every year; the months before
      October are 273 days, or 274 in a leap year. */
  lemma AutumnStart(y: int)
    ensures DaysBeforeMonth(y, 10) == (if IsLeap(y) then 274 else 273)
  {
    var feb := DaysInMonth(y, 2);
    assert DaysBeforeMonth(y, 3) == 31 + feb;
    assert DaysBeforeMonth(y, 4) == 62 + feb;
    assert DaysBeforeMonth(y, 5) == 92 + feb;
    assert DaysBeforeMonth(y, 6) == 123 + feb;
    assert DaysBeforeMonth(y, 7) == 153 + feb;
    assert DaysBeforeMonth(y, 8) == 184 + feb;
    assert DaysBeforeMonth(y, 9) == 215 + feb;
    assert DaysBeforeMonth(y, 10) == 245 + feb;
  }

  /** What the shift computes: the season position of the date, modulo
      365, and one day late from October on in a leap year (the shift
      counts 273 days to the end of September in every year). So the shift
      is the season position on every date of a common year except
      September 30, where it gives 0 for 365, and every date of a leap year
      from September 29 on is off. */
  lemma ShiftIsSeasonDay(y: int, m: int, d: int)
    requires IsValidDate(y, m, d)
    ensures LastDayShift(DayOfYear(y, m, d)) == (SeasonDay(y, m, d) + (if IsLeap(y) && m >= 10 then 1 else 0)) % 365
  {
    AutumnStart(y);
    if m < 10 {
      DaysBeforeMonthMonotone(y, m + 1, 10);
    } else {
      DaysBeforeMonthMonotone(y, 10, m);
    }
  }

  /** In a common year the shifted last day is the season position of the
      date, except on September 30. */
  lemma ShiftCommonYear(y: int, m: int, d: int)
    requires IsValidDate(y, m, d) && !IsLeap(y) && !(m == 9 && d == 30)
    ensures LastDayShift(DayOfYear(y, m, d)) == SeasonDay(y, m, d)
  {
    ShiftIsSeasonDay(y, m, d);
    AutumnStart(y);
    if m < 9 {
      DaysBeforeMonthMonotone(y, m + 1, 9);
    }
  }

  /** The last day of a season, September 30, shifts to 0. */
  lemma ShiftSeptember30(y: int)
    requires MinYear <= y <= MaxYear && !IsLeap(y)
    ensures IsValidDate(y, 9, 30) && SeasonDay(y, 9, 30) == 365
    ensures LastDayShift(DayOfYear(y, 9, 30)) == 0
  {
    AutumnStart(y);
    ShiftIsSeasonDay(y, 9, 30);
  }

  // ---------------------------------------------------------------------
  // Units

  /** `ghcnd_value * 0.0393701`. */
  function Inches(g: seq<real>): (r: seq<real>)
    ensures |r| == |g|
    ensures forall i :: 0 <= i < |g| ==> r[i] == g[i] * InchesPerMillimetre
  {
    seq(|g|, i requires 0 <= i < |g| => g[i] * InchesPerMillimetre)
  }

  /** The conversion keeps zero cells zero and keeps the order of cells,
      so a zero-initialised grid of non-negative amounts stays one. */
  lemma InchesKeepOrder(g: seq<real>, i: nat, j: nat)
    requires i < |g| && j < |g|
    ensures g[i] == 0.0 ==> Inches(g)[i] == 0.0
    ensures g[i] <= g[j] <==> Inches(g)[i] <= Inches(g)[j]
  {
  }

  /** The numpy product, as a new array. */
  method ToInches(grid: array<real>) returns (value: array<real>)
    ensures fresh(value) && value[..] == Inches(grid[..])
  {
    value := new real[grid.Length];
    for i := 0 to grid.Length
      invariant forall j :: 0 <= j < i ==> value[j] == grid[j] * InchesPerMillimetre
    {
      value[i] := grid[i] * InchesPerMillimetre;
    }
  }

  // ---------------------------------------------------------------------
  // Precipitation and snowfall

  /** What the precipitation and snowfall figures are drawn from: the
      station's name, `last_day`, the average curve and the two tables. */
  datatype AccumulationPlot = AccumulationPlot(name: string, lastDay: int, average: seq<Option<real>>,
                                               rows: seq<seq<real>>, totals: seq<real>)

  /** `day_before` as the accumulation loop takes it over from the average
      loop. A NaN carry is read as 0: the precipitation loop resets the
      carry before each year, and the snowfall loop cannot write before
      its first reset (`SnowfallCarryUnused`). */
  function Carry(b: Option<real>): real {
    if b.Some? then b.value else 0.0
  }

  /** The average loop over `months` on grid `v`, with the window
      `valid_begin - begin_year .. valid_end - begin_year`. */
  function AverageOf(v: seq<real>, years: nat, s: Scan, months: seq<int>): Averages.Curve
    requires |v| == GridSize(years, 1)
  {
    Averages.CurveUpTo(v, years, s.validBegin - BeginYear, s.validEnd - BeginYear, months, 31 * |months|)
  }

  /** The precipitation grid after the line loop: zeros, then every
      accepted PRCP slot in tenths of a millimetre. */
  function PrecipitationGrid(years: nat, fs: seq<LineFields>): (r: Result<seq<real>>)
    requires AllWellFormed(fs)
    ensures r.Ok? ==> |r.value| == GridSize(years, 1)
  {
    ApplyLines(PrecipitationReader(years), Accumulations.Pad(GridSize(years, 1)), fs, 0)
  }

  function PrecipitationScan(years: nat, fs: seq<LineFields>): Scan
    requires AllWellFormed(fs)
  {
    ScanLines(PrecipitationReader(years), NoScan, fs, 0)
  }

  /** `plot_precipitation` from the decoded lines on. */
  function PrecipitationOf(name: string, years: nat, fs: seq<LineFields>): Result<AccumulationPlot>
    requires AllWellFormed(fs)
  {
    match PrecipitationGrid(years, fs)
    case Err(f) => Err(f)
    case Ok(g) =>
      match LastDayOfYear(PrecipitationScan(years, fs))
      case Err(f) => Err(f)
      case Ok(t) => Ok(PrecipitationFigure(name, g, years, PrecipitationScan(years, fs), t))
  }

  /** What `plot_precipitation` computes once the grid and `last_day` are
      known: the conversion to inches, the average loop and the
      accumulation loop. */
  function PrecipitationFigure(name: string, g: seq<real>, years: nat, s: Scan, t: int): AccumulationPlot
    requires |g| == GridSize(years, 1)
  {
    var v := Inches(g);
    var c := AverageOf(v, years, s, DayWalk.CalendarMonths);
    var a := Accumulations.Accumulate(Accumulations.Precipitation, v, years, c.doy, Carry(c.before));
    AccumulationPlot(name, t, c.slots, a.rows, a.totals)
  }

  /** The precipitation routine fails exactly when its line loop raises,
      or when no accepted PRCP slot was read (NameError) or the last one
      makes no date (ValueError). Otherwise `last_day` is the day of the
      year of that slot; the curve has a slot per day of 2012, slot `k`
      the running sum of the window means of its first `k + 1` days; and
      each year's row is the running sum of that year's daily amounts in
      inches, with their sum as the year's total. */
  lemma PrecipitationPlot(name: string, years: nat, fs: seq<LineFields>)
    requires AllWellFormed(fs)
    ensures PrecipitationOf(name, years, fs).Ok? <==>
      PrecipitationGrid(years, fs).Ok? && LastDayOfYear(PrecipitationScan(years, fs)).Ok?
    ensures PrecipitationGrid(years, fs).Err? ==> PrecipitationOf(name, years, fs) == Err(PrecipitationGrid(years, fs).failure)
    ensures PrecipitationOf(name, years, fs).Ok? ==>
      var p := PrecipitationOf(name, years, fs).value;
      var v := Inches(PrecipitationGrid(years, fs).value);
      var s := PrecipitationScan(years, fs);
      && p.name == name && p.lastDay == LastDayOfYear(s).value
      && 1 <= p.lastDay <= 366
      && |p.average| == Averages.CurveLength
      && p.average == Averages.RunningNaN(Averages.Means(v, years, s.validBegin - BeginYear, s.validEnd - BeginYear,
                                                           DayWalk.Dates(Averages.ValidationYear, DayWalk.CalendarMonths)))
      && |p.rows| == years && |p.totals| == years
  {
    if PrecipitationOf(name, years, fs).Ok? {
      var v := Inches(PrecipitationGrid(years, fs).value);
      var s := PrecipitationScan(years, fs);
      Averages.PrecipitationCurve(v, years, s.validBegin - BeginYear, s.validEnd - BeginYear);
    }
  }

  /** Row `y` of the precipitation table. */
  lemma PrecipitationPlotRow(name: string, years: nat, fs: seq<LineFields>, y: nat)
    requires AllWellFormed(fs) && PrecipitationOf(name, years, fs).Ok? && y < years
    ensures |Accumulations.YearValues(Inches(PrecipitationGrid(years, fs).value), years, y)| <= Accumulations.Days
    ensures |PrecipitationOf(name, years, fs).value.rows| == |PrecipitationOf(name, years, fs).value.totals| == years
    ensures PrecipitationOf(name, years, fs).value.rows[y]
            == Accumulations.ExpectedRow(Accumulations.YearValues(Inches(PrecipitationGrid(years, fs).value), years, y))
    ensures PrecipitationOf(name, years, fs).value.totals[y]
            == Accumulations.Sum(Accumulations.YearValues(Inches(PrecipitationGrid(years, fs).value), years, y))
  {
    var v := Inches(PrecipitationGrid(years, fs).value);
    var c := AverageOf(v, years, PrecipitationScan(years, fs), DayWalk.CalendarMonths);
    Accumulations.PrecipitationRows(v, years, c.doy, Carry(c.before), y);
  }

  /** The snowfall grid after the line loop: zeros, then every accepted
      SNOW slot in millimetres. */
  function SnowfallGrid(years: nat, fs: seq<LineFields>): (r: Result<seq<real>>)
    requires AllWellFormed(fs)
    ensures r.Ok? ==> |r.value| == GridSize(years, 1)
  {
    ApplyLines(SnowfallReader(years), Accumulations.Pad(GridSize(years, 1)), fs, 0)
  }

  function SnowfallScan(years: nat, fs: seq<LineFields>): Scan
    requires AllWellFormed(fs)
  {
    ScanLines(SnowfallReader(years), NoScan, fs, 0)
  }

  /** `plot_snowfall` from the decoded lines on. */
  function SnowfallOf(name: string, years: nat, fs: seq<LineFields>): Result<AccumulationPlot>
    requires AllWellFormed(fs)
  {
    match SnowfallGrid(years, fs)
    case Err(f) => Err(f)
    case Ok(g) =>
      match LastDayOfYear(SnowfallScan(years, fs))
      case Err(f) => Err(f)
      case Ok(t) => Ok(SnowfallFigure(name, g, years, SnowfallScan(years, fs), t))
  }

  /** What `plot_snowfall` computes once the grid and `last_day` are
      known: the shift of `last_day`, the conversion to inches, the average
      loop and the accumulation loop. */
  function SnowfallFigure(name: string, g: seq<real>, years: nat, s: Scan, t: int): AccumulationPlot
    requires |g| == GridSize(years, 1)
  {
    var v := Inches(g);
    var c := AverageOf(v, years, s, DayWalk.SnowMonths);
    var a := Accumulations.Accumulate(Accumulations.Snowfall, v, years, c.doy, Carry(c.before));
    AccumulationPlot(name, LastDayShift(t), c.slots, a.rows, a.totals)
  }

  /** The snowfall average loop ends with `day_of_year` at 366, past the
      last slot of a row. */
  lemma SnowfallCurveEnd(v: seq<real>, years: nat, s: Scan)
    requires |v| == GridSize(years, 1)
    ensures AverageOf(v, years, s, DayWalk.SnowMonths).doy == Accumulations.Days
  {
    var lo, hi := s.validBegin - BeginYear, s.validEnd - BeginYear;
    Averages.SnowfallCurve(v, years, lo, hi);
    Averages.CurveIsRunningMeans(v, years, lo, hi, DayWalk.SnowMonths, 31 * |DayWalk.SnowMonths|);
  }

  /** The carry the snowfall accumulation takes over from the average loop
      does not matter: whatever it is, the tables come out the same. */
  lemma SnowfallCarryUnused(name: string, years: nat, fs: seq<LineFields>, b: real)
    requires AllWellFormed(fs) && SnowfallOf(name, years, fs).Ok?
    ensures var v := Inches(SnowfallGrid(years, fs).value);
      var a := Accumulations.Accumulate(Accumulations.Snowfall, v, years, Accumulations.Days, b);
      SnowfallOf(name, years, fs).value.rows == a.rows && SnowfallOf(name, years, fs).value.totals == a.totals
  {
    var v := Inches(SnowfallGrid(years, fs).value);
    var c := AverageOf(v, years, SnowfallScan(years, fs), DayWalk.SnowMonths);
    SnowfallCurveEnd(v, years, SnowfallScan(years, fs));
    Accumulations.SnowfallIgnoresCarry(v, years, Accumulations.Days, Carry(c.before), b);
  }

  /** The snowfall routine fails exactly when its line loop raises, or
      when no accepted SNOW slot was read or the last one makes no date.
      Otherwise `last_day` is the shifted day of the year, in 0 .. 364, and
      the curve has 366 slots, slot `k` the running sum of the window means
      of the first `k + 1` days of the walk over 2012 from October 1. */
  lemma SnowfallPlot(name: string, years: nat, fs: seq<LineFields>)
    requires AllWellFormed(fs)
    ensures SnowfallOf(name, years, fs).Ok? <==>
      SnowfallGrid(years, fs).Ok? && LastDayOfYear(SnowfallScan(years, fs)).Ok?
    ensures SnowfallGrid(years, fs).Err? ==> SnowfallOf(name, years, fs) == Err(SnowfallGrid(years, fs).failure)
    ensures SnowfallOf(name, years, fs).Ok? ==>
      var p := SnowfallOf(name, years, fs).value;
      var v := Inches(SnowfallGrid(years, fs).value);
      var s := SnowfallScan(years, fs);
      && p.name == name && p.lastDay == LastDayShift(LastDayOfYear(s).value)
      && 0 <= p.lastDay <= 364
      && |p.average| == Averages.CurveLength
      && p.average == Averages.RunningNaN(Averages.Means(v, years, s.validBegin - BeginYear, s.validEnd - BeginYear,
                                                           DayWalk.Dates(Averages.ValidationYear, DayWalk.SnowMonths)))
  {
    if SnowfallOf(name, years, fs).Ok? {
      var v := Inches(SnowfallGrid(years, fs).value);
      var s := SnowfallScan(years, fs);
      Averages.SnowfallCurve(v, years, s.validBegin - BeginYear, s.validEnd - BeginYear);
    }
  }

  /** The snowfall table has a row per year and one more: row 0 stays
      zero, and the last row holds only the last year's October to
      December, running, with their sum as its total. */
  lemma SnowfallPlotEdges(name: string, years: nat, fs: seq<LineFields>)
    requires AllWellFormed(fs) && SnowfallOf(name, years, fs).Ok?
    ensures |SnowfallOf(name, years, fs).value.rows| == years + 1
    ensures |SnowfallOf(name, years, fs).value.totals| == years + 1
    ensures SnowfallOf(name, years, fs).value.rows[0] == Accumulations.Zeros()
    ensures SnowfallOf(name, years, fs).value.totals[0] == 0.0
    ensures years >= 1 ==>
      SnowfallOf(name, years, fs).value.rows[years]
      == Accumulations.ExpectedRow(Accumulations.Autumn(Inches(SnowfallGrid(years, fs).value), years, years - 1))
    ensures years >= 1 ==>
      SnowfallOf(name, years, fs).value.totals[years]
      == Accumulations.Sum(Accumulations.Autumn(Inches(SnowfallGrid(years, fs).value), years, years - 1))
  {
    var v := Inches(SnowfallGrid(years, fs).value);
    var s := SnowfallScan(years, fs);
    var c := AverageOf(v, years, s, DayWalk.SnowMonths);
    SnowfallCurveEnd(v, years, s);
    Accumulations.SnowfallEdges(v, years, c.doy, Carry(c.before));
  }

  /** Season row `r` (1 .. years - 1) of the snowfall table: October to
      December of year `r - 1` and January to September of year `r`,
      running, repaired after December, with their sum as its total. */
  lemma SnowfallPlotRow(name: string, years: nat, fs: seq<LineFields>, r: nat)
    requires AllWellFormed(fs) && SnowfallOf(name, years, fs).Ok? && 1 <= r < years
    ensures |Accumulations.SeasonValues(Inches(SnowfallGrid(years, fs).value), years, r)| <= Accumulations.Days
    ensures |SnowfallOf(name, years, fs).value.rows| == |SnowfallOf(name, years, fs).value.totals| == years + 1
    ensures SnowfallOf(name, years, fs).value.rows[r]
            == Accumulations.FixedRow(Accumulations.ExpectedRow(Accumulations.SeasonValues(Inches(SnowfallGrid(years, fs).value), years, r)))
    ensures SnowfallOf(name, years, fs).value.totals[r]
            == Accumulations.Sum(Accumulations.SeasonValues(Inches(SnowfallGrid(years, fs).value), years, r))
  {
    var v := Inches(SnowfallGrid(years, fs).value);
    var s := SnowfallScan(years, fs);
    var c := AverageOf(v, years, s, DayWalk.SnowMonths);
    SnowfallCurveEnd(v, years, s);
    Accumulations.SnowfallRows(v, years, c.doy, Carry(c.before), r);
  }

  /** The precipitation routine on the decoded lines: the line loop into a
      zero grid, `last_day`, the conversion, the average loop and the
      accumulation loop. */
  method PrecipitationFrom(name: string, years: nat, fs: seq<LineFields>) returns (r: Result<AccumulationPlot>)
    requires AllWellFormed(fs)
    ensures r == PrecipitationOf(name, years, fs)
  {
    var rd := PrecipitationReader(years);
    var grid := new real[GridSize(years, 1)](_ => 0.0);
    assert grid[..] == Accumulations.Pad(GridSize(years, 1));
    var scan := ReadLines(rd, fs, grid);
    if scan.Err? {
      return Err(scan.failure);
    }
    var last := LastDayOfYear(scan.value);
    if last.Err? {
      return Err(last.failure);
    }
    var p := PrecipitationFigureFrom(name, grid, years, scan.value, last.value);
    r := Ok(p);
  }

  /** The conversion, average and accumulation loops of `plot_precipitation`. */
  method PrecipitationFigureFrom(name: string, grid: array<real>, years: nat, s: Scan, t: int) returns (p: AccumulationPlot)
    requires grid.Length == GridSize(years, 1)
    ensures p == PrecipitationFigure(name, grid[..], years, s, t)
  {
    var value := ToInches(grid);
    var average, doy, before :=
      Averages.AverageCurve(value, years, s.validBegin - BeginYear, s.validEnd - BeginYear, DayWalk.CalendarMonths);
    var accum, total := AccumulationLoops.PrecipitationAccumulation(value, years, doy, Carry(before));
    var rows := TableOf(accum);
    HoldsTables(accum, total, Accumulations.Accumulate(Accumulations.Precipitation, value[..], years, doy, Carry(before)));
    p := AccumulationPlot(name, t, average[..], rows, total[..]);
  }

  /** The snowfall routine on the decoded lines. */
  method SnowfallFrom(name: string, years: nat, fs: seq<LineFields>) returns (r: Result<AccumulationPlot>)
    requires AllWellFormed(fs)
    ensures r == SnowfallOf(name, years, fs)
  {
    var rd := SnowfallReader(years);
    var grid := new real[GridSize(years, 1)](_ => 0.0);
    assert grid[..] == Accumulations.Pad(GridSize(years, 1));
    var scan := ReadLines(rd, fs, grid);
    if scan.Err? {
      return Err(scan.failure);
    }
    var last := LastDayOfYear(scan.value);
    if last.Err? {
      return Err(last.failure);
    }
    var p := SnowfallFigureFrom(name, grid, years, scan.value, last.value);
    r := Ok(p);
  }

  /** The shift of `last_day` and the conversion, average and accumulation
      loops of `plot_snowfall`. */
  method SnowfallFigureFrom(name: string, grid: array<real>, years: nat, s: Scan, t: int) returns (p: AccumulationPlot)
    requires grid.Length == GridSize(years, 1)
    ensures p == SnowfallFigure(name, grid[..], years, s, t)
  {
    var lastDay := LastDayShift(t);
    var value := ToInches(grid);
    var average, doy, before :=
      Averages.AverageCurve(value, years, s.validBegin - BeginYear, s.validEnd - BeginYear, DayWalk.SnowMonths);
    var accum, total := AccumulationLoops.SnowfallAccumulation(value, years, doy, Carry(before));
    var rows := TableOf(accum);
    HoldsTables(accum, total, Accumulations.Accumulate(Accumulations.Snowfall, value[..], years, doy, Carry(before)));
    p := AccumulationPlot(name, lastDay, average[..], rows, total[..]);
  }

  /** The rows of a two-dimensional array. */
  function TableOf(a: array2<real>): (t: seq<seq<real>>)
    reads a
    ensures |t| == a.Length0
    ensures forall i, j :: 0 <= i < a.Length0 && 0 <= j < a.Length1 ==> |t[i]| == a.Length1 && t[i][j] == a[i, j]
  {
    seq(a.Length0, i requires 0 <= i < a.Length0 reads a => seq(a.Length1, j requires 0 <= j < a.Length1 reads a => a[i, j]))
  }

  /** Arrays that hold an accumulation state hold its rows and totals. */
  lemma HoldsTables(accum: array2<real>, total: array<real>, a: Accumulations.Acc)
    requires AccumulationLoops.Holds(accum, total, a)
    ensures TableOf(accum) == a.rows && total[..] == a.totals
  {
    forall i | 0 <= i < accum.Length0
      ensures TableOf(accum)[i] == a.rows[i]
    {
      assert |TableOf(accum)[i]| == accum.Length1 by {
        assert TableOf(accum)[i] == seq(accum.Length1, j requires 0 <= j < accum.Length1 reads accum => accum[i, j]);
      }
    }
  }

  // ---------------------------------------------------------------------
  // Temperature

  /** What the temperature figure is drawn from: the station's name, the
      six series of the requested span and `month_pos`. */
  datatype TemperaturePlot = TemperaturePlot(name: string, series: seq<TemperatureWalk.Slot>, monthPos: seq<int>)

  /** The temperature grid after the line loop: -9999, then every accepted
      TMAX and TMIN slot in degrees Celsius. */
  function TemperatureGrid(years: nat, fs: seq<LineFields>): (r: Result<seq<real>>)
    requires AllWellFormed(fs)
    ensures r.Ok? ==> |r.value| == GridSize(years, TemperatureStats.ElementCount)
  {
    ApplyLines(TemperatureReader(years), Fill(GridSize(years, TemperatureStats.ElementCount), -9999.0), fs, 0)
  }

  /** The four calendar-day tables of a grid, entry `m * 31 + d` for month
      index `m` and day index `d`. */
  function StatTables(g: seq<real>, years: nat): (tb: TemperatureWalk.Tables)
    requires |g| == GridSize(years, TemperatureStats.ElementCount)
    ensures TemperatureWalk.Sized(tb)
  {
    var n := TemperatureStats.TableSize;
    TemperatureWalk.Tables(
      seq(n, k requires 0 <= k < n => TemperatureStats.RecordMax(g, years, k / 31, k % 31)),
      seq(n, k requires 0 <= k < n => TemperatureStats.RecordMin(g, years, k / 31, k % 31)),
      seq(n, k requires 0 <= k < n => TemperatureStats.WindowAverage(g, years, k / 31, k % 31, TemperatureStats.TMax)),
      seq(n, k requires 0 <= k < n => TemperatureStats.WindowAverage(g, years, k / 31, k % 31, TemperatureStats.TMin)))
  }

  /** Entry `(m, d)` of the tables is that day's record maximum and
      minimum and its two window averages. */
  lemma StatTablesAt(g: seq<real>, years: nat, m: nat, d: nat)
    requires |g| == GridSize(years, TemperatureStats.ElementCount) && m < 12 && d < 31
    ensures StatTables(g, years).recordMax[TemperatureStats.Entry(m, d)] == TemperatureStats.RecordMax(g, years, m, d)
    ensures StatTables(g, years).recordMin[TemperatureStats.Entry(m, d)] == TemperatureStats.RecordMin(g, years, m, d)
    ensures StatTables(g, years).averageMax[TemperatureStats.Entry(m, d)]
            == TemperatureStats.WindowAverage(g, years, m, d, TemperatureStats.TMax)
    ensures StatTables(g, years).averageMin[TemperatureStats.Entry(m, d)]
            == TemperatureStats.WindowAverage(g, years, m, d, TemperatureStats.TMin)
  {
    var k := TemperatureStats.Entry(m, d);
    assert k / 31 == m && k % 31 == d;
  }

  /** `plot_temperature` from the decoded lines on. */
  function TemperatureOf(name: string, years: nat, fs: seq<LineFields>, beginDate: string, endDate: string)
    : Result<TemperaturePlot>
    requires AllWellFormed(fs)
  {
    match TemperatureGrid(years, fs)
    case Err(f) => Err(f)
    case Ok(g) =>
      match TemperatureWalk.Window(StatTables(g, years), g, years, beginDate, endDate)
      case Err(f) => Err(f)
      case Ok(w) => Ok(TemperaturePlot(name, w.slots, w.monthPos))
  }

  /** For dates that parse into a non-empty span of valid dates, the
      temperature routine fails, with an IndexError, exactly when the span
      starts and ends in one year and does not end in December; otherwise
      there are `num_days` slots in each series and `num_months` entries in
      `month_pos`, every one written. */
  lemma TemperaturePlotOutcome(name: string, years: nat, fs: seq<LineFields>, beginDate: string, endDate: string)
    requires AllWellFormed(fs) && TemperatureGrid(years, fs).Ok?
    requires TemperatureWalk.ParseDates(beginDate, endDate).Ok?
    requires var ds := TemperatureWalk.ParseDates(beginDate, endDate).value;
      IsValidDate(ds.beginYY, ds.beginMM, ds.beginDD) && IsValidDate(ds.endYY, ds.endMM, ds.endDD)
      && Ordinal(ds.beginYY, ds.beginMM, ds.beginDD) <= Ordinal(ds.endYY, ds.endMM, ds.endDD)
    ensures var ds := TemperatureWalk.ParseDates(beginDate, endDate).value;
      TemperatureOf(name, years, fs, beginDate, endDate).Ok? <==> ds.beginYY < ds.endYY || ds.endMM == 12
    ensures TemperatureOf(name, years, fs, beginDate, endDate).Err? ==>
      TemperatureOf(name, years, fs, beginDate, endDate).failure == IndexError
    ensures var ds := TemperatureWalk.ParseDates(beginDate, endDate).value;
      TemperatureOf(name, years, fs, beginDate, endDate).Ok? ==>
        var p := TemperatureOf(name, years, fs, beginDate, endDate).value;
        && p.name == name
        && |p.series| == Ordinal(ds.endYY, ds.endMM, ds.endDD) - Ordinal(ds.beginYY, ds.beginMM, ds.beginDD) + 1
        && |p.monthPos| == (ds.endYY - ds.beginYY) * 12 + ds.endMM - ds.beginMM + 1
  {
    var g := TemperatureGrid(years, fs).value;
    var ds := TemperatureWalk.ParseDates(beginDate, endDate).value;
    TemperatureWalk.WindowOutcome(StatTables(g, years), g, years, ds);
  }

  /** What the temperature figure shows for date `v` of a grid year: the
      record maximum and minimum of its calendar day over all years, the
      two averages of that day over the window years, and the raw TMAX
      and TMIN of that year, all in degrees Fahrenheit. */
  function DaySlot(g: seq<real>, years: nat, v: TemperatureVisits.Visit): TemperatureWalk.Slot
    requires |g| == GridSize(years, TemperatureStats.ElementCount)
  {
    if TemperatureVisits.Valid(v) && TemperatureVisits.InGrid(years, v.year) then
      var m, d := v.month - 1, v.day - 1;
      TemperatureWalk.Slot(
        TemperatureStats.RecordMax(g, years, m, d), TemperatureStats.RecordMin(g, years, m, d),
        TemperatureStats.WindowAverage(g, years, m, d, TemperatureStats.TMax),
        TemperatureStats.WindowAverage(g, years, m, d, TemperatureStats.TMin),
        TemperatureStats.NonMiss(TemperatureStats.At(g, years, v.year - BeginYear, m, d, TemperatureStats.TMax)),
        TemperatureStats.NonMiss(TemperatureStats.At(g, years, v.year - BeginYear, m, d, TemperatureStats.TMin)))
    else TemperatureWalk.Blank()
  }

  /** The series show the dates `vs` in order, one slot each, and the
      slots after them keep `-9999.0`. */
  predicate SeriesShow(g: seq<real>, years: nat, series: seq<TemperatureWalk.Slot>, vs: seq<TemperatureVisits.Visit>)
    requires |g| == GridSize(years, TemperatureStats.ElementCount)
  {
    && |vs| <= |series|
    && (forall k :: 0 <= k < |vs| ==> series[k] == DaySlot(g, years, vs[k]))
    && (forall k :: |vs| <= k < |series| ==> series[k] == TemperatureWalk.Blank())
  }

  /** When the temperature routine does not raise and the requested years
      are all rows of the grid, slot `k` of the six series shows the `k`-th
      date of the walk: its calendar day's statistics and its own raw
      values. Only the days `begin_dd .. end_dd` of each month are walked,
      so the slots after the visited dates stay at `-9999.0`. */
  lemma {:induction false} TemperatureSeries(name: string, years: nat, fs: seq<LineFields>, beginDate: string, endDate: string)
    requires AllWellFormed(fs) && TemperatureOf(name, years, fs, beginDate, endDate).Ok?
    requires TemperatureWalk.ParseDates(beginDate, endDate).Ok?
    requires var ds := TemperatureWalk.ParseDates(beginDate, endDate).value;
      BeginYear <= ds.beginYY && ds.endYY < BeginYear + years
    ensures TemperatureGrid(years, fs).Ok?
    ensures SeriesShow(TemperatureGrid(years, fs).value, years, TemperatureOf(name, years, fs, beginDate, endDate).value.series,
                       TemperatureVisits.VisitedDates(TemperatureWalk.ParseDates(beginDate, endDate).value))
  {
    var g := TemperatureGrid(years, fs).value;
    var ds := TemperatureWalk.ParseDates(beginDate, endDate).value;
    var tb := StatTables(g, years);
    var w := TemperatureWalk.WindowFrom(tb, g, years, ds).value;
    var vs := TemperatureVisits.VisitedDates(ds);
    TemperatureVisits.WalkContents(tb, g, years, ds);
    forall k | 0 <= k < |vs|
      ensures w.slots[k] == DaySlot(g, years, vs[k])
    {
      var v := vs[k];
      if TemperatureVisits.Valid(v) && TemperatureVisits.InGrid(years, v.year) {
        StatTablesAt(g, years, v.month - 1, v.day - 1);
      }
    }
  }

  /** The four statistics tables of the grid, as the temperature walk reads them. */
  method StatisticsTables(grid: array<real>, years: nat) returns (tb: TemperatureWalk.Tables)
    requires grid.Length == GridSize(years, TemperatureStats.ElementCount)
    ensures tb == StatTables(grid[..], years)
  {
    var recordMax, recordMin, averageMax, averageMin := TemperatureStats.DailyStatistics(grid, years);
    tb := TemperatureWalk.Tables(recordMax[..], recordMin[..], averageMax[..], averageMin[..]);
    TablesAreStats(grid[..], years, tb);
  }

  /** The temperature routine on the decoded lines: the line loop into a
      grid of -9999, the calendar-day tables, the date casts and the walk
      over the requested span. */
  method TemperatureFrom(name: string, years: nat, fs: seq<LineFields>, beginDate: string, endDate: string)
    returns (r: Result<TemperaturePlot>)
    requires AllWellFormed(fs)
    ensures r == TemperatureOf(name, years, fs, beginDate, endDate)
  {
    var rd := TemperatureReader(years);
    var n := GridSize(years, TemperatureStats.ElementCount);
    var grid := new real[n](_ => -9999.0);
    assert grid[..] == Fill(n, -9999.0);
    var scan := ReadLines(rd, fs, grid);
    if scan.Err? {
      return Err(scan.failure);
    }
    var g := grid[..];
    var tb := StatisticsTables(grid, years);
    var ds := TemperatureWalk.ParseDates(beginDate, endDate);
    if ds.Err? {
      return Err(ds.failure);
    }
    var counts := TemperatureWalk.Counts(ds.value);
    if counts.Err? {
      return Err(counts.failure);
    }
    var slots, monthPos, failure := TemperatureLoops.GatherWindow(tb, g, years, ds.value, counts.value.0, counts.value.1);
    if failure.Some? {
      return Err(failure.value);
    }
    r := Ok(TemperaturePlot(name, slots[..], monthPos[..]));
  }

  /** Tables given entry by entry, as `DailyStatistics` returns them, are
      the tables of the grid. */
  lemma TablesAreStats(g: seq<real>, years: nat, tb: TemperatureWalk.Tables)
    requires |g| == GridSize(years, TemperatureStats.ElementCount) && TemperatureWalk.Sized(tb)
    requires forall m: nat, d: nat :: m < 12 && d < 31 ==>
      tb.recordMax[TemperatureStats.Entry(m, d)] == TemperatureStats.RecordMax(g, years, m, d)
    requires forall m: nat, d: nat :: m < 12 && d < 31 ==>
      tb.recordMin[TemperatureStats.Entry(m, d)] == TemperatureStats.RecordMin(g, years, m, d)
    requires forall m: nat, d: nat :: m < 12 && d < 31 ==>
      tb.averageMax[TemperatureStats.Entry(m, d)] == TemperatureStats.WindowAverage(g, years, m, d, TemperatureStats.TMax)
    requires forall m: nat, d: nat :: m < 12 && d < 31 ==>
      tb.averageMin[TemperatureStats.Entry(m, d)] == TemperatureStats.WindowAverage(g, years, m, d, TemperatureStats.TMin)
    ensures tb == StatTables(g, years)
  {
    var st := StatTables(g, years);
    forall k | 0 <= k < TemperatureStats.TableSize
      ensures tb.recordMax[k] == st.recordMax[k] && tb.recordMin[k] == st.recordMin[k]
      ensures tb.averageMax[k] == st.averageMax[k] && tb.averageMin[k] == st.averageMin[k]
    {
      var m, d := k / 31, k % 31;
      assert TemperatureStats.Entry(m, d) == k;
    }
  }

  // ---------------------------------------------------------------------
  // The routines

  /** `plot_temperature(station_id, begin_date, end_date)`: the name lookup,
      the grid's shape, then the rest on the station file's lines. */
  function PlotTemperatureOf(stations: seq<seq<string>>, id: string, contents: seq<string>, endYear: int,
                             beginDate: string, endDate: string): Result<TemperaturePlot>
  {
    match PlotStation.StationName(stations, id)
    case Err(f) => Err(f)
    case Ok(name) =>
      match NumYears(endYear)
      case Err(f) => Err(f)
      case Ok(years) => TemperatureOf(name, years, FieldsOf(contents, ExactlySpace), beginDate, endDate)
  }

  /** `plot_precipitation(station_id)`. */
  function PlotPrecipitationOf(stations: seq<seq<string>>, id: string, contents: seq<string>, endYear: int)
    : Result<AccumulationPlot>
  {
    match PlotStation.StationName(stations, id)
    case Err(f) => Err(f)
    case Ok(name) =>
      match NumYears(endYear)
      case Err(f) => Err(f)
      case Ok(years) => PrecipitationOf(name, years, FieldsOf(contents, ExactlySpace))
  }

  /** `plot_snowfall(station_id)`. */
  function PlotSnowfallOf(stations: seq<seq<string>>, id: string, contents: seq<string>, endYear: int)
    : Result<AccumulationPlot>
  {
    match PlotStation.StationName(stations, id)
    case Err(f) => Err(f)
    case Ok(name) =>
      match NumYears(endYear)
      case Err(f) => Err(f)
      case Ok(years) => SnowfallOf(name, years, FieldsOf(contents, ExactlySpace))
  }

  /** All three routines raise the lookup's IndexError for a station that
      is not in the table, and the ValueError of a negative year count,
      before they read any line; a plot that is made carries the station's
      normalised name, which has no spaces. */
  lemma RoutinesLookUpFirst(stations: seq<seq<string>>, id: string, contents: seq<string>, endYear: int,
                            beginDate: string, endDate: string)
    ensures PlotStation.FirstMatch(stations, id).None? ==>
      && PlotTemperatureOf(stations, id, contents, endYear, beginDate, endDate) == Err(IndexError)
      && PlotPrecipitationOf(stations, id, contents, endYear) == Err(IndexError)
      && PlotSnowfallOf(stations, id, contents, endYear) == Err(IndexError)
    ensures PlotStation.StationName(stations, id).Ok? && endYear + 1 < BeginYear ==>
      && PlotTemperatureOf(stations, id, contents, endYear, beginDate, endDate) == Err(ValueError)
      && PlotPrecipitationOf(stations, id, contents, endYear) == Err(ValueError)
      && PlotSnowfallOf(stations, id, contents, endYear) == Err(ValueError)
    ensures PlotPrecipitationOf(stations, id, contents, endYear).Ok? ==>
      ' ' !in PlotPrecipitationOf(stations, id, contents, endYear).value.name
    ensures PlotSnowfallOf(stations, id, contents, endYear).Ok? ==>
      ' ' !in PlotSnowfallOf(stations, id, contents, endYear).value.name
    ensures PlotTemperatureOf(stations, id, contents, endYear, beginDate, endDate).Ok? ==>
      ' ' !in PlotTemperatureOf(stations, id, contents, endYear, beginDate, endDate).value.name
  {
    PlotStation.StationMetaIsFirstMatch(stations, id);
    if PlotStation.StationName(stations, id).Ok? && NumYears(endYear).Ok? {
      var name := PlotStation.StationName(stations, id).value;
      var fs := FieldsOf(contents, ExactlySpace);
      PrecipitationPlot(name, NumYears(endYear).value, fs);
      SnowfallPlot(name, NumYears(endYear).value, fs);
    }
  }

  method PlotTemperature(stations: seq<seq<string>>, id: string, contents: seq<string>, endYear: int,
                         beginDate: string, endDate: string) returns (r: Result<TemperaturePlot>)
    ensures r == PlotTemperatureOf(stations, id, contents, endYear, beginDate, endDate)
  {
    var name := PlotStation.StationName(stations, id);
    if name.Err? {
      return Err(name.failure);
    }
    var years := NumYears(endYear);
    if years.Err? {
      return Err(years.failure);
    }
    r := TemperatureFrom(name.value, years.value, FieldsOf(contents, ExactlySpace), beginDate, endDate);
  }

  method PlotPrecipitation(stations: seq<seq<string>>, id: string, contents: seq<string>, endYear: int)
    returns (r: Result<AccumulationPlot>)
    ensures r == PlotPrecipitationOf(stations, id, contents, endYear)
  {
    var name := PlotStation.StationName(stations, id);
    if name.Err? {
      return Err(name.failure);
    }
    var years := NumYears(endYear);
    if years.Err? {
      return Err(years.failure);
    }
    r := PrecipitationFrom(name.value, years.value, FieldsOf(contents, ExactlySpace));
  }

  method PlotSnowfall(stations: seq<seq<string>>, id: string, contents: seq<string>, endYear: int)
    returns (r: Result<AccumulationPlot>)
    ensures r == PlotSnowfallOf(stations, id, contents, endYear)
  {
    var name := PlotStation.StationName(stations, id);
    if name.Err? {
      return Err(name.failure);
    }
    var years := NumYears(endYear);
    if years.Err? {
      return Err(years.failure);
    }
    r := SnowfallFrom(name.value, years.value, FieldsOf(contents, ExactlySpace));
  }
}
