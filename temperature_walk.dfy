/** The date walk of `plot_temperature` in `ghcnpy/plotting.py`: for the
    requested span of dates the per-day tables are copied, day by day, into
    series of `num_days` slots, and `month_pos` records at which slot every
    month starts. The six series `record_max`, `record_min`, `average_max`,
    `average_min`, `raw_max` and `raw_min` are the six fields of one
    sequence of `Slot`s. The walk keeps the source's behaviour: every month
    is walked over the days `begin_dd .. end_dd`, an invalid date or a slot
    past the series is skipped, and a month past `month_pos` raises an
    IndexError nobody catches. */
module TemperatureWalk {
  import opened PyModel
  import opened Calendar
  import opened DailyGrid
  import opened TemperatureStats

  /** The four (12, 31) tables of `TemperatureStats`, flattened. */
  datatype Tables = Tables(recordMax: seq<Option<real>>, recordMin: seq<Option<real>>,
                           averageMax: seq<Option<real>>, averageMin: seq<Option<real>>)

  predicate Sized(tb: Tables) {
    |tb.recordMax| == TableSize && |tb.recordMin| == TableSize
    && |tb.averageMax| == TableSize && |tb.averageMin| == TableSize
  }

  /** Slot `day_index` of the six series. */
  datatype Slot = Slot(recordMax: Option<real>, recordMin: Option<real>,
                       averageMax: Option<real>, averageMin: Option<real>,
                       rawMax: Option<real>, rawMin: Option<real>)

  /** `np.zeros(...) - 9999.0`: a slot nothing was written to. */
  function Blank(): Slot {
    var u := Some(-9999.0);
    Slot(u, u, u, u, u, u)
  }

  /** The walk's state: the series, `month_pos`, `day_index` and
      `month_index`. */
  datatype Walk = Walk(slots: seq<Slot>, monthPos: seq<int>, dayIndex: nat, monthIndex: nat)

  /** The series and `month_pos` as they are allocated. */
  function Start(numDays: nat, numMonths: nat): (w: Walk)
    ensures |w.slots| == numDays && |w.monthPos| == numMonths && w.dayIndex == 0 && w.monthIndex == 0
  {
    Walk(seq(numDays, _ => Blank()), seq(numMonths, _ => -9999), 0, 0)
  }

  /** The four table entries of a valid date. */
  function TablesAt(tb: Tables, s: Slot, m: int, d: int): Slot
    requires Sized(tb) && 1 <= m <= 12 && 1 <= d <= 31
  {
    var k := Entry(m - 1, d - 1);
    s.(recordMax := tb.recordMax[k], recordMin := tb.recordMin[k],
       averageMax := tb.averageMax[k], averageMin := tb.averageMin[k])
  }

  /** The `try` body for one day: a date `datetime` refuses is skipped; so
      is a slot past the series, whose IndexError is swallowed. Otherwise
      the table entries are written; the raw values are read from grid row
      `year - begin_year` under numpy's indexing and, when that row is
      outside the grid, the IndexError is swallowed after the table entries
      are written and `day_index` stays. */
  function DayStep(tb: Tables, g: seq<real>, years: nat, w: Walk, y: int, m: int, d: int): (r: Walk)
    requires Sized(tb) && |g| == GridSize(years, ElementCount)
    ensures |r.slots| == |w.slots| && r.monthPos == w.monthPos && r.monthIndex == w.monthIndex
    ensures r.dayIndex == w.dayIndex || (r.dayIndex == w.dayIndex + 1 && w.dayIndex < |w.slots|)
  {
    if !IsValidDate(y, m, d) || w.dayIndex >= |w.slots| then w
    else
      var s := TablesAt(tb, w.slots[w.dayIndex], m, d);
      match NumpyIndex(y - BeginYear, years)
      case None => w.(slots := w.slots[w.dayIndex := s])
      case Some(yi) =>
        var raw := s.(rawMax := NonMiss(At(g, years, yi, m - 1, d - 1, TMax)),
                      rawMin := NonMiss(At(g, years, yi, m - 1, d - 1, TMin)));
        w.(slots := w.slots[w.dayIndex := raw], dayIndex := w.dayIndex + 1)
  }

  /** A valid date of a grid year, with room left in the series, fills
      slot `day_index` with the calendar day's four statistics and that
      year's raw TMAX and TMIN, and moves `day_index` on; a date
      `datetime` refuses changes nothing. */
  lemma DayWritten(tb: Tables, g: seq<real>, years: nat, w: Walk, y: int, m: int, d: int)
    requires Sized(tb) && |g| == GridSize(years, ElementCount)
    ensures !IsValidDate(y, m, d) ==> DayStep(tb, g, years, w, y, m, d) == w
    ensures IsValidDate(y, m, d) && w.dayIndex < |w.slots| && 0 <= y - BeginYear < years ==>
      var k := Entry(m - 1, d - 1);
      DayStep(tb, g, years, w, y, m, d)
      == w.(slots := w.slots[w.dayIndex := Slot(tb.recordMax[k], tb.recordMin[k], tb.averageMax[k], tb.averageMin[k],
                                               NonMiss(At(g, years, y - BeginYear, m - 1, d - 1, TMax)),
                                               NonMiss(At(g, years, y - BeginYear, m - 1, d - 1, TMin)))],
            dayIndex := w.dayIndex + 1)
  {
  }

  /** The day loop of one month over `lo .. hi - 1`. */
  function WalkDays(tb: Tables, g: seq<real>, years: nat, w: Walk, y: int, m: int, lo: int, hi: int): (r: Walk)
    requires Sized(tb) && |g| == GridSize(years, ElementCount)
    ensures |r.slots| == |w.slots| && r.monthPos == w.monthPos && r.monthIndex == w.monthIndex
    ensures w.dayIndex <= r.dayIndex && (w.dayIndex <= |w.slots| ==> r.dayIndex <= |w.slots|)
    decreases hi - lo
  {
    if hi <= lo then w
    else DayStep(tb, g, years, WalkDays(tb, g, years, w, y, m, lo, hi - 1), y, m, hi - 1)
  }

  /** One month: `month_pos[month_index] = day_index` (an uncaught
      IndexError when `month_index` is past `month_pos`), the day loop over
      `begin_dd .. end_dd`, then `month_index += 1`. */
  function MonthStep(tb: Tables, g: seq<real>, years: nat, w: Walk, y: int, m: int, bd: int, ed: int): (r: Result<Walk>)
    requires Sized(tb) && |g| == GridSize(years, ElementCount)
    ensures r.Ok? <==> w.monthIndex < |w.monthPos|
    ensures r.Err? ==> r.failure == IndexError
    ensures r.Ok? ==> |r.value.slots| == |w.slots| && |r.value.monthPos| == |w.monthPos|
    ensures r.Ok? ==> r.value.monthIndex == w.monthIndex + 1 && w.dayIndex <= r.value.dayIndex
    ensures r.Ok? && w.dayIndex <= |w.slots| ==> r.value.dayIndex <= |w.slots|
  {
    if w.monthIndex >= |w.monthPos| then Err(IndexError)
    else
      var begun := w.(monthPos := w.monthPos[w.monthIndex := w.dayIndex]);
      var walked := WalkDays(tb, g, years, begun, y, m, bd, ed + 1);
      Ok(walked.(monthIndex := walked.monthIndex + 1))
  }

  /** The month loop of one year over `lo .. hi`. */
  function WalkMonths(tb: Tables, g: seq<real>, years: nat, w: Walk, y: int, lo: int, hi: int, bd: int, ed: int): (r: Result<Walk>)
    requires Sized(tb) && |g| == GridSize(years, ElementCount)
    ensures r.Err? ==> r.failure == IndexError
    ensures r.Ok? ==> |r.value.slots| == |w.slots| && |r.value.monthPos| == |w.monthPos|
    ensures r.Ok? ==> w.dayIndex <= r.value.dayIndex && (w.dayIndex <= |w.slots| ==> r.value.dayIndex <= |w.slots|)
    decreases hi - lo
  {
    if hi < lo then Ok(w)
    else match WalkMonths(tb, g, years, w, y, lo, hi - 1, bd, ed)
      case Err(f) => Err(f)
      case Ok(v) => MonthStep(tb, g, years, v, y, hi, bd, ed)
  }

  /** Once the month loop has raised, later months do not run. */
  lemma {:induction false} MonthsErrStays(tb: Tables, g: seq<real>, years: nat, w: Walk, y: int, lo: int, h: int, h': int, bd: int, ed: int)
    requires Sized(tb) && |g| == GridSize(years, ElementCount)
    requires h <= h' && WalkMonths(tb, g, years, w, y, lo, h, bd, ed).Err?
    ensures WalkMonths(tb, g, years, w, y, lo, h', bd, ed).Err?
    decreases h' - h
  {
    if h < h' {
      MonthsErrStays(tb, g, years, w, y, lo, h, h' - 1, bd, ed);
    }
  }

  /** The parsed dates of the request. */
  datatype Dates = Dates(beginYY: int, beginMM: int, beginDD: int, endYY: int, endMM: int, endDD: int)

  /** The months walked in year `y` run from `start_month` to `end_month`:
      from `begin_mm` to December in the first year, from January to
      `end_mm` in the last, all twelve in between. */
  function StartMonth(ds: Dates, y: int): int {
    if y == ds.beginYY then ds.beginMM else 1
  }

  function EndMonth(ds: Dates, y: int): int {
    if y == ds.beginYY then 12 else if y == ds.endYY then ds.endMM else 12
  }

  /** The month loop of year `y`. */
  function WalkYear(tb: Tables, g: seq<real>, years: nat, w: Walk, ds: Dates, y: int): Result<Walk>
    requires Sized(tb) && |g| == GridSize(years, ElementCount)
  {
    WalkMonths(tb, g, years, w, y, StartMonth(ds, y), EndMonth(ds, y), ds.beginDD, ds.endDD)
  }

  /** The year loop over `begin_yy .. hi - 1`. */
  function WalkYears(tb: Tables, g: seq<real>, years: nat, w: Walk, ds: Dates, hi: int): (r: Result<Walk>)
    requires Sized(tb) && |g| == GridSize(years, ElementCount)
    ensures r.Err? ==> r.failure == IndexError
    ensures r.Ok? ==> |r.value.slots| == |w.slots| && |r.value.monthPos| == |w.monthPos|
    ensures r.Ok? ==> w.dayIndex <= r.value.dayIndex && (w.dayIndex <= |w.slots| ==> r.value.dayIndex <= |w.slots|)
    decreases hi - ds.beginYY
  {
    if hi <= ds.beginYY then Ok(w)
    else match WalkYears(tb, g, years, w, ds, hi - 1)
      case Err(f) => Err(f)
      case Ok(v) => WalkYear(tb, g, years, v, ds, hi - 1)
  }

  /** Once the year loop has raised, later years do not run. */
  lemma {:induction false} YearsErrStays(tb: Tables, g: seq<real>, years: nat, w: Walk, ds: Dates, h: int, h': int)
    requires Sized(tb) && |g| == GridSize(years, ElementCount)
    requires h <= h' && WalkYears(tb, g, years, w, ds, h).Err?
    ensures WalkYears(tb, g, years, w, ds, h').Err?
    decreases h' - h
  {
    if h < h' {
      YearsErrStays(tb, g, years, w, ds, h, h' - 1);
    }
  }

  /** `int(s)`, a ValueError when the text is not an integer. */
  function ToInt(s: string): (r: Result<int>)
    ensures r.Err? ==> r.failure == ValueError
  {
    match ParseInt(s)
    case None => Err(ValueError)
    case Some(n) => Ok(n)
  }

  /** The six `int()` casts of `begin_date` and `end_date`, `YYYYMMDD`. */
  function ParseDates(beginDate: string, endDate: string): (r: Result<Dates>)
    ensures r.Err? ==> r.failure == ValueError
  {
    var parts := [ToInt(Slice(beginDate, 0, 4)), ToInt(Slice(beginDate, 4, 6)), ToInt(Slice(beginDate, 6, 8)),
                  ToInt(Slice(endDate, 0, 4)), ToInt(Slice(endDate, 4, 6)), ToInt(Slice(endDate, 6, 8))];
    if exists k :: 0 <= k < 6 && parts[k].Err? then Err(ValueError)
    else Ok(Dates(parts[0].value, parts[1].value, parts[2].value, parts[3].value, parts[4].value, parts[5].value))
  }

  /** `num_days` and `num_months`: `date(...)` raises a ValueError on an
      invalid date and `np.zeros` on a negative length. */
  function Counts(ds: Dates): (r: Result<(nat, nat)>)
    ensures r.Err? ==> r.failure == ValueError
    ensures r.Ok? ==> IsValidDate(ds.beginYY, ds.beginMM, ds.beginDD) && IsValidDate(ds.endYY, ds.endMM, ds.endDD)
    ensures r.Ok? ==> r.value.0 == Ordinal(ds.endYY, ds.endMM, ds.endDD) - Ordinal(ds.beginYY, ds.beginMM, ds.beginDD) + 1
    ensures r.Ok? ==> r.value.1 == (ds.endYY - ds.beginYY) * 12 + ds.endMM - ds.beginMM + 1
  {
    if !IsValidDate(ds.endYY, ds.endMM, ds.endDD) || !IsValidDate(ds.beginYY, ds.beginMM, ds.beginDD) then Err(ValueError)
    else
      var numDays := Ordinal(ds.endYY, ds.endMM, ds.endDD) - Ordinal(ds.beginYY, ds.beginMM, ds.beginDD) + 1;
      var numMonths := (ds.endYY - ds.beginYY) * 12 + ds.endMM - ds.beginMM + 1;
      if numDays < 0 || numMonths < 0 then Err(ValueError)
      else Ok((numDays, numMonths))
  }

  /** The walk from the parsed dates on. */
  function WindowFrom(tb: Tables, g: seq<real>, years: nat, ds: Dates): (r: Result<Walk>)
    requires Sized(tb) && |g| == GridSize(years, ElementCount)
  {
    match Counts(ds)
    case Err(f) => Err(f)
    case Ok((numDays, numMonths)) => WalkYears(tb, g, years, Start(numDays, numMonths), ds, ds.endYY + 1)
  }

  /** The whole step "Gather Data Based Upon Date Requested". */
  function Window(tb: Tables, g: seq<real>, years: nat, beginDate: string, endDate: string): Result<Walk>
    requires Sized(tb) && |g| == GridSize(years, ElementCount)
  {
    match ParseDates(beginDate, endDate)
    case Err(f) => Err(f)
    case Ok(ds) => WindowFrom(tb, g, years, ds)
  }

  // ---------------------------------------------------------------------
  // How many months the walk visits

  /** The number of months of `lo .. hi`. */
  function Span(lo: int, hi: int): nat {
    if hi < lo then 0 else hi - lo + 1
  }

  /** The month loop succeeds exactly when its months fit into what is left
      of `month_pos`, and then `month_index` has moved on by their number. */
  lemma {:induction false} MonthsFit(tb: Tables, g: seq<real>, years: nat, w: Walk, y: int, lo: int, hi: int, bd: int, ed: int)
    requires Sized(tb) && |g| == GridSize(years, ElementCount) && w.monthIndex <= |w.monthPos|
    ensures WalkMonths(tb, g, years, w, y, lo, hi, bd, ed).Ok? <==> w.monthIndex + Span(lo, hi) <= |w.monthPos|
    ensures WalkMonths(tb, g, years, w, y, lo, hi, bd, ed).Ok? ==>
      WalkMonths(tb, g, years, w, y, lo, hi, bd, ed).value.monthIndex == w.monthIndex + Span(lo, hi)
    decreases hi - lo
  {
    if hi >= lo {
      MonthsFit(tb, g, years, w, y, lo, hi - 1, bd, ed);
      var r := WalkMonths(tb, g, years, w, y, lo, hi - 1, bd, ed);
      assert Span(lo, hi) == Span(lo, hi - 1) + 1;
      if r.Ok? {
        var v := r.value;
        assert WalkMonths(tb, g, years, w, y, lo, hi, bd, ed) == MonthStep(tb, g, years, v, y, hi, bd, ed);
        assert v.monthIndex == w.monthIndex + Span(lo, hi - 1);
        assert |v.monthPos| == |w.monthPos|;
      } else {
        assert WalkMonths(tb, g, years, w, y, lo, hi, bd, ed).Err?;
      }
    }
  }

  /** The months the year loop visits in the years `begin_yy .. hi - 1`. */
  function MonthsUpTo(ds: Dates, hi: int): nat
    decreases hi - ds.beginYY
  {
    if hi <= ds.beginYY then 0
    else MonthsUpTo(ds, hi - 1) + Span(StartMonth(ds, hi - 1), EndMonth(ds, hi - 1))
  }

  /** The year loop succeeds exactly when all its months fit into
      `month_pos`, and then `month_index` has moved on by their number. */
  lemma {:induction false} YearsFit(tb: Tables, g: seq<real>, years: nat, w: Walk, ds: Dates, hi: int)
    requires Sized(tb) && |g| == GridSize(years, ElementCount) && w.monthIndex <= |w.monthPos|
    ensures WalkYears(tb, g, years, w, ds, hi).Ok? <==> w.monthIndex + MonthsUpTo(ds, hi) <= |w.monthPos|
    ensures WalkYears(tb, g, years, w, ds, hi).Ok? ==>
      WalkYears(tb, g, years, w, ds, hi).value.monthIndex == w.monthIndex + MonthsUpTo(ds, hi)
    decreases hi - ds.beginYY
  {
    if hi > ds.beginYY {
      YearsFit(tb, g, years, w, ds, hi - 1);
      var r := WalkYears(tb, g, years, w, ds, hi - 1);
      if r.Ok? {
        MonthsFit(tb, g, years, r.value, hi - 1, StartMonth(ds, hi - 1), EndMonth(ds, hi - 1), ds.beginDD, ds.endDD);
        assert WalkYears(tb, g, years, w, ds, hi) == WalkYear(tb, g, years, r.value, ds, hi - 1);
      }
    }
  }

  /** Over several years the walk visits the rest of the first year, twelve
      months for each year in between and the first `end_mm` months of the
      last: exactly `num_months`. */
  lemma {:induction false} MonthsOfSpan(ds: Dates, hi: int)
    requires 1 <= ds.beginMM <= 12 && 1 <= ds.endMM <= 12 && ds.beginYY < hi <= ds.endYY + 1
    ensures hi <= ds.endYY ==> MonthsUpTo(ds, hi) == (hi - ds.beginYY) * 12 - ds.beginMM + 1
    ensures hi == ds.endYY + 1 && ds.beginYY < ds.endYY ==> MonthsUpTo(ds, hi) == (ds.endYY - ds.beginYY) * 12 + ds.endMM - ds.beginMM + 1
    ensures hi == ds.endYY + 1 && ds.beginYY == ds.endYY ==> MonthsUpTo(ds, hi) == 13 - ds.beginMM
    decreases hi - ds.beginYY
  {
    if hi - 1 > ds.beginYY {
      MonthsOfSpan(ds, hi - 1);
    }
  }

  /** A year's days follow the days of the years before it. */
  lemma YearStep(y: int)
    requires MinYear <= y < MaxYear
    ensures DaysBeforeYear(y + 1) == DaysBeforeYear(y) + YearLength(y)
  {
    OrdinalNewYear(y + 1);
    YearIsTwelveMonths(y);
    assert DayOfYear(y, 12, 31) == YearLength(y);
  }

  /** The ordinal of any date of a year lies after every date of the years
      before it. */
  lemma {:induction false} YearsOrdered(y1: int, y2: int)
    requires MinYear <= y1 < y2 <= MaxYear
    ensures DaysBeforeYear(y1) + YearLength(y1) <= DaysBeforeYear(y2)
    decreases y2 - y1
  {
    YearStep(y2 - 1);
    if y1 < y2 - 1 {
      YearsOrdered(y1, y2 - 1);
    }
  }

  /** A span that ends no earlier than it begins does not end in an earlier
      year, nor, within one year, in an earlier month. */
  lemma SpanOrdered(ds: Dates)
    requires IsValidDate(ds.beginYY, ds.beginMM, ds.beginDD) && IsValidDate(ds.endYY, ds.endMM, ds.endDD)
    requires Ordinal(ds.beginYY, ds.beginMM, ds.beginDD) <= Ordinal(ds.endYY, ds.endMM, ds.endDD)
    ensures ds.beginYY <= ds.endYY
    ensures ds.beginYY == ds.endYY ==> ds.beginMM <= ds.endMM
  {
    if ds.endYY < ds.beginYY {
      YearsOrdered(ds.endYY, ds.beginYY);
    }
    if ds.beginYY == ds.endYY && ds.endMM < ds.beginMM {
      DayOfYearOrdered(ds.beginYY, ds.endMM, ds.endDD, ds.beginMM, ds.beginDD);
    }
  }

  /** The walk from freshly allocated series: with `num_months` computed
      from the dates, it fails exactly when begin and end lie in one year
      and the end month is not December, and otherwise writes every slot of
      `month_pos`. */
  lemma WalkOutcome(tb: Tables, g: seq<real>, years: nat, ds: Dates, numDays: nat, numMonths: nat)
    requires Sized(tb) && |g| == GridSize(years, ElementCount)
    requires 1 <= ds.beginMM <= 12 && 1 <= ds.endMM <= 12 && ds.beginYY <= ds.endYY
    requires ds.beginYY == ds.endYY ==> ds.beginMM <= ds.endMM
    requires numMonths == (ds.endYY - ds.beginYY) * 12 + ds.endMM - ds.beginMM + 1
    ensures WalkYears(tb, g, years, Start(numDays, numMonths), ds, ds.endYY + 1).Ok? <==>
            ds.beginYY < ds.endYY || ds.endMM == 12
    ensures WalkYears(tb, g, years, Start(numDays, numMonths), ds, ds.endYY + 1).Ok? ==>
            WalkYears(tb, g, years, Start(numDays, numMonths), ds, ds.endYY + 1).value.monthIndex == numMonths
  {
    YearsFit(tb, g, years, Start(numDays, numMonths), ds, ds.endYY + 1);
    MonthsOfSpan(ds, ds.endYY + 1);
  }

  /** For valid dates whose span is not empty the walk fails exactly when
      begin and end lie in one year and the end month is not December:
      the first year's months run on to December while `num_months` counts
      only up to `end_mm`, and `month_pos[num_months]` raises the
      IndexError. Otherwise every slot of `month_pos` is written. */
  lemma WindowOutcome(tb: Tables, g: seq<real>, years: nat, ds: Dates)
    requires Sized(tb) && |g| == GridSize(years, ElementCount)
    requires IsValidDate(ds.beginYY, ds.beginMM, ds.beginDD) && IsValidDate(ds.endYY, ds.endMM, ds.endDD)
    requires Ordinal(ds.beginYY, ds.beginMM, ds.beginDD) <= Ordinal(ds.endYY, ds.endMM, ds.endDD)
    ensures WindowFrom(tb, g, years, ds).Ok? <==> ds.beginYY < ds.endYY || ds.endMM == 12
    ensures WindowFrom(tb, g, years, ds).Err? ==> WindowFrom(tb, g, years, ds).failure == IndexError
    ensures WindowFrom(tb, g, years, ds).Ok? ==>
      WindowFrom(tb, g, years, ds).value.monthIndex == |WindowFrom(tb, g, years, ds).value.monthPos|
  {
    SpanOrdered(ds);
    var c := Counts(ds);
    assert c.Ok?;
    WalkOutcome(tb, g, years, ds, c.value.0, c.value.1);
  }

  /** In particular, any request that stays within one month other than
      December crashes. */
  lemma OneMonthCrashes(tb: Tables, g: seq<real>, years: nat, y: int, m: int, d1: int, d2: int)
    requires Sized(tb) && |g| == GridSize(years, ElementCount)
    requires IsValidDate(y, m, d1) && IsValidDate(y, m, d2) && d1 <= d2 && m < 12
    ensures WindowFrom(tb, g, years, Dates(y, m, d1, y, m, d2)) == Err(IndexError)
  {
    WindowOutcome(tb, g, years, Dates(y, m, d1, y, m, d2));
  }
}
