/** The "average year" curves of `plot_precipitation` and `plot_snowfall`
    in `ghcnpy/plotting.py`: walking the days of a month list in the leap
    year 2012, slot after slot gets the previous slot plus the mean of that
    calendar day over the years `valid_begin .. valid_end - 1`. A mean over
    no year is NaN, written `None`; NaN plus anything is NaN. */
module Averages {
  import opened PyModel
  import opened Calendar
  import opened DayWalk
  import opened DailyGrid

  /** The year `datetime` validates the walk on. */
  const ValidationYear := 2012

  /** `num_days`: the curve's slots. */
  const CurveLength := 366

  /** What the curve holds before a slot is written. */
  const Unset: real := -9999.0

  /** Addition where `None` is NaN. */
  function AddNaN(x: Option<real>, y: Option<real>): Option<real> {
    if x.Some? && y.Some? then Some(x.value + y.value) else None
  }

  /** The cell of year row `y`, month index `mc`, day index `dc` of a
      one-element grid. */
  function CellAt(g: seq<real>, years: nat, y: nat, mc: nat, dc: nat): real
    requires |g| == GridSize(years, 1) && y < years && mc < 12 && dc < 31
  {
    CellInGrid(y, mc, dc, 0, years, 1);
    g[Cell(y, mc, dc, 0, 1)]
  }

  /** The sum of one calendar day's cells over the year rows `a .. b - 1`. */
  function ColumnSum(g: seq<real>, years: nat, a: nat, b: nat, mc: nat, dc: nat): real
    requires |g| == GridSize(years, 1) && a <= b <= years && mc < 12 && dc < 31
    decreases b - a
  {
    if a == b then 0.0 else ColumnSum(g, years, a, b - 1, mc, dc) + CellAt(g, years, b - 1, mc, dc)
  }

  /** `ma.average(g[lo:hi, mc, dc, 0])`: the mean over the rows the slice
      selects, NaN when it selects none. */
  function WindowMean(g: seq<real>, years: nat, lo: int, hi: int, mc: nat, dc: nat): Option<real>
    requires |g| == GridSize(years, 1) && mc < 12 && dc < 31
  {
    var a := SliceBound(lo, years);
    var b := SliceBound(hi, years);
    if a < b then Some(ColumnSum(g, years, a, b, mc, dc) / (b - a) as real) else None
  }

  /** With the first and last data years inside the grid, the window is the
      years from the first up to but not including the last: its mean is
      NaN exactly when both are the same year, and otherwise the column sum
      over `begin - 1895 .. end - 1896` divided by `end - begin`. */
  lemma WindowExcludesLastYear(g: seq<real>, years: nat, begin: int, end: int, mc: nat, dc: nat)
    requires |g| == GridSize(years, 1) && mc < 12 && dc < 31
    requires 1895 <= begin <= end < 1895 + years
    ensures WindowMean(g, years, begin - 1895, end - 1895, mc, dc).None? <==> begin == end
    ensures begin < end ==>
      WindowMean(g, years, begin - 1895, end - 1895, mc, dc)
      == Some(ColumnSum(g, years, begin - 1895, end - 1895, mc, dc) / (end - begin) as real)
  {
  }

  /** The mean an average curve adds for a visited day. */
  function DayMean(g: seq<real>, years: nat, lo: int, hi: int, day: Day): Option<real>
    requires |g| == GridSize(years, 1)
  {
    if 0 <= day.month < 12 && 0 <= day.day < 31 then WindowMean(g, years, lo, hi, day.month, day.day) else None
  }

  function Means(g: seq<real>, years: nat, lo: int, hi: int, ds: seq<Day>): (r: seq<Option<real>>)
    requires |g| == GridSize(years, 1)
    ensures |r| == |ds|
    ensures forall k :: 0 <= k < |ds| ==> r[k] == DayMean(g, years, lo, hi, ds[k])
  {
    seq(|ds|, k requires 0 <= k < |ds| => DayMean(g, years, lo, hi, ds[k]))
  }

  /** The running NaN-aware sums of `vs`, starting from 0. */
  function RunningNaN(vs: seq<Option<real>>): (r: seq<Option<real>>)
    ensures |r| == |vs|
  {
    if vs == [] then []
    else
      var front := RunningNaN(vs[..|vs| - 1]);
      front + [AddNaN(if front == [] then Some(0.0) else front[|front| - 1], vs[|vs| - 1])]
  }

  /** Slot 0 is the first mean; every later slot is the slot before it
      plus its own mean. */
  lemma {:induction false} RunningNaNStep(vs: seq<Option<real>>, k: nat)
    requires k < |vs|
    ensures k == 0 ==> RunningNaN(vs)[0] == AddNaN(Some(0.0), vs[0])
    ensures k > 0 ==> RunningNaN(vs)[k] == AddNaN(RunningNaN(vs)[k - 1], vs[k])
  {
    var front := vs[..|vs| - 1];
    if k + 1 < |vs| {
      RunningNaNStep(front, k);
      if k > 0 {
        assert front[k] == vs[k];
      }
    } else if k == 0 {
      assert front == [];
    }
  }

  /** The NaN-aware total of `vs`. */
  function TotalNaN(vs: seq<Option<real>>): Option<real> {
    if vs == [] then Some(0.0) else AddNaN(TotalNaN(vs[..|vs| - 1]), vs[|vs| - 1])
  }

  /** Slot `k` of the running sums is the total of the first `k + 1`
      values; a NaN value makes it and every later slot NaN. */
  lemma {:induction false} RunningIsTotal(vs: seq<Option<real>>, k: nat)
    requires k < |vs|
    ensures RunningNaN(vs)[k] == TotalNaN(vs[..k + 1])
    ensures (exists j :: 0 <= j <= k && vs[j].None?) ==> RunningNaN(vs)[k].None?
  {
    RunningNaNStep(vs, k);
    if k > 0 {
      RunningIsTotal(vs, k - 1);
      assert vs[..k + 1][..k] == vs[..k];
    } else {
      assert vs[..1][..0] == [];
    }
  }

  /** The carried state of the walk: the curve, `day_of_year`, `day_before`. */
  datatype Curve = Curve(slots: seq<Option<real>>, doy: nat, before: Option<real>)

  function CurveStart(): Curve {
    Curve(seq(CurveLength, _ => Some(Unset)), 0, Some(0.0))
  }

  /** One visited day: the slot gets the carry plus the mean, unless the
      slot index is past the curve (the IndexError the `try` swallows). */
  function CurveStep(c: Curve, v: Option<real>): Curve {
    if c.doy < |c.slots| then
      var x := AddNaN(c.before, v);
      Curve(c.slots[c.doy := x], c.doy + 1, x)
    else c
  }

  /** The state after the first `n` loop positions of the walk over `months`. */
  function CurveUpTo(g: seq<real>, years: nat, lo: int, hi: int, months: seq<int>, n: nat): Curve
    requires |g| == GridSize(years, 1) && n <= 31 * |months|
  {
    if n == 0 then CurveStart()
    else
      PositionInWalk(months, n - 1);
      var c := CurveUpTo(g, years, lo, hi, months, n - 1);
      var mc := months[(n - 1) / 31];
      var dc := (n - 1) % 31;
      if Visits(ValidationYear, mc, dc) then CurveStep(c, WindowMean(g, years, lo, hi, mc, dc)) else c
  }

  /** The curve a walk leaves behind. */
  function AverageCurveOf(g: seq<real>, years: nat, lo: int, hi: int, months: seq<int>): seq<Option<real>>
    requires |g| == GridSize(years, 1)
  {
    CurveUpTo(g, years, lo, hi, months, 31 * |months|).slots
  }

  /** The state holds the running sums of `vs` in its first slots, the
      initial value after them, and the last sum as its carry. */
  predicate CurveHolds(c: Curve, vs: seq<Option<real>>) {
    && |c.slots| == CurveLength && c.doy == |vs| && |vs| <= CurveLength
    && c.slots[..|vs|] == RunningNaN(vs)
    && (forall k :: |vs| <= k < CurveLength ==> c.slots[k] == Some(Unset))
    && c.before == (if vs == [] then Some(0.0) else RunningNaN(vs)[|vs| - 1])
  }

  /** One more visited day adds one running sum. */
  lemma CurveStepHolds(c: Curve, vs: seq<Option<real>>, v: Option<real>)
    requires CurveHolds(c, vs) && |vs| < CurveLength
    ensures CurveHolds(CurveStep(c, v), vs + [v])
  {
    var vs' := vs + [v];
    assert vs'[..|vs'| - 1] == vs;
    var c' := CurveStep(c, v);
    assert c'.slots[..|vs'|] == c.slots[..|vs|] + [c'.slots[|vs|]];
  }

  /** While the visited days fit the curve, the walk writes the running
      sums of their means, one slot per day. */
  lemma {:induction false} CurveIsRunningMeans(g: seq<real>, years: nat, lo: int, hi: int, months: seq<int>, n: nat)
    requires |g| == GridSize(years, 1) && n <= 31 * |months|
    requires |DatesUpTo(ValidationYear, months, n)| <= CurveLength
    ensures CurveHolds(CurveUpTo(g, years, lo, hi, months, n), Means(g, years, lo, hi, DatesUpTo(ValidationYear, months, n)))
  {
    if n > 0 {
      PositionInWalk(months, n - 1);
      var ds := DatesUpTo(ValidationYear, months, n - 1);
      var mc := months[(n - 1) / 31];
      var dc := (n - 1) % 31;
      assert |ds| <= |DatesUpTo(ValidationYear, months, n)|;
      CurveIsRunningMeans(g, years, lo, hi, months, n - 1);
      if Visits(ValidationYear, mc, dc) {
        var vs := Means(g, years, lo, hi, ds);
        var v := WindowMean(g, years, lo, hi, mc, dc);
        assert Means(g, years, lo, hi, ds + [Day(mc, dc)]) == vs + [v];
        assert DatesUpTo(ValidationYear, months, n) == ds + [Day(mc, dc)];
        CurveStepHolds(CurveUpTo(g, years, lo, hi, months, n - 1), vs, v);
      } else {
        assert DatesUpTo(ValidationYear, months, n) == ds;
      }
    }
  }

  /** The precipitation curve: 366 slots, slot `k` the running sum of the
      means of the first `k + 1` days of 2012 from January 1. */
  lemma PrecipitationCurve(g: seq<real>, years: nat, lo: int, hi: int)
    requires |g| == GridSize(years, 1)
    ensures |Dates(ValidationYear, CalendarMonths)| == CurveLength
    ensures AverageCurveOf(g, years, lo, hi, CalendarMonths) == RunningNaN(Means(g, years, lo, hi, Dates(ValidationYear, CalendarMonths)))
  {
    CalendarYear(ValidationYear);
    assert YearLength(ValidationYear) == CurveLength;
    assert 31 * |CalendarMonths| == 372;
    CurveIsRunningMeans(g, years, lo, hi, CalendarMonths, 372);
  }

  /** The snowfall curve: 366 slots from October 1, with no January and
      October a second time at slots 335 to 365. */
  lemma SnowfallCurve(g: seq<real>, years: nat, lo: int, hi: int)
    requires |g| == GridSize(years, 1)
    ensures |Dates(ValidationYear, SnowMonths)| == CurveLength
    ensures AverageCurveOf(g, years, lo, hi, SnowMonths) == RunningNaN(Means(g, years, lo, hi, Dates(ValidationYear, SnowMonths)))
  {
    SnowAverageDates();
    CurveIsRunningMeans(g, years, lo, hi, SnowMonths, 31 * |SnowMonths|);
  }

  /** The average loop: `average[day_of_year] = day_before + mean`, over
      the valid 2012 days of the month list. Answers the curve and the final
      `day_of_year` and `day_before`, which the snowfall routine carries on. */
  method AverageCurve(grid: array<real>, years: nat, lo: int, hi: int, months: seq<int>)
    returns (average: array<Option<real>>, doy: nat, before: Option<real>)
    requires grid.Length == GridSize(years, 1)
    ensures fresh(average)
    ensures Curve(average[..], doy, before) == CurveUpTo(grid[..], years, lo, hi, months, 31 * |months|)
  {
    average := new Option<real>[CurveLength](_ => Some(Unset));
    assert average[..] == CurveStart().slots;
    doy := 0;
    before := Some(0.0);
    var i := 0;
    while i < |months|
      invariant i <= |months| && average.Length == CurveLength
      invariant Curve(average[..], doy, before) == CurveUpTo(grid[..], years, lo, hi, months, 31 * i)
    {
      var mc := months[i];
      var dc := 0;
      while dc < 31
        invariant dc <= 31 && average.Length == CurveLength
        invariant Curve(average[..], doy, before) == CurveUpTo(grid[..], years, lo, hi, months, 31 * i + dc)
      {
        assert (31 * i + dc) / 31 == i && (31 * i + dc) % 31 == dc;
        if Visits(ValidationYear, mc, dc) {
          if doy < average.Length {
            var x := AddNaN(before, WindowMean(grid[..], years, lo, hi, mc, dc));
            average[doy] := x;
            before := x;
            doy := doy + 1;
          }
        }
        dc := dc + 1;
      }
      i := i + 1;
    }
  }
}
