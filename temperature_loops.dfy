/** The date walk of `plot_temperature` in `ghcnpy/plotting.py` as the
    in-place updates of the series and of `month_pos`, proved to leave them
    as `TemperatureWalk.WalkYears` describes. */
module TemperatureLoops {
  import opened PyModel
  import opened Calendar
  import opened DailyGrid
  import opened TemperatureStats
  import opened TemperatureWalk

  /** The `try` body for one day. */
  method WalkDay(tb: Tables, g: seq<real>, years: nat, slots: array<Slot>, ghost w: Walk,
                 dayIndex: nat, y: int, m: int, d: int)
    returns (dayIndex': nat)
    modifies slots
    requires Sized(tb) && |g| == GridSize(years, ElementCount)
    requires slots[..] == w.slots && dayIndex == w.dayIndex
    ensures slots[..] == DayStep(tb, g, years, w, y, m, d).slots
    ensures dayIndex' == DayStep(tb, g, years, w, y, m, d).dayIndex
  {
    dayIndex' := dayIndex;
    if IsValidDate(y, m, d) && dayIndex < slots.Length {
      var s := TablesAt(tb, slots[dayIndex], m, d);
      var row := NumpyIndex(y - BeginYear, years);
      if row.None? {
        slots[dayIndex] := s;
      } else {
        var yi := row.value;
        slots[dayIndex] := s.(rawMax := NonMiss(At(g, years, yi, m - 1, d - 1, TMax)),
                              rawMin := NonMiss(At(g, years, yi, m - 1, d - 1, TMin)));
        dayIndex' := dayIndex + 1;
      }
    }
  }

  /** One month: `month_pos[month_index] = day_index`, the day loop over
      `begin_dd .. end_dd`, and `month_index += 1`; the assignment to
      `month_pos` raises the IndexError when `month_index` is past it. */
  method WalkMonth(tb: Tables, g: seq<real>, years: nat, slots: array<Slot>, monthPos: array<int>, ghost w: Walk,
                   dayIndex: nat, monthIndex: nat, y: int, m: int, bd: int, ed: int)
    returns (dayIndex': nat, monthIndex': nat, failure: Option<Failure>)
    modifies slots, monthPos
    requires Sized(tb) && |g| == GridSize(years, ElementCount)
    requires slots[..] == w.slots && monthPos[..] == w.monthPos && dayIndex == w.dayIndex && monthIndex == w.monthIndex
    ensures failure.None? <==> MonthStep(tb, g, years, w, y, m, bd, ed).Ok?
    ensures failure.Some? ==> failure.value == IndexError
    ensures failure.None? ==>
      var v := MonthStep(tb, g, years, w, y, m, bd, ed).value;
      slots[..] == v.slots && monthPos[..] == v.monthPos && dayIndex' == v.dayIndex && monthIndex' == v.monthIndex
  {
    if monthIndex >= monthPos.Length {
      return dayIndex, monthIndex, Some(IndexError);
    }
    monthPos[monthIndex] := dayIndex;
    ghost var begun := w.(monthPos := w.monthPos[w.monthIndex := w.dayIndex]);
    ghost var cur := begun;
    dayIndex' := dayIndex;
    var d := bd;
    while d <= ed
      invariant d == bd || (bd <= d <= ed + 1)
      invariant cur == WalkDays(tb, g, years, begun, y, m, bd, d)
      invariant slots[..] == cur.slots && monthPos[..] == cur.monthPos && dayIndex' == cur.dayIndex
      decreases ed - d
    {
      dayIndex' := WalkDay(tb, g, years, slots, cur, dayIndex', y, m, d);
      cur := DayStep(tb, g, years, cur, y, m, d);
      d := d + 1;
    }
    monthIndex' := monthIndex + 1;
    failure := None;
  }

  /** The month loop of year `y` over `lo .. up`. */
  method WalkMonthsOf(tb: Tables, g: seq<real>, years: nat, slots: array<Slot>, monthPos: array<int>, ghost w: Walk,
                  dayIndex: nat, monthIndex: nat, y: int, lo: int, up: int, bd: int, ed: int)
    returns (dayIndex': nat, monthIndex': nat, failure: Option<Failure>)
    modifies slots, monthPos
    requires Sized(tb) && |g| == GridSize(years, ElementCount)
    requires slots[..] == w.slots && monthPos[..] == w.monthPos && dayIndex == w.dayIndex && monthIndex == w.monthIndex
    ensures failure.None? <==> WalkMonths(tb, g, years, w, y, lo, up, bd, ed).Ok?
    ensures failure.Some? ==> failure.value == IndexError
    ensures failure.None? ==>
      var v := WalkMonths(tb, g, years, w, y, lo, up, bd, ed).value;
      slots[..] == v.slots && monthPos[..] == v.monthPos && dayIndex' == v.dayIndex && monthIndex' == v.monthIndex
  {
    ghost var cur := w;
    dayIndex', monthIndex' := dayIndex, monthIndex;
    var m := lo;
    while m <= up
      invariant m == lo || (lo <= m <= up + 1)
      invariant WalkMonths(tb, g, years, w, y, lo, m - 1, bd, ed) == Ok(cur)
      invariant slots[..] == cur.slots && monthPos[..] == cur.monthPos
      invariant dayIndex' == cur.dayIndex && monthIndex' == cur.monthIndex
      decreases up - m
    {
      var f;
      dayIndex', monthIndex', f := WalkMonth(tb, g, years, slots, monthPos, cur, dayIndex', monthIndex', y, m, bd, ed);
      if f.Some? {
        MonthsErrStays(tb, g, years, w, y, lo, m, up, bd, ed);
        return dayIndex', monthIndex', f;
      }
      cur := MonthStep(tb, g, years, cur, y, m, bd, ed).value;
      m := m + 1;
    }
    failure := None;
  }

  /** The year loop of the walk, from the allocated series: `slots` and
      `monthPos` end as the walk leaves them, or the walk raised. */
  method GatherWindow(tb: Tables, g: seq<real>, years: nat, ds: Dates, numDays: nat, numMonths: nat)
    returns (slots: array<Slot>, monthPos: array<int>, failure: Option<Failure>)
    requires Sized(tb) && |g| == GridSize(years, ElementCount)
    ensures fresh(slots) && fresh(monthPos)
    ensures failure.None? <==> WalkYears(tb, g, years, Start(numDays, numMonths), ds, ds.endYY + 1).Ok?
    ensures failure.Some? ==> failure.value == IndexError
    ensures failure.None? ==>
      var v := WalkYears(tb, g, years, Start(numDays, numMonths), ds, ds.endYY + 1).value;
      slots[..] == v.slots && monthPos[..] == v.monthPos
  {
    var start := Start(numDays, numMonths);
    slots := new Slot[numDays](i requires 0 <= i < numDays => start.slots[i]);
    monthPos := new int[numMonths](i requires 0 <= i < numMonths => start.monthPos[i]);
    assert slots[..] == start.slots;
    assert monthPos[..] == start.monthPos;
    ghost var cur := start;
    var dayIndex, monthIndex := start.dayIndex, start.monthIndex;
    var y := ds.beginYY;
    while y <= ds.endYY
      invariant y == ds.beginYY || (ds.beginYY <= y <= ds.endYY + 1)
      invariant WalkYears(tb, g, years, start, ds, y) == Ok(cur)
      invariant slots[..] == cur.slots && monthPos[..] == cur.monthPos
      invariant dayIndex == cur.dayIndex && monthIndex == cur.monthIndex
      decreases ds.endYY - y
    {
      var f;
      dayIndex, monthIndex, f := WalkMonthsOf(tb, g, years, slots, monthPos, cur, dayIndex, monthIndex,
                                              y, StartMonth(ds, y), EndMonth(ds, y), ds.beginDD, ds.endDD);
      if f.Some? {
        YearsErrStays(tb, g, years, start, ds, y + 1, ds.endYY + 1);
        return slots, monthPos, f;
      }
      assert WalkYears(tb, g, years, start, ds, y + 1) == WalkYear(tb, g, years, cur, ds, y);
      cur := WalkYear(tb, g, years, cur, ds, y).value;
      y := y + 1;
    }
    if y != ds.endYY + 1 {
      assert WalkYears(tb, g, years, start, ds, ds.endYY + 1) == Ok(start);
    }
    failure := None;
  }
}
