/** Which date fills which slot of the date walk of `plot_temperature`.
    The dates the three nested loops visit are listed independently of
    the walk: the years `begin_yy .. end_yy`, in each the months
    `start_month .. end_month`, in each the days `begin_dd .. end_dd`,
    and of those only the dates `datetime` accepts. When the visited
    years are all rows of the grid, slot `k` of the series holds the
    statistics and the raw values of the `k`-th visited date, and the
    slots after the last visited date keep their `-9999.0`. */
module TemperatureVisits {
  import opened PyModel
  import opened Calendar
  import opened DailyGrid
  import opened TemperatureStats
  import opened TemperatureWalk

  /** One date the walk visits. */
  datatype Visit = Visit(year: int, month: int, day: int)

  predicate Valid(v: Visit) {
    IsValidDate(v.year, v.month, v.day)
  }

  /** The date `(y, m, d)` when `datetime` accepts it. */
  function DayVisit(y: int, m: int, d: int): (r: seq<Visit>)
    ensures |r| <= 1
  {
    if IsValidDate(y, m, d) then [Visit(y, m, d)] else []
  }

  /** The accepted dates of days `lo .. hi - 1` of month `m` of year `y`. */
  function DaysVisited(y: int, m: int, lo: int, hi: int): seq<Visit>
    decreases hi - lo
  {
    if hi <= lo then [] else DaysVisited(y, m, lo, hi - 1) + DayVisit(y, m, hi - 1)
  }

  /** The accepted dates of months `lo .. hi` of year `y`, each over the
      days `bd .. ed`. */
  function MonthsVisited(y: int, lo: int, hi: int, bd: int, ed: int): seq<Visit>
    decreases hi - lo
  {
    if hi < lo then [] else MonthsVisited(y, lo, hi - 1, bd, ed) + DaysVisited(y, hi, bd, ed + 1)
  }

  /** The accepted dates of the years `begin_yy .. hi - 1`. */
  function YearsVisited(ds: Dates, hi: int): seq<Visit>
    decreases hi - ds.beginYY
  {
    if hi <= ds.beginYY then []
    else YearsVisited(ds, hi - 1) + MonthsVisited(hi - 1, StartMonth(ds, hi - 1), EndMonth(ds, hi - 1), ds.beginDD, ds.endDD)
  }

  /** Every date the walk of the request visits, in visiting order. */
  function VisitedDates(ds: Dates): seq<Visit> {
    YearsVisited(ds, ds.endYY + 1)
  }

  /** Year `y` is a row of the grid. */
  predicate InGrid(years: nat, y: int) {
    0 <= y - BeginYear < years
  }

  /** What the walk writes for date `v`: the calendar day's record maximum
      and minimum, its two window averages, and the year's raw TMAX and
      TMIN. */
  function SlotOf(tb: Tables, g: seq<real>, years: nat, v: Visit): Slot
    requires Sized(tb) && |g| == GridSize(years, ElementCount)
  {
    if Valid(v) && InGrid(years, v.year) then
      var k := Entry(v.month - 1, v.day - 1);
      Slot(tb.recordMax[k], tb.recordMin[k], tb.averageMax[k], tb.averageMin[k],
           NonMiss(At(g, years, v.year - BeginYear, v.month - 1, v.day - 1, TMax)),
           NonMiss(At(g, years, v.year - BeginYear, v.month - 1, v.day - 1, TMin)))
    else Blank()
  }

  /** The series hold the dates `vs` in order, as far as they fit:
      `day_index` has moved past them, each slot before it holds its
      date's values, and every slot after it is still blank. */
  predicate Filled(tb: Tables, g: seq<real>, years: nat, w: Walk, vs: seq<Visit>)
    requires Sized(tb) && |g| == GridSize(years, ElementCount)
  {
    && w.dayIndex == Min(|vs|, |w.slots|)
    && (forall k :: 0 <= k < w.dayIndex ==> w.slots[k] == SlotOf(tb, g, years, vs[k]))
    && (forall k :: w.dayIndex <= k < |w.slots| ==> w.slots[k] == Blank())
  }

  lemma AppendAssoc(a: seq<Visit>, b: seq<Visit>, c: seq<Visit>)
    ensures (a + b) + c == a + (b + c)
  {
  }

  /** Freshly allocated series hold no date. */
  lemma StartFilled(tb: Tables, g: seq<real>, years: nat, numDays: nat, numMonths: nat)
    requires Sized(tb) && |g| == GridSize(years, ElementCount)
    ensures Filled(tb, g, years, Start(numDays, numMonths), [])
  {
  }

  // ---------------------------------------------------------------------
  // The walk fills the series with the visited dates

  /** One day of a grid year appends its date, when valid, to what the
      series hold. */
  lemma DayFills(tb: Tables, g: seq<real>, years: nat, w: Walk, vs: seq<Visit>, y: int, m: int, d: int)
    requires Sized(tb) && |g| == GridSize(years, ElementCount)
    requires Filled(tb, g, years, w, vs) && InGrid(years, y)
    ensures Filled(tb, g, years, DayStep(tb, g, years, w, y, m, d), vs + DayVisit(y, m, d))
  {
    if !IsValidDate(y, m, d) {
      assert vs + DayVisit(y, m, d) == vs;
    } else if w.dayIndex < |w.slots| {
      RoomFilled(tb, g, years, w, vs, Visit(y, m, d));
    } else {
      assert w.dayIndex == |w.slots| <= |vs|;
    }
  }

  /** With room left, the date goes into slot `day_index`. */
  lemma RoomFilled(tb: Tables, g: seq<real>, years: nat, w: Walk, vs: seq<Visit>, v: Visit)
    requires Sized(tb) && |g| == GridSize(years, ElementCount)
    requires Filled(tb, g, years, w, vs) && InGrid(years, v.year) && Valid(v) && w.dayIndex < |w.slots|
    ensures Filled(tb, g, years, DayStep(tb, g, years, w, v.year, v.month, v.day), vs + [v])
  {
    assert w.dayIndex == |vs|;
    DayWritten(tb, g, years, w, v.year, v.month, v.day);
    var w' := w.(slots := w.slots[|vs| := SlotOf(tb, g, years, v)], dayIndex := |vs| + 1);
    assert DayStep(tb, g, years, w, v.year, v.month, v.day) == w';
    var vs' := vs + [v];
    forall k | 0 <= k < w'.dayIndex
      ensures w'.slots[k] == SlotOf(tb, g, years, vs'[k])
    {
      if k < |vs| {
        assert vs'[k] == vs[k];
      }
    }
  }

  lemma {:induction false} DaysFill(tb: Tables, g: seq<real>, years: nat, w: Walk, vs: seq<Visit>, y: int, m: int, lo: int, hi: int)
    requires Sized(tb) && |g| == GridSize(years, ElementCount)
    requires Filled(tb, g, years, w, vs) && InGrid(years, y)
    ensures Filled(tb, g, years, WalkDays(tb, g, years, w, y, m, lo, hi), vs + DaysVisited(y, m, lo, hi))
    decreases hi - lo
  {
    if hi <= lo {
      assert vs + DaysVisited(y, m, lo, hi) == vs;
    } else {
      var before := WalkDays(tb, g, years, w, y, m, lo, hi - 1);
      DaysFill(tb, g, years, w, vs, y, m, lo, hi - 1);
      DayFills(tb, g, years, before, vs + DaysVisited(y, m, lo, hi - 1), y, m, hi - 1);
      AppendAssoc(vs, DaysVisited(y, m, lo, hi - 1), DayVisit(y, m, hi - 1));
    }
  }

  /** A month that runs appends its days' dates; neither `month_pos` nor
      `month_index` touches the series. */
  lemma MonthFills(tb: Tables, g: seq<real>, years: nat, w: Walk, vs: seq<Visit>, y: int, m: int, bd: int, ed: int)
    requires Sized(tb) && |g| == GridSize(years, ElementCount)
    requires Filled(tb, g, years, w, vs) && InGrid(years, y)
    requires MonthStep(tb, g, years, w, y, m, bd, ed).Ok?
    ensures Filled(tb, g, years, MonthStep(tb, g, years, w, y, m, bd, ed).value, vs + DaysVisited(y, m, bd, ed + 1))
  {
    var begun := w.(monthPos := w.monthPos[w.monthIndex := w.dayIndex]);
    assert Filled(tb, g, years, begun, vs);
    DaysFill(tb, g, years, begun, vs, y, m, bd, ed + 1);
  }

  lemma {:induction false} MonthsFill(tb: Tables, g: seq<real>, years: nat, w: Walk, vs: seq<Visit>, y: int, lo: int, hi: int, bd: int, ed: int)
    requires Sized(tb) && |g| == GridSize(years, ElementCount)
    requires Filled(tb, g, years, w, vs) && InGrid(years, y)
    requires WalkMonths(tb, g, years, w, y, lo, hi, bd, ed).Ok?
    ensures Filled(tb, g, years, WalkMonths(tb, g, years, w, y, lo, hi, bd, ed).value, vs + MonthsVisited(y, lo, hi, bd, ed))
    decreases hi - lo
  {
    if hi < lo {
      assert vs + MonthsVisited(y, lo, hi, bd, ed) == vs;
    } else {
      var before := WalkMonths(tb, g, years, w, y, lo, hi - 1, bd, ed);
      assert before.Ok?;
      MonthsFill(tb, g, years, w, vs, y, lo, hi - 1, bd, ed);
      MonthFills(tb, g, years, before.value, vs + MonthsVisited(y, lo, hi - 1, bd, ed), y, hi, bd, ed);
      assert WalkMonths(tb, g, years, w, y, lo, hi, bd, ed) == MonthStep(tb, g, years, before.value, y, hi, bd, ed);
      assert MonthsVisited(y, lo, hi, bd, ed) == MonthsVisited(y, lo, hi - 1, bd, ed) + DaysVisited(y, hi, bd, ed + 1);
      AppendAssoc(vs, MonthsVisited(y, lo, hi - 1, bd, ed), DaysVisited(y, hi, bd, ed + 1));
    }
  }

  /** A year that runs appends the dates of its months. */
  lemma YearFills(tb: Tables, g: seq<real>, years: nat, w: Walk, vs: seq<Visit>, ds: Dates, y: int)
    requires Sized(tb) && |g| == GridSize(years, ElementCount)
    requires Filled(tb, g, years, w, vs) && InGrid(years, y)
    requires WalkYear(tb, g, years, w, ds, y).Ok?
    ensures Filled(tb, g, years, WalkYear(tb, g, years, w, ds, y).value,
                   vs + MonthsVisited(y, StartMonth(ds, y), EndMonth(ds, y), ds.beginDD, ds.endDD))
  {
    MonthsFill(tb, g, years, w, vs, y, StartMonth(ds, y), EndMonth(ds, y), ds.beginDD, ds.endDD);
  }

  lemma {:induction false} YearsFill(tb: Tables, g: seq<real>, years: nat, w: Walk, vs: seq<Visit>, ds: Dates, hi: int)
    requires Sized(tb) && |g| == GridSize(years, ElementCount)
    requires Filled(tb, g, years, w, vs) && BeginYear <= ds.beginYY && hi <= BeginYear + years
    requires WalkYears(tb, g, years, w, ds, hi).Ok?
    ensures Filled(tb, g, years, WalkYears(tb, g, years, w, ds, hi).value, vs + YearsVisited(ds, hi))
    decreases hi - ds.beginYY
  {
    if hi <= ds.beginYY {
      assert vs + YearsVisited(ds, hi) == vs;
    } else {
      var y := hi - 1;
      var before := WalkYears(tb, g, years, w, ds, y);
      var months := MonthsVisited(y, StartMonth(ds, y), EndMonth(ds, y), ds.beginDD, ds.endDD);
      assert before.Ok?;
      YearsFill(tb, g, years, w, vs, ds, y);
      YearFills(tb, g, years, before.value, vs + YearsVisited(ds, y), ds, y);
      assert WalkYears(tb, g, years, w, ds, hi) == WalkYear(tb, g, years, before.value, ds, y);
      assert (vs + YearsVisited(ds, y)) + months == vs + YearsVisited(ds, hi) by {
        AppendAssoc(vs, YearsVisited(ds, y), months);
      }
    }
  }

  // ---------------------------------------------------------------------
  // Which dates are visited

  lemma {:induction false} DaysMembers(y: int, m: int, lo: int, hi: int, v: Visit)
    ensures v in DaysVisited(y, m, lo, hi) <==> v.year == y && v.month == m && lo <= v.day < hi && Valid(v)
    decreases hi - lo
  {
    if hi > lo {
      DaysMembers(y, m, lo, hi - 1, v);
    }
  }

  lemma {:induction false} MonthsMembers(y: int, lo: int, hi: int, bd: int, ed: int, v: Visit)
    ensures v in MonthsVisited(y, lo, hi, bd, ed) <==>
      v.year == y && lo <= v.month <= hi && bd <= v.day <= ed && Valid(v)
    decreases hi - lo
  {
    if hi >= lo {
      MonthsMembers(y, lo, hi - 1, bd, ed, v);
      DaysMembers(y, hi, bd, ed + 1, v);
    }
  }

  lemma {:induction false} YearsMembers(ds: Dates, hi: int, v: Visit)
    ensures v in YearsVisited(ds, hi) <==>
      ds.beginYY <= v.year < hi && StartMonth(ds, v.year) <= v.month <= EndMonth(ds, v.year)
      && ds.beginDD <= v.day <= ds.endDD && Valid(v)
    decreases hi - ds.beginYY
  {
    if hi > ds.beginYY {
      YearsMembers(ds, hi - 1, v);
      MonthsMembers(hi - 1, StartMonth(ds, hi - 1), EndMonth(ds, hi - 1), ds.beginDD, ds.endDD, v);
    }
  }

  /** A date is visited exactly when `datetime` accepts it, its year lies
      in `begin_yy .. end_yy`, its month in that year's `start_month ..
      end_month`, and its day in `begin_dd .. end_dd`. */
  lemma VisitedExactly(ds: Dates, v: Visit)
    ensures v in VisitedDates(ds) <==>
      ds.beginYY <= v.year <= ds.endYY && StartMonth(ds, v.year) <= v.month <= EndMonth(ds, v.year)
      && ds.beginDD <= v.day <= ds.endDD && Valid(v)
  {
    YearsMembers(ds, ds.endYY + 1, v);
  }

  /** With `begin_dd` past 1 the walk visits no first day of any month:
      every month is walked over the days `begin_dd .. end_dd` only, not
      just the first one. */
  lemma NoFirstDays(ds: Dates, v: Visit)
    requires 1 < ds.beginDD && v in VisitedDates(ds)
    ensures v.day != 1
  {
    VisitedExactly(ds, v);
  }

  /** With `begin_dd` past `end_dd` the walk visits no date at all. */
  lemma NothingVisited(ds: Dates)
    requires ds.endDD < ds.beginDD
    ensures VisitedDates(ds) == []
  {
    if VisitedDates(ds) != [] {
      VisitedExactly(ds, VisitedDates(ds)[0]);
    }
  }

  // ---------------------------------------------------------------------
  // The visited dates are in date order and fit into the series

  /** `a` is an earlier date than `b`. */
  predicate Earlier(a: Visit, b: Visit) {
    a.year < b.year || (a.year == b.year && (a.month < b.month || (a.month == b.month && a.day < b.day)))
  }

  predicate Ascending(vs: seq<Visit>) {
    forall i, j :: 0 <= i < j < |vs| ==> Earlier(vs[i], vs[j])
  }

  lemma AscendingConcat(a: seq<Visit>, b: seq<Visit>)
    requires Ascending(a) && Ascending(b)
    requires forall i, j :: 0 <= i < |a| && 0 <= j < |b| ==> Earlier(a[i], b[j])
    ensures Ascending(a + b)
  {
    forall i, j | 0 <= i < j < |a + b|
      ensures Earlier((a + b)[i], (a + b)[j])
    {
      if j < |a| {
        assert (a + b)[i] == a[i] && (a + b)[j] == a[j];
      } else if i < |a| {
        assert (a + b)[i] == a[i] && (a + b)[j] == b[j - |a|];
      } else {
        assert (a + b)[i] == b[i - |a|] && (a + b)[j] == b[j - |a|];
      }
    }
  }

  lemma {:induction false} DaysAscending(y: int, m: int, lo: int, hi: int)
    ensures Ascending(DaysVisited(y, m, lo, hi))
    decreases hi - lo
  {
    if hi > lo {
      var a := DaysVisited(y, m, lo, hi - 1);
      DaysAscending(y, m, lo, hi - 1);
      forall i | 0 <= i < |a|
        ensures a[i].day < hi - 1 && a[i].year == y && a[i].month == m
      {
        DaysMembers(y, m, lo, hi - 1, a[i]);
      }
      AscendingConcat(a, DayVisit(y, m, hi - 1));
    }
  }

  lemma {:induction false} MonthsAscending(y: int, lo: int, hi: int, bd: int, ed: int)
    ensures Ascending(MonthsVisited(y, lo, hi, bd, ed))
    decreases hi - lo
  {
    if hi >= lo {
      var a := MonthsVisited(y, lo, hi - 1, bd, ed);
      var b := DaysVisited(y, hi, bd, ed + 1);
      MonthsAscending(y, lo, hi - 1, bd, ed);
      DaysAscending(y, hi, bd, ed + 1);
      forall i, j | 0 <= i < |a| && 0 <= j < |b|
        ensures Earlier(a[i], b[j])
      {
        MonthsMembers(y, lo, hi - 1, bd, ed, a[i]);
        DaysMembers(y, hi, bd, ed + 1, b[j]);
      }
      AscendingConcat(a, b);
    }
  }

  lemma {:induction false} YearsAscending(ds: Dates, hi: int)
    ensures Ascending(YearsVisited(ds, hi))
    decreases hi - ds.beginYY
  {
    if hi > ds.beginYY {
      var y := hi - 1;
      var a := YearsVisited(ds, y);
      var b := MonthsVisited(y, StartMonth(ds, y), EndMonth(ds, y), ds.beginDD, ds.endDD);
      YearsAscending(ds, y);
      MonthsAscending(y, StartMonth(ds, y), EndMonth(ds, y), ds.beginDD, ds.endDD);
      forall i, j | 0 <= i < |a| && 0 <= j < |b|
        ensures Earlier(a[i], b[j])
      {
        YearsMembers(ds, y, a[i]);
        MonthsMembers(y, StartMonth(ds, y), EndMonth(ds, y), ds.beginDD, ds.endDD, b[j]);
      }
      AscendingConcat(a, b);
    }
  }

  /** The walk visits dates in strictly increasing date order, so none
      twice. */
  lemma VisitedAscending(ds: Dates)
    ensures Ascending(VisitedDates(ds))
  {
    YearsAscending(ds, ds.endYY + 1);
  }

  function OrdinalOf(v: Visit): int
    requires Valid(v)
  {
    Ordinal(v.year, v.month, v.day)
  }

  /** `date.toordinal` follows date order. */
  lemma OrdinalEarlier(a: Visit, b: Visit)
    requires Valid(a) && Valid(b) && Earlier(a, b)
    ensures OrdinalOf(a) < OrdinalOf(b)
  {
    if a.year < b.year {
      YearsOrdered(a.year, b.year);
    } else {
      DayOfYearOrdered(a.year, a.month, a.day, b.month, b.day);
    }
  }

  /** Dates in increasing order whose ordinals lie in `lo .. hi` are at
      most `hi - lo + 1`. */
  lemma {:induction false} AscendingWithin(vs: seq<Visit>, lo: int, hi: int)
    requires Ascending(vs)
    requires forall k :: 0 <= k < |vs| ==> Valid(vs[k]) && lo <= OrdinalOf(vs[k]) <= hi
    ensures |vs| <= Max(hi - lo + 1, 0)
    ensures |vs| > 0 ==> lo + |vs| - 1 <= OrdinalOf(vs[|vs| - 1])
    decreases |vs|
  {
    if |vs| > 1 {
      var front := vs[..|vs| - 1];
      assert Ascending(front);
      AscendingWithin(front, lo, hi);
      OrdinalEarlier(vs[|vs| - 2], vs[|vs| - 1]);
    }
  }

  /** Every visited date lies between the begin and end dates, when the
      walk does not raise. */
  lemma VisitedInSpan(ds: Dates, v: Visit)
    requires IsValidDate(ds.beginYY, ds.beginMM, ds.beginDD) && IsValidDate(ds.endYY, ds.endMM, ds.endDD)
    requires ds.beginYY == ds.endYY ==> ds.endMM == 12
    requires v in VisitedDates(ds)
    ensures Valid(v)
    ensures Ordinal(ds.beginYY, ds.beginMM, ds.beginDD) <= OrdinalOf(v) <= Ordinal(ds.endYY, ds.endMM, ds.endDD)
  {
    VisitedExactly(ds, v);
    var b := Visit(ds.beginYY, ds.beginMM, ds.beginDD);
    var e := Visit(ds.endYY, ds.endMM, ds.endDD);
    if v != b {
      OrdinalEarlier(b, v);
    }
    if v != e {
      OrdinalEarlier(v, e);
    }
  }

  /** A walk that does not raise visits at most `num_days` dates. */
  lemma VisitedFit(ds: Dates)
    requires IsValidDate(ds.beginYY, ds.beginMM, ds.beginDD) && IsValidDate(ds.endYY, ds.endMM, ds.endDD)
    requires ds.beginYY == ds.endYY ==> ds.endMM == 12
    ensures |VisitedDates(ds)| <= Max(Ordinal(ds.endYY, ds.endMM, ds.endDD) - Ordinal(ds.beginYY, ds.beginMM, ds.beginDD) + 1, 0)
  {
    var vs := VisitedDates(ds);
    VisitedAscending(ds);
    forall k | 0 <= k < |vs|
      ensures Valid(vs[k])
      ensures Ordinal(ds.beginYY, ds.beginMM, ds.beginDD) <= OrdinalOf(vs[k]) <= Ordinal(ds.endYY, ds.endMM, ds.endDD)
    {
      VisitedInSpan(ds, vs[k]);
    }
    AscendingWithin(vs, Ordinal(ds.beginYY, ds.beginMM, ds.beginDD), Ordinal(ds.endYY, ds.endMM, ds.endDD));
  }

  // ---------------------------------------------------------------------
  // The contents of the series

  /** When the walk does not raise and every year it visits is a row of
      the grid, `day_index` ends at the number of visited dates, which is
      at most `num_days`; slot `k` below it holds the values of the `k`-th
      visited date and every later slot is still blank. */
  lemma {:induction false} WalkContents(tb: Tables, g: seq<real>, years: nat, ds: Dates)
    requires Sized(tb) && |g| == GridSize(years, ElementCount)
    requires WindowFrom(tb, g, years, ds).Ok?
    requires BeginYear <= ds.beginYY && ds.endYY < BeginYear + years
    ensures Counts(ds).Ok? && |WindowFrom(tb, g, years, ds).value.slots| == Counts(ds).value.0
    ensures WindowFrom(tb, g, years, ds).value.dayIndex == |VisitedDates(ds)| <= Counts(ds).value.0
    ensures Filled(tb, g, years, WindowFrom(tb, g, years, ds).value, VisitedDates(ds))
  {
    var c := Counts(ds);
    assert c.Ok?;
    var (numDays, numMonths) := c.value;
    OneYearEndsInDecember(tb, g, years, ds);
    VisitedFit(ds);
    StartFilled(tb, g, years, numDays, numMonths);
    YearsFill(tb, g, years, Start(numDays, numMonths), [], ds, ds.endYY + 1);
    assert [] + VisitedDates(ds) == VisitedDates(ds);
  }

  /** A walk that does not raise and begins and ends in one year ends in
      December. */
  lemma OneYearEndsInDecember(tb: Tables, g: seq<real>, years: nat, ds: Dates)
    requires Sized(tb) && |g| == GridSize(years, ElementCount)
    requires WindowFrom(tb, g, years, ds).Ok?
    ensures Counts(ds).Ok?
    ensures ds.beginYY == ds.endYY ==> ds.endMM == 12
  {
    var c := Counts(ds);
    assert c.Ok?;
    if ds.beginYY == ds.endYY {
      YearsFit(tb, g, years, Start(c.value.0, c.value.1), ds, ds.endYY + 1);
      MonthsOfSpan(ds, ds.endYY + 1);
    }
  }
}
