/** The per-year accumulation tables of `plot_precipitation` and
    `plot_snowfall` in `ghcnpy/plotting.py`. A table row holds the running
    sum of the daily values over the valid dates it covers, one slot per
    date, and zeros after; a second table holds each row's last sum.

    Precipitation rows are calendar years: the carry resets at the start of
    every year. Snowfall rows are seasons: the carry resets before each
    October, into the next row, so row `r` holds October to December of
    year `r - 1` followed by January to September of year `r`, and after
    each December a row whose slot 365 is still zero gets slot 364 copied
    into it. The two-dimensional numpy table is a sequence of rows here,
    the totals a sequence with one entry per row. */
module Accumulations {
  import opened PyModel
  import opened Calendar
  import opened DayWalk
  import opened DailyGrid
  import Averages

  /** `begin_year`. */
  const BeginYear := 1895

  /** `num_days`: the slots of a row. */
  const Days := 366

  datatype Plan = Precipitation | Snowfall

  /** The tables, row by row, and the carried variables `new_year_counter`
      (the row written; `year_counter` for precipitation), `day_of_year`
      and `day_before`. */
  datatype Acc = Acc(rows: seq<seq<real>>, totals: seq<real>, target: nat, doy: nat, before: real)

  /** `n` zeros. */
  function Pad(n: nat): (z: seq<real>)
    ensures |z| == n
  {
    seq(n, _ => 0.0)
  }

  /** A row of zeros. */
  function Zeros(): (z: seq<real>)
    ensures |z| == Days
  {
    Pad(Days)
  }

  /** Precipitation has a row per year, snowfall one more. */
  function Rows(plan: Plan, years: nat): nat {
    if plan == Precipitation then years else years + 1
  }

  /** `np.zeros` for both tables, with the carried variables as the
      preceding average loop left them. */
  function Start(plan: Plan, years: nat, doy0: nat, before0: real): (a: Acc)
    ensures |a.rows| == Rows(plan, years) && |a.totals| == Rows(plan, years)
  {
    Acc(seq(Rows(plan, years), _ => Zeros()), seq(Rows(plan, years), _ => 0.0), 0, doy0, before0)
  }

  /** One visited day: slot `day_of_year` of the row gets the carry plus the
      value, which also becomes the row's total and the new carry; a slot
      or row outside the tables is the IndexError the `try` swallows. */
  function WriteOne(a: Acc, v: real): (r: Acc)
    ensures |r.rows| == |a.rows| && |r.totals| == |a.totals|
  {
    if a.target < |a.rows| && a.target < |a.totals| && a.doy < |a.rows[a.target]| then
      var x := a.before + v;
      Acc(a.rows[a.target := a.rows[a.target][a.doy := x]], a.totals[a.target := x], a.target, a.doy + 1, x)
    else a
  }

  /** Writing the values `vs` one after the other. */
  function Extend(a: Acc, vs: seq<real>): (r: Acc)
    ensures |r.rows| == |a.rows| && |r.totals| == |a.totals|
  {
    if vs == [] then a else WriteOne(Extend(a, vs[..|vs| - 1]), vs[|vs| - 1])
  }

  /** The sum of `vs`. */
  function Sum(vs: seq<real>): real {
    if vs == [] then 0.0 else Sum(vs[..|vs| - 1]) + vs[|vs| - 1]
  }

  /** The running sums of `vs`: each slot the one before plus its value,
      the last one the total. */
  function RunningSum(vs: seq<real>): (r: seq<real>)
    ensures |r| == |vs|
    ensures |vs| > 0 ==> r[|vs| - 1] == Sum(vs)
  {
    if vs == [] then [] else RunningSum(vs[..|vs| - 1]) + [Sum(vs)]
  }

  /** The first running sum is the first value; each later one is the one
      before plus its value. */
  lemma {:induction false} RunningStep(vs: seq<real>, k: nat)
    requires k < |vs|
    ensures k == 0 ==> RunningSum(vs)[0] == vs[0]
    ensures k > 0 ==> RunningSum(vs)[k] == RunningSum(vs)[k - 1] + vs[k]
  {
    var front := vs[..|vs| - 1];
    if k + 1 < |vs| {
      RunningStep(front, k);
      if k > 0 {
        assert front[k] == vs[k];
      }
    } else if k == 0 {
      assert front == [];
    } else {
      assert Sum(vs) == Sum(front) + vs[k];
    }
  }

  /** Slot `k` of the running sums is the sum of the first `k + 1` values. */
  lemma {:induction false} RunningIsPrefixSum(vs: seq<real>, k: nat)
    requires k < |vs|
    ensures RunningSum(vs)[k] == Sum(vs[..k + 1])
  {
    if k + 1 < |vs| {
      RunningIsPrefixSum(vs[..|vs| - 1], k);
      assert vs[..|vs| - 1][..k + 1] == vs[..k + 1];
    } else {
      assert vs[..k + 1] == vs;
    }
  }

  /** With no negative value the running sums never decrease and are never
      negative. */
  lemma RunningNonDecreasing(vs: seq<real>)
    requires forall k :: 0 <= k < |vs| ==> vs[k] >= 0.0
    ensures forall i, j :: 0 <= i <= j < |vs| ==> 0.0 <= RunningSum(vs)[i] <= RunningSum(vs)[j]
  {
    var r := RunningSum(vs);
    forall j | 0 <= j < |vs|
      ensures forall i :: 0 <= i <= j ==> 0.0 <= r[i] <= r[j]
    {
      RunningStepUp(vs, j);
    }
  }

  lemma {:induction false} RunningStepUp(vs: seq<real>, j: nat)
    requires j < |vs|
    requires forall k :: 0 <= k < |vs| ==> vs[k] >= 0.0
    ensures forall i :: 0 <= i <= j ==> 0.0 <= RunningSum(vs)[i] <= RunningSum(vs)[j]
  {
    RunningStep(vs, j);
    if j > 0 {
      RunningStepUp(vs, j - 1);
    }
  }

  /** Running sums over two runs of values: the first run's sums, then the
      second run's sums on top of the first run's total. */
  lemma {:induction false} RunningConcat(u: seq<real>, w: seq<real>)
    ensures forall k :: 0 <= k < |u| ==> RunningSum(u + w)[k] == RunningSum(u)[k]
    ensures forall k :: 0 <= k < |w| ==> RunningSum(u + w)[|u| + k] == Sum(u) + RunningSum(w)[k]
    ensures Sum(u + w) == Sum(u) + Sum(w)
    decreases |w|
  {
    if w == [] {
      assert u + w == u;
    } else {
      var w' := w[..|w| - 1];
      RunningConcat(u, w');
      assert (u + w)[..|u + w| - 1] == u + w';
    }
  }

  /** The row holding the running sums of `vs`, zeros after them. */
  function ExpectedRow(vs: seq<real>): (row: seq<real>)
    requires |vs| <= Days
    ensures |row| == Days
  {
    RunningSum(vs) + Pad(Days - |vs|)
  }

  /** Slot `k` of an expected row: the `k`-th running sum, or zero after
      the values. */
  lemma ExpectedRowShape(vs: seq<real>)
    requires |vs| <= Days
    ensures forall k :: 0 <= k < |vs| ==> ExpectedRow(vs)[k] == RunningSum(vs)[k]
    ensures forall k :: |vs| <= k < Days ==> ExpectedRow(vs)[k] == 0.0
  {
  }

  lemma ExpectedEmpty()
    ensures ExpectedRow([]) == Zeros()
  {
    assert [] + Pad(Days) == Pad(Days);
  }

  lemma UpdateAt(p: seq<real>, c: real, q: seq<real>, x: real)
    ensures (p + [c] + q)[|p| := x] == p + [x] + q
  {
    var l := (p + [c] + q)[|p| := x];
    var r := p + [x] + q;
    forall k | 0 <= k < |l|
      ensures l[k] == r[k]
    {
    }
  }

  lemma ConcatAssoc(a: seq<real>, b: seq<real>, c: seq<real>)
    ensures a + (b + c) == (a + b) + c
  {
  }

  lemma PadSplit(n: nat)
    requires n > 0
    ensures Pad(n) == [0.0] + Pad(n - 1)
  {
  }

  /** Writing one more running sum into an expected row. */
  lemma ExpectedRowStep(u: seq<real>, v: real)
    requires |u| < Days
    ensures ExpectedRow(u)[|u| := Sum(u) + v] == ExpectedRow(u + [v])
  {
    var w := u + [v];
    assert w[..|w| - 1] == u;
    assert Sum(w) == Sum(u) + v;
    assert RunningSum(w) == RunningSum(u) + [Sum(w)];
    var z := Pad(Days - |u| - 1);
    PadSplit(Days - |u|);
    ConcatAssoc(RunningSum(u), [0.0], z);
    UpdateAt(RunningSum(u), 0.0, z, Sum(w));
  }

  /** While the values fit the row, writing them turns a row holding the
      running sums of `pre`, with the carry at their total, into the
      running sums of `pre + vs`, and sets the row's total. */
  lemma {:induction false} ExtendEffect(a: Acc, pre: seq<real>, vs: seq<real>)
    requires a.target < |a.rows| && a.target < |a.totals|
    requires |pre| == a.doy && a.before == Sum(pre) && |pre| + |vs| <= Days
    requires a.rows[a.target] == ExpectedRow(pre)
    ensures Extend(a, vs)
            == Acc(a.rows[a.target := ExpectedRow(pre + vs)],
                   if vs == [] then a.totals else a.totals[a.target := Sum(pre + vs)],
                   a.target, a.doy + |vs|, Sum(pre + vs))
  {
    if vs == [] {
      assert pre + vs == pre;
    } else {
      var front := vs[..|vs| - 1];
      var v := vs[|vs| - 1];
      ExtendEffect(a, pre, front);
      var u := pre + front;
      var b := Extend(a, front);
      assert b == Acc(a.rows[a.target := ExpectedRow(u)],
                      if front == [] then a.totals else a.totals[a.target := Sum(u)],
                      a.target, a.doy + |front|, Sum(u));
      assert Extend(a, vs) == WriteOne(b, v);
      ExpectedRowStep(u, v);
      assert pre + vs == u + [v];
      assert (u + [v])[..|u|] == u;
      assert Sum(pre + vs) == Sum(u) + v;
    }
  }
  /** Writing into a zero row from a zero carry: the row becomes the
      running sums of the values and its total their sum. */
  lemma ExtendFresh(a: Acc, vs: seq<real>)
    requires a.target < |a.rows| && a.target < |a.totals| && |vs| <= Days
    requires a.doy == 0 && a.before == 0.0 && a.rows[a.target] == Zeros() && a.totals[a.target] == 0.0
    ensures Extend(a, vs) == Acc(a.rows[a.target := ExpectedRow(vs)], a.totals[a.target := Sum(vs)], a.target, |vs|, Sum(vs))
  {
    ExpectedEmpty();
    ExtendEffect(a, [], vs);
    assert [] + vs == vs;
    assert vs == [] ==> a.totals[a.target := Sum(vs)] == a.totals;
  }


  /** Writing a prefix one value longer. */
  lemma ExtendOneMore(a: Acc, vs: seq<real>, d: nat)
    requires 0 < d <= |vs|
    ensures Extend(a, vs[..d]) == WriteOne(Extend(a, vs[..d - 1]), vs[d - 1])
  {
    assert vs[..d][..d - 1] == vs[..d - 1];
  }

  /** With `day_of_year` past the row, nothing is written. */
  lemma {:induction false} ExtendBlocked(a: Acc, vs: seq<real>)
    requires a.target < |a.rows| ==> a.doy >= |a.rows[a.target]|
    ensures Extend(a, vs) == a
  {
    if vs != [] {
      ExtendBlocked(a, vs[..|vs| - 1]);
    }
  }

  /** Writing two runs of values is writing them joined. */
  lemma {:induction false} ExtendAppend(a: Acc, u: seq<real>, w: seq<real>)
    ensures Extend(Extend(a, u), w) == Extend(a, u + w)
    decreases |w|
  {
    if w == [] {
      assert u + w == u;
    } else {
      ExtendAppend(a, u, w[..|w| - 1]);
      assert (u + w)[..|u + w| - 1] == u + w[..|w| - 1];
    }
  }

  /** The value of a walked day in year row `y`. */
  function DayValue(g: seq<real>, years: nat, y: nat, d: Day): real
    requires |g| == GridSize(years, 1)
  {
    if y < years && 0 <= d.month < 12 && 0 <= d.day < 31 then Averages.CellAt(g, years, y, d.month, d.day) else 0.0
  }

  function DateValues(g: seq<real>, years: nat, y: nat, ds: seq<Day>): (r: seq<real>)
    requires |g| == GridSize(years, 1)
    ensures |r| == |ds|
    ensures forall k :: 0 <= k < |ds| ==> r[k] == DayValue(g, years, y, ds[k])
  {
    seq(|ds|, k requires 0 <= k < |ds| => DayValue(g, years, y, ds[k]))
  }

  /** The values of the valid days of month index `mc` of year row `y`. */
  function MonthValues(g: seq<real>, years: nat, y: nat, mc: int): seq<real>
    requires |g| == GridSize(years, 1)
  {
    DateValues(g, years, y, MonthDays(y + BeginYear, mc))
  }

  /** The values of the valid days of month indices `lo .. hi - 1`. */
  function RangeValues(g: seq<real>, years: nat, y: nat, lo: nat, hi: nat): (r: seq<real>)
    requires |g| == GridSize(years, 1)
    decreases hi
  {
    if hi <= lo then [] else RangeValues(g, years, y, lo, hi - 1) + MonthValues(g, years, y, hi - 1)
  }

  /** Days of month indices `lo .. hi - 1` of `year`. */
  function SpanDays(year: int, lo: nat, hi: nat): nat
    decreases hi
  {
    if hi <= lo then 0 else SpanDays(year, lo, hi - 1) + DayCount(year, hi - 1)
  }

  lemma {:induction false} RangeLength(g: seq<real>, years: nat, y: nat, lo: nat, hi: nat)
    requires |g| == GridSize(years, 1)
    ensures |RangeValues(g, years, y, lo, hi)| == SpanDays(y + BeginYear, lo, hi)
    decreases hi
  {
    if hi > lo {
      RangeLength(g, years, y, lo, hi - 1);
    }
  }

  /** In a valid year the span is the difference of the days before its
      ends; outside the valid years it is empty. */
  lemma {:induction false} SpanIsCalendar(year: int, lo: nat, hi: nat)
    requires lo <= hi <= 12
    ensures MinYear <= year <= MaxYear ==> SpanDays(year, lo, hi) == DaysBeforeMonth(year, hi + 1) - DaysBeforeMonth(year, lo + 1)
    ensures !(MinYear <= year <= MaxYear) ==> SpanDays(year, lo, hi) == 0
    decreases hi
  {
    if hi > lo {
      SpanIsCalendar(year, lo, hi - 1);
    }
  }

  /** A year row has no more values than `Days`; the January-to-September
      run of a season has at most 274 and the October-to-December run 92 in
      a valid year. */
  lemma SpanBounds(year: int)
    ensures SpanDays(year, 0, 12) <= Days
    ensures SpanDays(year, 0, 9) <= 274
    ensures SpanDays(year, 9, 12) <= 92
  {
    SpanExact(year);
  }

  /** In a valid year: the whole year, the 92 days from October 1, and the
      days before it. */
  lemma SpanExact(year: int)
    ensures MinYear <= year <= MaxYear ==>
      SpanDays(year, 0, 12) == YearLength(year) && SpanDays(year, 9, 12) == 92
      && SpanDays(year, 0, 9) == 245 + DaysInMonth(year, 2) && YearLength(year) == 337 + DaysInMonth(year, 2)
    ensures !(MinYear <= year <= MaxYear) ==>
      SpanDays(year, 0, 12) == 0 && SpanDays(year, 9, 12) == 0 && SpanDays(year, 0, 9) == 0
  {
    SpanIsCalendar(year, 0, 12);
    SpanIsCalendar(year, 0, 9);
    SpanIsCalendar(year, 9, 12);
    YearIsTwelveMonths(year);
    var feb := DaysInMonth(year, 2);
    assert DaysBeforeMonth(year, 3) == 31 + feb;
    assert DaysBeforeMonth(year, 4) == 62 + feb;
    assert DaysBeforeMonth(year, 5) == 92 + feb;
    assert DaysBeforeMonth(year, 6) == 123 + feb;
    assert DaysBeforeMonth(year, 7) == 153 + feb;
    assert DaysBeforeMonth(year, 8) == 184 + feb;
    assert DaysBeforeMonth(year, 9) == 215 + feb;
    assert DaysBeforeMonth(year, 10) == 245 + feb;
    assert DaysBeforeMonth(year, 11) == 276 + feb;
    assert DaysBeforeMonth(year, 12) == 306 + feb;
    assert DaysBeforeMonth(year, 13) == 337 + feb;
  }

  lemma DateValuesConcat(g: seq<real>, years: nat, y: nat, u: seq<Day>, w: seq<Day>)
    requires |g| == GridSize(years, 1)
    ensures DateValues(g, years, y, u + w) == DateValues(g, years, y, u) + DateValues(g, years, y, w)
  {
    var l := DateValues(g, years, y, u + w);
    var rr := DateValues(g, years, y, u) + DateValues(g, years, y, w);
    forall k | 0 <= k < |l|
      ensures l[k] == rr[k]
    {
      if k < |u| {
        assert (u + w)[k] == u[k];
      } else {
        assert (u + w)[k] == w[k - |u|];
      }
    }
  }

  /** The values of a January-to-December run are those of the days the
      calendar walk visits, in the same order. */
  lemma {:induction false} RangeIsDates(g: seq<real>, years: nat, y: nat, j: nat)
    requires |g| == GridSize(years, 1) && j <= 12
    ensures RangeValues(g, years, y, 0, j) == DateValues(g, years, y, Blocks(y + BeginYear, CalendarMonths[..j]))
  {
    if j > 0 {
      RangeIsDates(g, years, y, j - 1);
      RangeIsDatesStep(g, years, y, j);
    } else {
      assert CalendarMonths[..0] == [];
    }
  }

  lemma RangeIsDatesStep(g: seq<real>, years: nat, y: nat, j: nat)
    requires |g| == GridSize(years, 1) && 1 <= j <= 12
    requires RangeValues(g, years, y, 0, j - 1) == DateValues(g, years, y, Blocks(y + BeginYear, CalendarMonths[..j - 1]))
    ensures RangeValues(g, years, y, 0, j) == DateValues(g, years, y, Blocks(y + BeginYear, CalendarMonths[..j]))
  {
    BlocksStep(y + BeginYear, CalendarMonths, j - 1);
    assert CalendarMonths[j - 1] == j - 1;
    var front := Blocks(y + BeginYear, CalendarMonths[..j - 1]);
    var md := MonthDays(y + BeginYear, j - 1);
    assert Blocks(y + BeginYear, CalendarMonths[..j]) == front + md;
    DateValuesConcat(g, years, y, front, md);
    assert RangeValues(g, years, y, 0, j) == RangeValues(g, years, y, 0, j - 1) + MonthValues(g, years, y, j - 1);
  }

  /** A year row's values: those of January to December. */
  function YearValues(g: seq<real>, years: nat, y: nat): seq<real>
    requires |g| == GridSize(years, 1)
  {
    RangeValues(g, years, y, 0, 12)
  }

  /** The day loop of one month, its first `d` positions. */
  function DaysUpTo(a: Acc, g: seq<real>, years: nat, y: nat, mc: nat, d: nat): (r: Acc)
    requires |g| == GridSize(years, 1) && y < years && mc < 12 && d <= 31
    ensures |r.rows| == |a.rows| && |r.totals| == |a.totals|
  {
    if d == 0 then a
    else
      var b := DaysUpTo(a, g, years, y, mc, d - 1);
      if Visits(y + BeginYear, mc, d - 1) then WriteOne(b, Averages.CellAt(g, years, y, mc, d - 1)) else b
  }

  /** The day loop writes the month's values in order. */
  lemma {:induction false} DaysAsExtend(a: Acc, g: seq<real>, years: nat, y: nat, mc: nat, d: nat)
    requires |g| == GridSize(years, 1) && y < years && mc < 12 && d <= 31
    ensures DaysUpTo(a, g, years, y, mc, d) == Extend(a, MonthValues(g, years, y, mc)[..Min(d, DayCount(y + BeginYear, mc))])
  {
    if d > 0 {
      DaysAsExtend(a, g, years, y, mc, d - 1);
      var mv := MonthValues(g, years, y, mc);
      MonthDayAt(y + BeginYear, mc, d - 1);
      if Visits(y + BeginYear, mc, d - 1) {
        ExtendOneMore(a, mv, d);
        assert mv[d - 1] == Averages.CellAt(g, years, y, mc, d - 1);
      }
    }
  }

  /** October starts the next season row (snowfall). */
  function MonthReset(plan: Plan, a: Acc, y: nat, mc: nat): (r: Acc)
    ensures r.rows == a.rows && r.totals == a.totals
  {
    if plan == Snowfall && mc == 9 then a.(target := y + 1, doy := 0, before := 0.0) else a
  }

  /** The repair on one row: a zero in slot 365 is replaced by slot 364. */
  function FixedRow(row: seq<real>): (r: seq<real>)
    requires |row| == Days
    ensures |r| == Days
  {
    if row[365] == 0.0 then row[365 := row[364]] else row
  }

  /** After December, row `y` gets the repair (snowfall). */
  function Fix(plan: Plan, a: Acc, y: nat, mc: nat): (r: Acc)
    ensures |r.rows| == |a.rows| && r.totals == a.totals
  {
    if plan == Snowfall && mc == 11 && y < |a.rows| && |a.rows[y]| == Days then
      a.(rows := a.rows[y := FixedRow(a.rows[y])])
    else a
  }

  /** The start of a year: a new row and a zero carry (precipitation). */
  function YearReset(plan: Plan, a: Acc, y: nat): (r: Acc)
    ensures r.rows == a.rows && r.totals == a.totals
  {
    if plan == Precipitation then a.(target := y, doy := 0, before := 0.0) else a
  }

  /** One month: the reset before it, its days, the repair after it. */
  function MonthStep(plan: Plan, a: Acc, g: seq<real>, years: nat, y: nat, mc: nat): (r: Acc)
    requires |g| == GridSize(years, 1) && y < years && mc < 12
    ensures |r.rows| == |a.rows| && |r.totals| == |a.totals|
  {
    Fix(plan, DaysUpTo(MonthReset(plan, a, y, mc), g, years, y, mc, 31), y, mc)
  }

  /** The first `j` months of year row `y`, from state `a`. */
  function MonthsOfYear(plan: Plan, a: Acc, g: seq<real>, years: nat, y: nat, j: nat): (r: Acc)
    requires |g| == GridSize(years, 1) && y < years && j <= 12
    ensures |r.rows| == |a.rows| && |r.totals| == |a.totals|
  {
    if j == 0 then a else MonthStep(plan, MonthsOfYear(plan, a, g, years, y, j - 1), g, years, y, j - 1)
  }

  /** The first `y` years of the loop. */
  function YearsUpTo(plan: Plan, a0: Acc, g: seq<real>, years: nat, y: nat): (r: Acc)
    requires |g| == GridSize(years, 1) && y <= years
    ensures |r.rows| == |a0.rows| && |r.totals| == |a0.totals|
  {
    if y == 0 then a0
    else
      var a := YearReset(plan, YearsUpTo(plan, a0, g, years, y - 1), y - 1);
      MonthsOfYear(plan, a, g, years, y - 1, 12)
  }

  /** The tables the loop leaves. */
  function Accumulate(plan: Plan, g: seq<real>, years: nat, doy0: nat, before0: real): (r: Acc)
    requires |g| == GridSize(years, 1)
    ensures |r.rows| == Rows(plan, years) && |r.totals| == Rows(plan, years)
  {
    YearsUpTo(plan, Start(plan, years, doy0, before0), g, years, years)
  }

  /** A month without the repair writes its values after its reset. */
  lemma MonthStepIsExtend(plan: Plan, b: Acc, g: seq<real>, years: nat, y: nat, mc: nat)
    requires |g| == GridSize(years, 1) && y < years && mc < 12
    requires !(plan == Snowfall && mc == 11)
    ensures MonthStep(plan, b, g, years, y, mc) == Extend(MonthReset(plan, b, y, mc), MonthValues(g, years, y, mc))
  {
    DaysAsExtend(MonthReset(plan, b, y, mc), g, years, y, mc, 31);
    var mv := MonthValues(g, years, y, mc);
    assert mv[..Min(31, DayCount(y + BeginYear, mc))] == mv;
  }

  /** Months `lo .. j - 1` with no reset after the first and no repair
      write the values of those months in order. */
  lemma {:induction false} Segment(plan: Plan, a: Acc, g: seq<real>, years: nat, y: nat, lo: nat, j: nat)
    requires |g| == GridSize(years, 1) && y < years && lo < j <= 12
    requires plan == Snowfall ==> !(lo < 9 < j) && !(lo <= 11 < j)
    ensures MonthsOfYear(plan, a, g, years, y, j)
            == Extend(MonthReset(plan, MonthsOfYear(plan, a, g, years, y, lo), y, lo), RangeValues(g, years, y, lo, j))
  {
    if j - 1 > lo {
      Segment(plan, a, g, years, y, lo, j - 1);
      SegmentStep(plan, a, g, years, y, lo, j);
    } else {
      SegmentFirst(plan, a, g, years, y, lo);
    }
  }

  /** A segment of one month. */
  lemma SegmentFirst(plan: Plan, a: Acc, g: seq<real>, years: nat, y: nat, lo: nat)
    requires |g| == GridSize(years, 1) && y < years && lo < 12
    requires plan == Snowfall ==> lo != 11
    ensures MonthsOfYear(plan, a, g, years, y, lo + 1)
            == Extend(MonthReset(plan, MonthsOfYear(plan, a, g, years, y, lo), y, lo), RangeValues(g, years, y, lo, lo + 1))
  {
    var b := MonthsOfYear(plan, a, g, years, y, lo);
    assert MonthsOfYear(plan, a, g, years, y, lo + 1) == MonthStep(plan, b, g, years, y, lo);
    MonthStepIsExtend(plan, b, g, years, y, lo);
    var mv := MonthValues(g, years, y, lo);
    assert RangeValues(g, years, y, lo, lo + 1) == mv by {
      assert RangeValues(g, years, y, lo, lo) == [];
      assert [] + mv == mv;
    }
  }

  /** A segment grows by one month. */
  lemma SegmentStep(plan: Plan, a: Acc, g: seq<real>, years: nat, y: nat, lo: nat, j: nat)
    requires |g| == GridSize(years, 1) && y < years && lo + 1 < j <= 12
    requires plan == Snowfall ==> !(lo < 9 < j) && !(lo <= 11 < j)
    requires MonthsOfYear(plan, a, g, years, y, j - 1)
             == Extend(MonthReset(plan, MonthsOfYear(plan, a, g, years, y, lo), y, lo), RangeValues(g, years, y, lo, j - 1))
    ensures MonthsOfYear(plan, a, g, years, y, j)
            == Extend(MonthReset(plan, MonthsOfYear(plan, a, g, years, y, lo), y, lo), RangeValues(g, years, y, lo, j))
  {
    var b := MonthsOfYear(plan, a, g, years, y, j - 1);
    assert MonthsOfYear(plan, a, g, years, y, j) == MonthStep(plan, b, g, years, y, j - 1);
    MonthStepIsExtend(plan, b, g, years, y, j - 1);
    var mv := MonthValues(g, years, y, j - 1);
    var start := MonthReset(plan, MonthsOfYear(plan, a, g, years, y, lo), y, lo);
    assert MonthReset(plan, b, y, j - 1) == b;
    ExtendAppend(start, RangeValues(g, years, y, lo, j - 1), mv);
    assert RangeValues(g, years, y, lo, j) == RangeValues(g, years, y, lo, j - 1) + mv;
  }

  // ---------------------------------------------------------------------
  // Precipitation

  /** The rows before `y` hold the running sums of their values, the others
      are still zero. */
  predicate RowsDone(a: Acc, table: seq<seq<real>>, y: nat) {
    && |a.rows| == |table| && |a.totals| == |table| && y <= |table|
    && (forall r :: 0 <= r < |table| ==> |table[r]| <= Days)
    && (forall r :: 0 <= r < y ==> a.rows[r] == ExpectedRow(table[r]) && a.totals[r] == Sum(table[r]))
    && (forall r :: y <= r < |table| ==> a.rows[r] == Zeros() && a.totals[r] == 0.0)
  }

  /** Writing row `y`'s values from a zero carry completes row `y`. */
  lemma RowsDoneStep(a: Acc, table: seq<seq<real>>, y: nat)
    requires RowsDone(a, table, y) && y < |table|
    requires a.target == y && a.doy == 0 && a.before == 0.0
    ensures RowsDone(Extend(a, table[y]), table, y + 1)
  {
    ExtendFresh(a, table[y]);
  }

  /** Every year row's values. */
  function YearTable(g: seq<real>, years: nat): (t: seq<seq<real>>)
    requires |g| == GridSize(years, 1)
    ensures |t| == years
  {
    seq(years, r requires 0 <= r < years => YearValues(g, years, r))
  }

  lemma YearTableFits(g: seq<real>, years: nat)
    requires |g| == GridSize(years, 1)
    ensures forall r :: 0 <= r < years ==> |YearTable(g, years)[r]| <= Days
  {
    forall r | 0 <= r < years
      ensures |YearTable(g, years)[r]| <= Days
    {
      RangeLength(g, years, r, 0, 12);
      SpanBounds(r + BeginYear);
    }
  }

  /** One year of the precipitation loop writes that year's values from a
      reset carry. */
  lemma PrecipitationYear(a: Acc, g: seq<real>, years: nat, y: nat)
    requires |g| == GridSize(years, 1) && y < years
    ensures MonthsOfYear(Precipitation, YearReset(Precipitation, a, y), g, years, y, 12)
            == Extend(YearReset(Precipitation, a, y), YearTable(g, years)[y])
  {
    Segment(Precipitation, YearReset(Precipitation, a, y), g, years, y, 0, 12);
  }

  lemma {:induction false} PrecipitationUpTo(g: seq<real>, years: nat, doy0: nat, before0: real, y: nat)
    requires |g| == GridSize(years, 1) && y <= years
    ensures RowsDone(YearsUpTo(Precipitation, Start(Precipitation, years, doy0, before0), g, years, y), YearTable(g, years), y)
  {
    if y == 0 {
      PrecipitationStart(g, years, doy0, before0);
    } else {
      PrecipitationUpTo(g, years, doy0, before0, y - 1);
      PrecipitationYearDone(g, years, doy0, before0, y);
    }
  }

  /** Before the first year every row is zero. */
  lemma PrecipitationStart(g: seq<real>, years: nat, doy0: nat, before0: real)
    requires |g| == GridSize(years, 1)
    ensures RowsDone(Start(Precipitation, years, doy0, before0), YearTable(g, years), 0)
  {
    YearTableFits(g, years);
  }

  /** The pass over year `y - 1` completes row `y - 1`. */
  lemma PrecipitationYearDone(g: seq<real>, years: nat, doy0: nat, before0: real, y: nat)
    requires |g| == GridSize(years, 1) && 1 <= y <= years
    requires RowsDone(YearsUpTo(Precipitation, Start(Precipitation, years, doy0, before0), g, years, y - 1), YearTable(g, years), y - 1)
    ensures RowsDone(YearsUpTo(Precipitation, Start(Precipitation, years, doy0, before0), g, years, y), YearTable(g, years), y)
  {
    var a := YearsUpTo(Precipitation, Start(Precipitation, years, doy0, before0), g, years, y - 1);
    PrecipitationYear(a, g, years, y - 1);
    RowsDoneStep(YearReset(Precipitation, a, y - 1), YearTable(g, years), y - 1);
  }

  /** Every row of the precipitation table is the running sum of its year's
      daily values, zeros after the last valid date, and its total is the
      sum of the year's values. */
  lemma PrecipitationRows(g: seq<real>, years: nat, doy0: nat, before0: real, y: nat)
    requires |g| == GridSize(years, 1) && y < years
    ensures |YearValues(g, years, y)| <= Days
    ensures Accumulate(Precipitation, g, years, doy0, before0).rows[y] == ExpectedRow(YearValues(g, years, y))
    ensures Accumulate(Precipitation, g, years, doy0, before0).totals[y] == Sum(YearValues(g, years, y))
  {
    PrecipitationUpTo(g, years, doy0, before0, years);
    YearTableEntry(g, years, y);
  }

  lemma YearTableEntry(g: seq<real>, years: nat, y: nat)
    requires |g| == GridSize(years, 1) && y < years
    ensures YearTable(g, years)[y] == YearValues(g, years, y)
  {
  }

  /** A year row's values are those of the year's dates from January 1 on:
      in a valid year one per date, value `k` that of the date with
      day-of-year `k + 1`. */
  lemma YearValuesAreDates(g: seq<real>, years: nat, y: nat)
    requires |g| == GridSize(years, 1)
    ensures YearValues(g, years, y) == DateValues(g, years, y, Dates(y + BeginYear, CalendarMonths))
    ensures MinYear <= y + BeginYear <= MaxYear ==>
      |YearValues(g, years, y)| == YearLength(y + BeginYear) && NumberedByDayOfYear(y + BeginYear, Dates(y + BeginYear, CalendarMonths))
  {
    RangeIsDates(g, years, y, 12);
    DatesAreBlocks(y + BeginYear, CalendarMonths, 12);
    assert CalendarMonths[..12] == CalendarMonths;
    if MinYear <= y + BeginYear <= MaxYear {
      CalendarYear(y + BeginYear);
    }
  }

  // ---------------------------------------------------------------------
  // Snowfall

  /** October to December of year row `y`. */
  function Autumn(g: seq<real>, years: nat, y: nat): seq<real>
    requires |g| == GridSize(years, 1)
  {
    RangeValues(g, years, y, 9, 12)
  }

  /** January to September of year row `y`. */
  function Spring(g: seq<real>, years: nat, y: nat): seq<real>
    requires |g| == GridSize(years, 1)
  {
    RangeValues(g, years, y, 0, 9)
  }

  /** A season row's values: October to December of the year before, then
      January to September. */
  function SeasonValues(g: seq<real>, years: nat, r: nat): seq<real>
    requires |g| == GridSize(years, 1) && r >= 1
  {
    Autumn(g, years, r - 1) + Spring(g, years, r)
  }

  /** The state at the start of year row `y`, for autumn values `au` and
      spring values `sp` per year row: row 0 zero, the seasons before `y`
      complete and repaired, row `y` holding the autumn before it with the
      carry at its total, the later rows zero. */
  predicate SeasonsDone(a: Acc, au: seq<seq<real>>, sp: seq<seq<real>>, y: nat) {
    && |au| == |sp| && |a.rows| == |au| + 1 && |a.totals| == |au| + 1 && y <= |au| && a.target == y
    && (forall r :: 0 <= r < |au| ==> |au[r]| <= 92 && |sp[r]| <= 274)
    && a.rows[0] == Zeros() && a.totals[0] == 0.0
    && (forall r :: 1 <= r < y ==>
          a.rows[r] == FixedRow(ExpectedRow(au[r - 1] + sp[r])) && a.totals[r] == Sum(au[r - 1] + sp[r]))
    && (y == 0 ==> a.doy >= Days)
    && (y >= 1 ==>
          a.doy == |au[y - 1]| && a.before == Sum(au[y - 1])
          && a.rows[y] == ExpectedRow(au[y - 1]) && a.totals[y] == Sum(au[y - 1]))
    && (forall r :: y < r <= |au| ==> a.rows[r] == Zeros() && a.totals[r] == 0.0)
  }

  /** The row a season ends with: row 0 has none and stays zero, row `y`
      gets its autumn and spring, repaired. */
  function SeasonRow(au: seq<seq<real>>, sp: seq<seq<real>>, y: nat): (row: seq<real>)
    requires y < |au| == |sp| && (y >= 1 ==> |au[y - 1]| + |sp[y]| <= Days)
    ensures |row| == Days
  {
    if y == 0 then Zeros() else FixedRow(ExpectedRow(au[y - 1] + sp[y]))
  }

  /** Completing row `y` and opening row `y + 1` with its autumn keeps the
      season invariant. */
  lemma SeasonsAdvance(a: Acc, f: Acc, au: seq<seq<real>>, sp: seq<seq<real>>, y: nat)
    requires SeasonsDone(a, au, sp, y) && y < |au|
    requires f.rows == a.rows[y := SeasonRow(au, sp, y)][y + 1 := ExpectedRow(au[y])]
    requires |f.totals| == |a.totals|
    requires forall r :: 0 <= r < |a.totals| && r != y && r != y + 1 ==> f.totals[r] == a.totals[r]
    requires f.totals[y] == (if y == 0 then 0.0 else Sum(au[y - 1] + sp[y]))
    requires f.totals[y + 1] == Sum(au[y])
    requires f.target == y + 1 && f.doy == |au[y]| && f.before == Sum(au[y])
    ensures SeasonsDone(f, au, sp, y + 1)
  {
    assert f.rows[0] == Zeros() && f.totals[0] == 0.0;
    forall r | 1 <= r < y + 1
      ensures f.rows[r] == FixedRow(ExpectedRow(au[r - 1] + sp[r])) && f.totals[r] == Sum(au[r - 1] + sp[r])
    {
      if r < y {
        assert f.rows[r] == a.rows[r] && f.totals[r] == a.totals[r];
      } else {
        assert r == y && y >= 1;
        assert f.totals[y] == Sum(au[y - 1] + sp[y]);
      }
    }
    assert f.rows[y + 1] == ExpectedRow(au[y]);
    forall r | y + 1 < r <= |au|
      ensures f.rows[r] == Zeros() && f.totals[r] == 0.0
    {
      assert f.rows[r] == a.rows[r];
    }
  }

  /** January to September go into row `y`: after the autumn before it,
      or nowhere while `day_of_year` is still past row 0. */
  lemma SpringInto(a: Acc, au: seq<seq<real>>, sp: seq<seq<real>>, y: nat)
    requires SeasonsDone(a, au, sp, y) && y < |au|
    ensures Extend(a, sp[y]).rows == a.rows[y := if y == 0 then Zeros() else ExpectedRow(au[y - 1] + sp[y])]
    ensures Extend(a, sp[y]).target == y
    ensures Extend(a, sp[y]).totals[y] == (if y == 0 then 0.0 else Sum(au[y - 1] + sp[y]))
    ensures forall r :: 0 <= r < |a.totals| && r != y ==> Extend(a, sp[y]).totals[r] == a.totals[r]
  {
    if y == 0 {
      ExtendBlocked(a, sp[y]);
    } else {
      ExtendEffect(a, au[y - 1], sp[y]);
    }
  }

  /** October to December go into the zero row after it, from a zero
      carry. */
  lemma AutumnInto(s: Acc, y: nat, vs: seq<real>)
    requires y + 1 < |s.rows| && y + 1 < |s.totals| && |vs| <= Days
    requires s.rows[y + 1] == Zeros() && s.totals[y + 1] == 0.0
    ensures Extend(MonthReset(Snowfall, s, y, 9), vs)
            == Acc(s.rows[y + 1 := ExpectedRow(vs)], s.totals[y + 1 := Sum(vs)], y + 1, |vs|, Sum(vs))
  {
    ExtendFresh(MonthReset(Snowfall, s, y, 9), vs);
  }

  /** After spring (`s`) and autumn (`e`), the repair of row `y` restores
      the season invariant one row on. */
  lemma RepairStep(a: Acc, s: Acc, e: Acc, au: seq<seq<real>>, sp: seq<seq<real>>, y: nat)
    requires SeasonsDone(a, au, sp, y) && y < |au|
    requires s.rows == a.rows[y := if y == 0 then Zeros() else ExpectedRow(au[y - 1] + sp[y])]
    requires |s.totals| == |a.totals|
    requires s.totals[y] == (if y == 0 then 0.0 else Sum(au[y - 1] + sp[y]))
    requires forall r :: 0 <= r < |a.totals| && r != y ==> s.totals[r] == a.totals[r]
    requires e.rows == s.rows[y + 1 := ExpectedRow(au[y])] && e.totals == s.totals[y + 1 := Sum(au[y])]
    requires e.target == y + 1 && e.doy == |au[y]| && e.before == Sum(au[y])
    ensures SeasonsDone(Fix(Snowfall, e, y, 11), au, sp, y + 1)
  {
    RepairRows(a, s, e, au, sp, y);
    SeasonsAdvance(a, Fix(Snowfall, e, y, 11), au, sp, y);
  }

  /** The rows the repair of row `y` leaves. */
  lemma RepairRows(a: Acc, s: Acc, e: Acc, au: seq<seq<real>>, sp: seq<seq<real>>, y: nat)
    requires y < |au| == |sp| && |a.rows| == |au| + 1 && |au[y]| <= Days && (y >= 1 ==> |au[y - 1]| + |sp[y]| <= Days)
    requires s.rows == a.rows[y := if y == 0 then Zeros() else ExpectedRow(au[y - 1] + sp[y])]
    requires e.rows == s.rows[y + 1 := ExpectedRow(au[y])]
    ensures Fix(Snowfall, e, y, 11).rows == a.rows[y := SeasonRow(au, sp, y)][y + 1 := ExpectedRow(au[y])]
  {
    var row := if y == 0 then Zeros() else ExpectedRow(au[y - 1] + sp[y]);
    assert e.rows[y] == row;
    assert Fix(Snowfall, e, y, 11).rows == e.rows[y := FixedRow(row)];
    assert FixedRow(row) == SeasonRow(au, sp, y) by {
      assert FixedRow(Zeros()) == Zeros();
    }
    UpdateReorder(a.rows, row, SeasonRow(au, sp, y), ExpectedRow(au[y]), y);
  }

  /** Rewriting entry `y` after entry `y + 1` is rewriting it before. */
  lemma UpdateReorder(t: seq<seq<real>>, first: seq<real>, last: seq<real>, next: seq<real>, y: nat)
    requires y + 1 < |t|
    ensures t[y := first][y + 1 := next][y := last] == t[y := last][y + 1 := next]
  {
  }

  /** One snowfall year: spring into row `y`, which completes its season,
      a reset, autumn into row `y + 1`, the repair of row `y`. */
  lemma SeasonsDoneStep(a: Acc, au: seq<seq<real>>, sp: seq<seq<real>>, y: nat)
    requires SeasonsDone(a, au, sp, y) && y < |au|
    ensures SeasonsDone(Fix(Snowfall, Extend(MonthReset(Snowfall, Extend(a, sp[y]), y, 9), au[y]), y, 11), au, sp, y + 1)
  {
    SpringInto(a, au, sp, y);
    var s := Extend(a, sp[y]);
    AutumnInto(s, y, au[y]);
    RepairStep(a, s, Extend(MonthReset(Snowfall, s, y, 9), au[y]), au, sp, y);
  }

  function AutumnTable(g: seq<real>, years: nat): (t: seq<seq<real>>)
    requires |g| == GridSize(years, 1)
    ensures |t| == years
  {
    seq(years, r requires 0 <= r < years => Autumn(g, years, r))
  }

  function SpringTable(g: seq<real>, years: nat): (t: seq<seq<real>>)
    requires |g| == GridSize(years, 1)
    ensures |t| == years
  {
    seq(years, r requires 0 <= r < years => Spring(g, years, r))
  }

  lemma SeasonTablesFit(g: seq<real>, years: nat)
    requires |g| == GridSize(years, 1)
    ensures forall r :: 0 <= r < years ==> |AutumnTable(g, years)[r]| <= 92 && |SpringTable(g, years)[r]| <= 274
  {
    forall r | 0 <= r < years
      ensures |AutumnTable(g, years)[r]| <= 92 && |SpringTable(g, years)[r]| <= 274
    {
      assert AutumnTable(g, years)[r] == Autumn(g, years, r);
      assert SpringTable(g, years)[r] == Spring(g, years, r);
      PartLengths(g, years, r);
      SpanBounds(r + BeginYear);
    }
  }

  /** January to September of one snowfall year write their values in
      order, with no reset. */
  lemma SnowfallSpring(a: Acc, g: seq<real>, years: nat, y: nat)
    requires |g| == GridSize(years, 1) && y < years
    ensures MonthsOfYear(Snowfall, a, g, years, y, 9) == Extend(a, SpringTable(g, years)[y])
  {
    Segment(Snowfall, a, g, years, y, 0, 9);
    assert MonthsOfYear(Snowfall, a, g, years, y, 0) == a;
    assert MonthReset(Snowfall, a, y, 0) == a;
    assert SpringTable(g, years)[y] == RangeValues(g, years, y, 0, 9);
  }

  /** October to December, from the state `b` after September: the reset,
      their values in order, then the repair. */
  lemma SnowfallAutumn(a: Acc, g: seq<real>, years: nat, y: nat)
    requires |g| == GridSize(years, 1) && y < years
    ensures MonthsOfYear(Snowfall, a, g, years, y, 12)
            == Fix(Snowfall, Extend(MonthReset(Snowfall, MonthsOfYear(Snowfall, a, g, years, y, 9), y, 9), AutumnTable(g, years)[y]), y, 11)
  {
    var start := MonthReset(Snowfall, MonthsOfYear(Snowfall, a, g, years, y, 9), y, 9);
    Segment(Snowfall, a, g, years, y, 9, 11);
    var b := MonthsOfYear(Snowfall, a, g, years, y, 11);
    assert b == Extend(start, RangeValues(g, years, y, 9, 11));
    assert MonthReset(Snowfall, b, y, 11) == b;
    assert MonthsOfYear(Snowfall, a, g, years, y, 12) == Fix(Snowfall, DaysUpTo(b, g, years, y, 11, 31), y, 11);
    DaysAsExtend(b, g, years, y, 11, 31);
    var mv := MonthValues(g, years, y, 11);
    assert mv[..Min(31, DayCount(y + BeginYear, 11))] == mv;
    assert DaysUpTo(b, g, years, y, 11, 31) == Extend(b, mv);
    ExtendAppend(start, RangeValues(g, years, y, 9, 11), mv);
    assert RangeValues(g, years, y, 9, 12) == RangeValues(g, years, y, 9, 11) + mv;
    assert AutumnTable(g, years)[y] == RangeValues(g, years, y, 9, 12);
  }

  /** The snowfall months of one year: January to September into the
      current row, October to December into the next, then the repair. */
  lemma SnowfallMonths(a: Acc, g: seq<real>, years: nat, y: nat)
    requires |g| == GridSize(years, 1) && y < years
    ensures MonthsOfYear(Snowfall, a, g, years, y, 12)
            == Fix(Snowfall, Extend(MonthReset(Snowfall, Extend(a, SpringTable(g, years)[y]), y, 9), AutumnTable(g, years)[y]), y, 11)
  {
    SnowfallSpring(a, g, years, y);
    SnowfallAutumn(a, g, years, y);
  }

  lemma {:induction false} SnowfallUpTo(g: seq<real>, years: nat, doy0: nat, before0: real, y: nat)
    requires |g| == GridSize(years, 1) && y <= years && doy0 >= Days
    ensures SeasonsDone(YearsUpTo(Snowfall, Start(Snowfall, years, doy0, before0), g, years, y), AutumnTable(g, years), SpringTable(g, years), y)
  {
    if y == 0 {
      SnowfallStart(g, years, doy0, before0);
    } else {
      SnowfallUpTo(g, years, doy0, before0, y - 1);
      SnowfallYear(g, years, doy0, before0, y);
    }
  }

  /** Before the first year only the carry is set. */
  lemma SnowfallStart(g: seq<real>, years: nat, doy0: nat, before0: real)
    requires |g| == GridSize(years, 1) && doy0 >= Days
    ensures SeasonsDone(Start(Snowfall, years, doy0, before0), AutumnTable(g, years), SpringTable(g, years), 0)
  {
    SeasonTablesFit(g, years);
  }

  /** One year of the snowfall loop completes the season that ends in it. */
  lemma SnowfallYear(g: seq<real>, years: nat, doy0: nat, before0: real, y: nat)
    requires |g| == GridSize(years, 1) && 1 <= y <= years
    requires SeasonsDone(YearsUpTo(Snowfall, Start(Snowfall, years, doy0, before0), g, years, y - 1), AutumnTable(g, years), SpringTable(g, years), y - 1)
    ensures SeasonsDone(YearsUpTo(Snowfall, Start(Snowfall, years, doy0, before0), g, years, y), AutumnTable(g, years), SpringTable(g, years), y)
  {
    var a := YearsUpTo(Snowfall, Start(Snowfall, years, doy0, before0), g, years, y - 1);
    assert YearReset(Snowfall, a, y - 1) == a;
    SnowfallMonths(a, g, years, y - 1);
    SeasonsDoneStep(a, AutumnTable(g, years), SpringTable(g, years), y - 1);
  }

  /** With `day_of_year` past the row on entry, as the average walk leaves
      it, row `r` from 1 to `years - 1` holds the running sums of its
      season, repaired, with the season's sum as its total. */
  lemma SnowfallRows(g: seq<real>, years: nat, doy0: nat, before0: real, r: nat)
    requires |g| == GridSize(years, 1) && doy0 >= Days && 1 <= r < years
    ensures |SeasonValues(g, years, r)| <= Days
    ensures Accumulate(Snowfall, g, years, doy0, before0).rows[r] == FixedRow(ExpectedRow(SeasonValues(g, years, r)))
    ensures Accumulate(Snowfall, g, years, doy0, before0).totals[r] == Sum(SeasonValues(g, years, r))
  {
    SnowfallUpTo(g, years, doy0, before0, years);
    SeasonsRow(Accumulate(Snowfall, g, years, doy0, before0), g, years, r);
  }

  /** With `day_of_year` past the row on entry, row 0 stays zero and the
      last row holds only the last autumn. */
  lemma SnowfallEdges(g: seq<real>, years: nat, doy0: nat, before0: real)
    requires |g| == GridSize(years, 1) && doy0 >= Days
    ensures Accumulate(Snowfall, g, years, doy0, before0).rows[0] == Zeros()
    ensures Accumulate(Snowfall, g, years, doy0, before0).totals[0] == 0.0
    ensures years >= 1 ==>
      |Autumn(g, years, years - 1)| <= 92
      && Accumulate(Snowfall, g, years, doy0, before0).rows[years] == ExpectedRow(Autumn(g, years, years - 1))
      && Accumulate(Snowfall, g, years, doy0, before0).totals[years] == Sum(Autumn(g, years, years - 1))
  {
    SnowfallUpTo(g, years, doy0, before0, years);
    if years >= 1 {
      SeasonsLastRow(Accumulate(Snowfall, g, years, doy0, before0), g, years);
    }
  }

  /** A complete season row of the invariant. */
  lemma DoneRow(a: Acc, au: seq<seq<real>>, sp: seq<seq<real>>, y: nat, r: nat)
    requires SeasonsDone(a, au, sp, y) && 1 <= r < y
    ensures |au[r - 1] + sp[r]| <= Days
    ensures a.rows[r] == FixedRow(ExpectedRow(au[r - 1] + sp[r])) && a.totals[r] == Sum(au[r - 1] + sp[r])
  {
  }

  /** The row the invariant is at. */
  lemma DoneLast(a: Acc, au: seq<seq<real>>, sp: seq<seq<real>>, y: nat)
    requires SeasonsDone(a, au, sp, y) && y >= 1
    ensures |au[y - 1]| <= 92 && a.rows[y] == ExpectedRow(au[y - 1]) && a.totals[y] == Sum(au[y - 1])
  {
  }

  /** The season invariant at the end, read at row `r`. */
  lemma SeasonsRow(acc: Acc, g: seq<real>, years: nat, r: nat)
    requires |g| == GridSize(years, 1) && 1 <= r < years
    requires SeasonsDone(acc, AutumnTable(g, years), SpringTable(g, years), years)
    ensures |SeasonValues(g, years, r)| <= Days
    ensures acc.rows[r] == FixedRow(ExpectedRow(SeasonValues(g, years, r)))
    ensures acc.totals[r] == Sum(SeasonValues(g, years, r))
  {
    DoneRow(acc, AutumnTable(g, years), SpringTable(g, years), years, r);
    TableEntries(g, years, r);
  }

  /** The entries of the two season tables. */
  lemma TableEntries(g: seq<real>, years: nat, r: nat)
    requires |g| == GridSize(years, 1) && 1 <= r <= years
    ensures AutumnTable(g, years)[r - 1] == Autumn(g, years, r - 1)
    ensures r < years ==> AutumnTable(g, years)[r - 1] + SpringTable(g, years)[r] == SeasonValues(g, years, r)
  {
  }

  /** The season invariant at the end: the last row. */
  lemma SeasonsLastRow(acc: Acc, g: seq<real>, years: nat)
    requires |g| == GridSize(years, 1) && years >= 1
    requires SeasonsDone(acc, AutumnTable(g, years), SpringTable(g, years), years)
    ensures |Autumn(g, years, years - 1)| <= 92
    ensures acc.rows[years] == ExpectedRow(Autumn(g, years, years - 1))
    ensures acc.totals[years] == Sum(Autumn(g, years, years - 1))
  {
    DoneLast(acc, AutumnTable(g, years), SpringTable(g, years), years);
    TableEntries(g, years, years);
  }

  /** The tables do not depend on the carry `day_before` brought in. */
  lemma SnowfallIgnoresCarry(g: seq<real>, years: nat, doy0: nat, b1: real, b2: real)
    requires |g| == GridSize(years, 1) && doy0 >= Days
    ensures Accumulate(Snowfall, g, years, doy0, b1).rows == Accumulate(Snowfall, g, years, doy0, b2).rows
    ensures Accumulate(Snowfall, g, years, doy0, b1).totals == Accumulate(Snowfall, g, years, doy0, b2).totals
  {
    SnowfallUpTo(g, years, doy0, b1, years);
    SnowfallUpTo(g, years, doy0, b2, years);
    SeasonsDoneTables(Accumulate(Snowfall, g, years, doy0, b1), Accumulate(Snowfall, g, years, doy0, b2),
                      AutumnTable(g, years), SpringTable(g, years), years);
  }

  /** The season invariant fixes both tables. */
  lemma SeasonsDoneTables(a: Acc, b: Acc, au: seq<seq<real>>, sp: seq<seq<real>>, y: nat)
    requires SeasonsDone(a, au, sp, y) && SeasonsDone(b, au, sp, y)
    ensures a.rows == b.rows && a.totals == b.totals
  {
    forall r | 0 <= r < |a.rows|
      ensures a.rows[r] == b.rows[r] && a.totals[r] == b.totals[r]
    {
      if r == 0 {
      } else if r < y {
      } else if r == y {
      } else {
      }
    }
  }

  /** A season between two valid years starts with the 92 days from
      October 1 and has 365 values, or 366 when its February has a 29th. */
  lemma SeasonLength(g: seq<real>, years: nat, r: nat)
    requires |g| == GridSize(years, 1) && r >= 1
    requires MinYear <= r - 1 + BeginYear && r + BeginYear <= MaxYear
    ensures |Autumn(g, years, r - 1)| == 92
    ensures |SeasonValues(g, years, r)| == YearLength(r + BeginYear)
  {
    PartLengths(g, years, r - 1);
    PartLengths(g, years, r);
    SpanExact(r + BeginYear);
  }

  lemma PartLengths(g: seq<real>, years: nat, y: nat)
    requires |g| == GridSize(years, 1)
    ensures |Autumn(g, years, y)| == SpanDays(y + BeginYear, 9, 12)
    ensures |Spring(g, years, y)| == SpanDays(y + BeginYear, 0, 9)
    ensures MinYear <= y + BeginYear <= MaxYear ==>
      |Autumn(g, years, y)| == 92 && |Spring(g, years, y)| == 245 + DaysInMonth(y + BeginYear, 2)
  {
    RangeLength(g, years, y, 9, 12);
    RangeLength(g, years, y, 0, 9);
    SpanExact(y + BeginYear);
  }
}
