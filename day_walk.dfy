/** The day walks of `ghcnpy/plotting.py`: a loop over a list of month
    indices, an inner loop over day indices 0..30, and a `datetime(year,
    month + 1, day + 1)` inside a `try` that skips the dates that do not
    exist. The days a walk visits, in loop order, are what the averages
    and the accumulations number from slot 0. */
module DayWalk {
  import opened PyModel
  import opened Calendar

  /** `range(0, 12)`: January to December. */
  const CalendarMonths: seq<int> := [0, 1, 2, 3, 4, 5, 6, 7, 8, 9, 10, 11]

  /** The list of the snow-average loop. Passed to `datetime` as month + 1,
      it names October, November, December, a month 13 that never exists,
      February to September, then October again. */
  const SnowMonths: seq<int> := [9, 10, 11, 12, 1, 2, 3, 4, 5, 6, 7, 8, 9]

  /** A visited day: the month index and the day index as the loops count
      them (both from 0). */
  datatype Day = Day(month: int, day: int)

  /** `datetime(year, mc + 1, dc + 1)` does not raise. */
  predicate Visits(year: int, mc: int, dc: int) {
    IsValidDate(year, mc + 1, dc + 1)
  }

  /** Loop position `p` of a walk over `months`: month `months[p / 31]`,
      day index `p % 31`. */
  lemma PositionInWalk(months: seq<int>, p: nat)
    requires p < 31 * |months|
    ensures p / 31 < |months| && p % 31 < 31
  {
  }

  /** The days visited in the first `n` loop positions, in loop order. */
  function DatesUpTo(year: int, months: seq<int>, n: nat): seq<Day>
    requires n <= 31 * |months|
  {
    if n == 0 then []
    else
      PositionInWalk(months, n - 1);
      var mc := months[(n - 1) / 31];
      var dc := (n - 1) % 31;
      DatesUpTo(year, months, n - 1) + (if Visits(year, mc, dc) then [Day(mc, dc)] else [])
  }

  /** All the days a walk over `months` visits. */
  function Dates(year: int, months: seq<int>): seq<Day> {
    DatesUpTo(year, months, 31 * |months|)
  }

  /** The days of one month index in `year`; none when `datetime` rejects
      the month or the year. */
  function MonthDays(year: int, mc: int): (r: seq<Day>)
    ensures |r| == DayCount(year, mc)
  {
    if Visits(year, mc, 0) then seq(DaysInMonth(year, mc + 1), d => Day(mc, d)) else []
  }

  /** How many days of month index `mc` exist in `year`. */
  function DayCount(year: int, mc: int): (n: nat)
    ensures n <= 31
  {
    if Visits(year, mc, 0) then DaysInMonth(year, mc + 1) else 0
  }

  /** Day `d` of a month is visited exactly when `d` is below the month's
      length, and then it is listed at place `d`. */
  lemma MonthDaysShape(year: int, mc: int)
    ensures forall d :: 0 <= d < |MonthDays(year, mc)| ==> MonthDays(year, mc)[d] == Day(mc, d) && Visits(year, mc, d)
    ensures forall d :: |MonthDays(year, mc)| <= d < 31 ==> !Visits(year, mc, d)
  {
  }

  /** Day position `d` of month index `mc` is a listed day exactly when it
      is visited, and is then listed at place `d`. */
  lemma MonthDayAt(year: int, mc: int, d: nat)
    ensures d < |MonthDays(year, mc)| <==> d < 31 && Visits(year, mc, d)
    ensures d < |MonthDays(year, mc)| ==> MonthDays(year, mc)[d] == Day(mc, d)
  {
    MonthDaysShape(year, mc);
  }

  /** The reference shape of a walk: the days of each listed month, month
      after month. */
  function Blocks(year: int, months: seq<int>): seq<Day> {
    if months == [] then []
    else Blocks(year, months[..|months| - 1]) + MonthDays(year, months[|months| - 1])
  }

  /** Within month `i` of the list, the first `d` day positions add the
      first `d` days of that month that exist. */
  lemma {:induction false} WithinMonth(year: int, months: seq<int>, i: nat, d: nat)
    requires i < |months| && d <= 31
    ensures DatesUpTo(year, months, 31 * i + d)
            == DatesUpTo(year, months, 31 * i) + MonthDays(year, months[i])[..Min(d, |MonthDays(year, months[i])|)]
    decreases d
  {
    if d > 0 {
      WithinMonth(year, months, i, d - 1);
      var p := 31 * i + d - 1;
      assert p / 31 == i && p % 31 == d - 1;
      var md := MonthDays(year, months[i]);
      MonthDaysShape(year, months[i]);
      if d - 1 < |md| {
        assert md[..d] == md[..d - 1] + [md[d - 1]];
      }
    }
  }

  /** The loops visit exactly the days of the listed months, month after
      month. */
  lemma {:induction false} DatesAreBlocks(year: int, months: seq<int>, i: nat)
    requires i <= |months|
    ensures DatesUpTo(year, months, 31 * i) == Blocks(year, months[..i])
    decreases i
  {
    if i > 0 {
      var m := MonthDays(year, months[i - 1]);
      DatesAreBlocks(year, months, i - 1);
      WithinMonth(year, months, i - 1, 31);
      assert 31 * (i - 1) + 31 == 31 * i;
      assert m[..Min(31, |m|)] == m;
      BlocksStep(year, months, i - 1);
    }
  }

  /** Slot `k` holds a date of `year` whose day-of-year is `k + 1`. */
  predicate NumberedByDayOfYear(year: int, ds: seq<Day>) {
    forall k :: 0 <= k < |ds| ==>
      Visits(year, ds[k].month, ds[k].day) && DayOfYear(year, ds[k].month + 1, ds[k].day + 1) == k + 1
  }

  /** Slot `k` of a January-to-December walk is day-of-year `k + 1`: the
      walk lists every date of the year once, in calendar order. */
  lemma {:induction false} CalendarBlocks(year: int, i: nat)
    requires MinYear <= year <= MaxYear && i <= 12
    ensures |Blocks(year, CalendarMonths[..i])| == DaysBeforeMonth(year, i + 1)
    ensures NumberedByDayOfYear(year, Blocks(year, CalendarMonths[..i]))
    decreases i
  {
    if i > 0 {
      CalendarBlocks(year, i - 1);
      assert CalendarMonths[..i][..i - 1] == CalendarMonths[..i - 1];
      assert CalendarMonths[..i][i - 1] == i - 1;
      var before: seq<Day> := Blocks(year, CalendarMonths[..i - 1]);
      var month: seq<Day> := MonthDays(year, i - 1);
      var all: seq<Day> := before + month;
      MonthDaysShape(year, i - 1);
      assert Visits(year, i - 1, 0);
      assert Blocks(year, CalendarMonths[..i]) == all;
      forall k | 0 <= k < |all|
        ensures Visits(year, all[k].month, all[k].day)
        ensures DayOfYear(year, all[k].month + 1, all[k].day + 1) == k + 1
      {
        if k >= |before| {
          assert all[k] == month[k - |before|];
        } else {
          assert all[k] == before[k];
        }
      }
    }
  }

  /** A January-to-December walk visits the 365 or 366 dates of the year,
      slot `k` holding day-of-year `k + 1`. */
  lemma CalendarYear(year: int)
    requires MinYear <= year <= MaxYear
    ensures |Dates(year, CalendarMonths)| == YearLength(year)
    ensures NumberedByDayOfYear(year, Dates(year, CalendarMonths))
  {
    DatesAreBlocks(year, CalendarMonths, 12);
    CalendarBlocks(year, 12);
    YearIsTwelveMonths(year);
    assert CalendarMonths[..12] == CalendarMonths;
  }

  /** Outside the valid years no day is visited. */
  lemma NoDatesOutsideYears(year: int, months: seq<int>, n: nat)
    requires n <= 31 * |months|
    requires year < MinYear || year > MaxYear
    ensures DatesUpTo(year, months, n) == []
  {
  }

  lemma BlocksStep(year: int, months: seq<int>, i: nat)
    requires i < |months|
    ensures Blocks(year, months[..i + 1]) == Blocks(year, months[..i]) + MonthDays(year, months[i])
  {
    assert months[..i + 1][..i] == months[..i];
  }

  /** A walk over a shorter prefix of the month list is a prefix of the
      walk over a longer one. */
  lemma {:induction false} BlocksPrefix(year: int, months: seq<int>, j: nat, i: nat)
    requires j <= i <= |months|
    ensures |Blocks(year, months[..j])| <= |Blocks(year, months[..i])|
    ensures Blocks(year, months[..i])[..|Blocks(year, months[..j])|] == Blocks(year, months[..j])
    decreases i - j
  {
    if j < i {
      BlocksPrefix(year, months, j, i - 1);
      BlocksStep(year, months, i - 1);
    }
  }

  lemma BlocksLengthStep(year: int, months: seq<int>, i: nat)
    requires i < |months|
    ensures |Blocks(year, months[..i + 1])| == |Blocks(year, months[..i])| + DayCount(year, months[i])
  {
    BlocksStep(year, months, i);
  }

  /** The entries of the snow list, one by one. */
  predicate IsSnowList(s: seq<int>) {
    && |s| == 13 && s[0] == 9 && s[1] == 10 && s[2] == 11 && s[3] == 12 && s[4] == 1 && s[5] == 2
    && s[6] == 3 && s[7] == 4 && s[8] == 5 && s[9] == 6 && s[10] == 7 && s[11] == 8 && s[12] == 9
  }

  /** Month lengths in the leap year 2012, by month index; index 12 is no
      month. */
  lemma MonthsOf2012()
    ensures DayCount(2012, 9) == 31 && DayCount(2012, 10) == 30 && DayCount(2012, 11) == 31
    ensures DayCount(2012, 12) == 0 && DayCount(2012, 1) == 29 && DayCount(2012, 2) == 31
    ensures DayCount(2012, 3) == 30 && DayCount(2012, 4) == 31 && DayCount(2012, 5) == 30
    ensures DayCount(2012, 6) == 31 && DayCount(2012, 7) == 31 && DayCount(2012, 8) == 30
  {
  }

  /** The days of the snow list in 2012: 31 for the first October, 335 up
      to the last month. */
  lemma SnowHead(s: seq<int>)
    requires IsSnowList(s)
    ensures |Blocks(2012, s[..1])| == 31
    ensures |Blocks(2012, s[..12])| == 335
  {
    MonthsOf2012();
    assert s[..0] == [];
    BlocksLengthStep(2012, s, 0);
    assert |Blocks(2012, s[..1])| == 31;
    BlocksLengthStep(2012, s, 1);
    BlocksLengthStep(2012, s, 2);
    assert |Blocks(2012, s[..3])| == 92;
    BlocksLengthStep(2012, s, 3);
    BlocksLengthStep(2012, s, 4);
    assert |Blocks(2012, s[..5])| == 121;
    BlocksLengthStep(2012, s, 5);
    BlocksLengthStep(2012, s, 6);
    assert |Blocks(2012, s[..7])| == 182;
    BlocksLengthStep(2012, s, 7);
    BlocksLengthStep(2012, s, 8);
    assert |Blocks(2012, s[..9])| == 243;
    BlocksLengthStep(2012, s, 9);
    BlocksLengthStep(2012, s, 10);
    BlocksLengthStep(2012, s, 11);
  }

  lemma SnowListLength(s: seq<int>)
    requires IsSnowList(s)
    ensures |Blocks(2012, s)| == 366
    ensures Blocks(2012, s) == Blocks(2012, s[..12]) + MonthDays(2012, 9)
  {
    SnowHead(s);
    MonthsOf2012();
    BlocksStep(2012, s, 12);
    assert s[..13] == s;
  }

  /** The walk over the snow list opens and closes with October 1-31. */
  lemma SnowListOctobers(s: seq<int>)
    requires IsSnowList(s)
    ensures |Blocks(2012, s)| == 366
    ensures forall d :: 0 <= d < 31 ==> Blocks(2012, s)[d] == Day(9, d)
    ensures forall d :: 0 <= d < 31 ==> Blocks(2012, s)[335 + d] == Day(9, d)
  {
    SnowListLength(s);
    SnowHead(s);
    BlocksStep(2012, s, 0);
    assert s[..0] == [];
    BlocksPrefix(2012, s, 1, 13);
    assert s[..13] == s;
    var all := Blocks(2012, s);
    var october := MonthDays(2012, 9);
    MonthDaysShape(2012, 9);
    assert all[..31] == october;
    forall d | 0 <= d < 31
      ensures all[d] == Day(9, d) && all[335 + d] == Day(9, d)
    {
      assert all[d] == all[..31][d];
      assert all[335 + d] == october[d];
    }
  }

  /** The walk over the snow list never visits January. */
  lemma SnowListNoJanuary(s: seq<int>)
    requires IsSnowList(s)
    ensures forall k :: 0 <= k < |Blocks(2012, s)| ==> Blocks(2012, s)[k].month != 0
  {
    forall k | 0 <= k < |Blocks(2012, s)|
      ensures Blocks(2012, s)[k].month != 0
    {
      BlocksMonths(2012, s, k);
    }
  }

  /** The snow-average walk validated on 2012 visits 366 days: October 1-31,
      November, December, no January at all, February to September, and
      October 1-31 a second time. */
  lemma SnowAverageDates()
    ensures |Dates(2012, SnowMonths)| == 366
    ensures forall d :: 0 <= d < 31 ==> Dates(2012, SnowMonths)[d] == Day(9, d)
    ensures forall d :: 0 <= d < 31 ==> Dates(2012, SnowMonths)[335 + d] == Day(9, d)
    ensures forall k :: 0 <= k < 366 ==> Dates(2012, SnowMonths)[k].month != 0
  {
    DatesAreBlocks(2012, SnowMonths, 13);
    assert SnowMonths[..13] == SnowMonths;
    SnowListOctobers(SnowMonths);
    SnowListNoJanuary(SnowMonths);
  }

  /** A day of a walk belongs to one of the listed month indices that
      `datetime` accepts. */
  lemma {:induction false} BlocksMonths(year: int, months: seq<int>, k: nat)
    requires k < |Blocks(year, months)|
    ensures Blocks(year, months)[k].month in months
    ensures Visits(year, Blocks(year, months)[k].month, Blocks(year, months)[k].day)
  {
    var front := Blocks(year, months[..|months| - 1]);
    var last := months[|months| - 1];
    MonthDaysShape(year, last);
    if k < |front| {
      BlocksMonths(year, months[..|months| - 1], k);
      assert Blocks(year, months)[k] == front[k];
    } else {
      assert Blocks(year, months)[k] == MonthDays(year, last)[k - |front|];
    }
  }
}
