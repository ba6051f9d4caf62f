/** The accumulation loops of `plot_precipitation` and `plot_snowfall` in
    `ghcnpy/plotting.py`, as the in-place updates of the two numpy tables
    (`prcp_accum` or `snow_accum`, a row per year or season and a slot per
    day, and `total_accum`). Each loop is proved to leave the tables the
    fold `Accumulations.Accumulate` describes. */
module AccumulationLoops {
  import opened Calendar
  import opened DayWalk
  import opened DailyGrid
  import opened Accumulations
  import Averages

  /** The arrays hold the tables of `a`. */
  predicate Holds(accum: array2<real>, total: array<real>, a: Acc)
    reads accum, total
  {
    && accum.Length0 == |a.rows| && total.Length == |a.totals|
    && (forall i :: 0 <= i < |a.rows| ==> |a.rows[i]| == accum.Length1)
    && (forall i, j :: 0 <= i < accum.Length0 && 0 <= j < accum.Length1 ==> accum[i, j] == a.rows[i][j])
    && (forall i :: 0 <= i < total.Length ==> total[i] == a.totals[i])
  }

  /** The body of the `try` for one valid date: slot `day_of_year` of the
      row and the row's total get `day_before` plus the value, which becomes
      the new `day_before`; a slot past the row raises the IndexError the
      loop swallows, and nothing changes. */
  method WriteDay(accum: array2<real>, total: array<real>, ghost st: Acc, row: nat, doy: nat, before: real, v: real)
    returns (doy': nat, before': real)
    modifies accum, total
    requires accum.Length0 == total.Length
    requires Holds(accum, total, st) && st.target == row && st.doy == doy && st.before == before
    ensures Holds(accum, total, WriteOne(st, v))
    ensures doy' == WriteOne(st, v).doy && before' == WriteOne(st, v).before
  {
    if row < accum.Length0 && doy < accum.Length1 {
      var x := before + v;
      accum[row, doy] := x;
      total[row] := x;
      doy', before' := doy + 1, x;
    } else {
      doy', before' := doy, before;
    }
  }

  /** The day loop of one month of year row `y`: the `try` body on each
      valid date, in order, into row `row`. */
  method WriteMonth(value: array<real>, years: nat, accum: array2<real>, total: array<real>, ghost st: Acc,
                    y: nat, mc: nat, row: nat, doy: nat, before: real)
    returns (doy': nat, before': real)
    modifies accum, total
    requires value.Length == GridSize(years, 1) && y < years && mc < 12
    requires value != total && accum.Length0 == total.Length
    requires Holds(accum, total, st) && st.target == row && st.doy == doy && st.before == before
    ensures Holds(accum, total, DaysUpTo(st, value[..], years, y, mc, 31))
    ensures doy' == DaysUpTo(st, value[..], years, y, mc, 31).doy
    ensures before' == DaysUpTo(st, value[..], years, y, mc, 31).before
    ensures DaysUpTo(st, value[..], years, y, mc, 31).target == row
  {
    ghost var g := value[..];
    ghost var cur := st;
    doy', before' := doy, before;
    var dc := 0;
    while dc < 31
      invariant dc <= 31 && accum.Length0 == total.Length
      invariant cur == DaysUpTo(st, g, years, y, mc, dc)
      invariant Holds(accum, total, cur) && cur.target == row && doy' == cur.doy && before' == cur.before
    {
      if IsValidDate(y + BeginYear, mc + 1, dc + 1) {
        CellInGrid(y, mc, dc, 0, years, 1);
        var v := value[Cell(y, mc, dc, 0, 1)];
        assert v == Averages.CellAt(g, years, y, mc, dc);
        doy', before' := WriteDay(accum, total, cur, row, doy', before', v);
        cur := WriteOne(cur, v);
      }
      dc := dc + 1;
    }
  }

  /** After December: a zero slot 365 of row `y` gets slot 364. */
  method RepairDecember(accum: array2<real>, total: array<real>, ghost st: Acc, y: nat)
    modifies accum
    requires y < accum.Length0 && accum.Length1 == Days
    requires Holds(accum, total, st)
    ensures Holds(accum, total, Fix(Snowfall, st, y, 11))
  {
    if accum[y, 365] == 0.0 {
      accum[y, 365] := accum[y, 364];
    }
  }

  /** `prcp_accum` and `total_accum`: for every year, the carry reset and
      the valid dates of the year in order. `day_of_year` and `day_before`
      come in as the average loop left them. */
  method PrecipitationAccumulation(value: array<real>, years: nat, doy0: nat, before0: real)
    returns (accum: array2<real>, total: array<real>)
    requires value.Length == GridSize(years, 1)
    ensures fresh(accum) && fresh(total) && accum.Length1 == Days
    ensures Holds(accum, total, Accumulate(Precipitation, value[..], years, doy0, before0))
  {
    accum := new real[years, Days]((_, _) => 0.0);
    total := new real[years](_ => 0.0);
    ghost var g := value[..];
    ghost var st := Start(Precipitation, years, doy0, before0);
    var doy, before := doy0, before0;
    var y := 0;
    while y < years
      invariant y <= years && accum.Length0 == years && accum.Length1 == Days && total.Length == years
      invariant st == YearsUpTo(Precipitation, Start(Precipitation, years, doy0, before0), g, years, y)
      invariant Holds(accum, total, st) && doy == st.doy && before == st.before
    {
      doy, before := 0, 0.0;
      st := YearReset(Precipitation, st, y);
      ghost var start := st;
      var mc := 0;
      while mc < 12
        invariant mc <= 12 && accum.Length0 == years && accum.Length1 == Days && total.Length == years
        invariant st == MonthsOfYear(Precipitation, start, g, years, y, mc)
        invariant Holds(accum, total, st) && doy == st.doy && before == st.before && st.target == y
      {
        ghost var m := st;
        assert MonthReset(Precipitation, m, y, mc) == m;
        doy, before := WriteMonth(value, years, accum, total, m, y, mc, y, doy, before);
        st := DaysUpTo(m, g, years, y, mc, 31);
        assert MonthStep(Precipitation, m, g, years, y, mc) == st;
        mc := mc + 1;
      }
      y := y + 1;
    }
  }

  /** `snow_accum` and `total_accum`: before every October the target row
      moves on to `year_counter + 1` with a zero carry, and after every
      December row `year_counter` gets slot 364 copied into a zero slot
      365. `day_of_year` and `day_before` come in as the average loop left
      them. */
  method SnowfallAccumulation(value: array<real>, years: nat, doy0: nat, before0: real)
    returns (accum: array2<real>, total: array<real>)
    requires value.Length == GridSize(years, 1)
    ensures fresh(accum) && fresh(total) && accum.Length1 == Days
    ensures Holds(accum, total, Accumulate(Snowfall, value[..], years, doy0, before0))
  {
    accum := new real[years + 1, Days]((_, _) => 0.0);
    total := new real[years + 1](_ => 0.0);
    ghost var g := value[..];
    ghost var st := Start(Snowfall, years, doy0, before0);
    var row, doy, before := 0, doy0, before0;
    var y := 0;
    while y < years
      invariant y <= years && accum.Length0 == years + 1 && accum.Length1 == Days && total.Length == years + 1
      invariant st == YearsUpTo(Snowfall, Start(Snowfall, years, doy0, before0), g, years, y)
      invariant Holds(accum, total, st) && row == st.target && doy == st.doy && before == st.before
    {
      ghost var start := st;
      assert YearReset(Snowfall, start, y) == start;
      var mc := 0;
      while mc < 12
        invariant mc <= 12 && accum.Length0 == years + 1 && accum.Length1 == Days && total.Length == years + 1
        invariant st == MonthsOfYear(Snowfall, start, g, years, y, mc)
        invariant Holds(accum, total, st) && row == st.target && doy == st.doy && before == st.before
      {
        if mc == 9 {
          row, doy, before := y + 1, 0, 0.0;
        }
        ghost var m := MonthReset(Snowfall, st, y, mc);
        doy, before := WriteMonth(value, years, accum, total, m, y, mc, row, doy, before);
        st := DaysUpTo(m, g, years, y, mc, 31);
        if mc + 1 == 12 {
          RepairDecember(accum, total, st, y);
        }
        st := Fix(Snowfall, st, y, mc);
        mc := mc + 1;
      }
      y := y + 1;
    }
  }

  /** The repair of a row of 365 running sums: slot 365, still zero,
      receives slot 364, the total, and the other slots stay. */
  lemma FixedRowCompletes(vs: seq<real>)
    requires |vs| == 365
    ensures FixedRow(ExpectedRow(vs))[365] == Sum(vs)
    ensures forall k :: 0 <= k < 365 ==> FixedRow(ExpectedRow(vs))[k] == RunningSum(vs)[k]
  {
    ExpectedRowShape(vs);
  }

  /** So a season without February 29 ends, in slot 365 of its repaired
      row, with the season's total, the same value as slot 364. */
  lemma CommonSeasonRepaired(g: seq<real>, years: nat, r: nat)
    requires |g| == GridSize(years, 1) && r >= 1
    requires MinYear <= r - 1 + BeginYear && r + BeginYear <= MaxYear && !IsLeap(r + BeginYear)
    ensures FixedRow(ExpectedRow(SeasonValues(g, years, r)))[365] == Sum(SeasonValues(g, years, r))
    ensures FixedRow(ExpectedRow(SeasonValues(g, years, r)))[364] == Sum(SeasonValues(g, years, r))
  {
    SeasonLength(g, years, r);
    FixedRowCompletes(SeasonValues(g, years, r));
  }
}
