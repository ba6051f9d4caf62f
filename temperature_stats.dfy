/** The per-calendar-day statistics of `plot_temperature` in
    `ghcnpy/plotting.py`: the grid of TMAX and TMIN in degrees Celsius is
    masked where it holds the missing value -9999 and converted to
    Fahrenheit; then for every month and day of the calendar the record
    maximum and minimum over all years and the averages over the years
    1980 to 2009 are taken. A masked value is `None`; a reduction over a
    column with no unmasked value is `None` too. The (12, 31) tables are
    flattened: month index `m` and day index `d` sit at `m * 31 + d`. */
module TemperatureStats {
  import opened PyModel
  import opened DailyGrid

  /** `begin_year`. */
  const BeginYear := 1895

  /** The element indices `tmax` and `tmin`, of `num_elements = 2`. */
  const TMax := 0
  const TMin := 1
  const ElementCount := 2

  /** The slots of a (12, 31) table. */
  const TableSize := 372

  /** `ma.masked_values(v, -9999.)` with numpy's default tolerances
      `atol = 1e-8` and `rtol = 1e-5`. */
  predicate Masked(v: real) {
    var tol := 0.00000001 + 0.00001 * 9999.0;
    -tol <= v + 9999.0 <= tol
  }

  /** `(v * 1.8) + 32`: Celsius to Fahrenheit. */
  function Fahrenheit(c: real): real {
    c * 1.8 + 32.0
  }

  /** The conversion is strictly increasing. */
  lemma FahrenheitMonotone(a: real, b: real)
    ensures a < b <==> Fahrenheit(a) < Fahrenheit(b)
    ensures a == b <==> Fahrenheit(a) == Fahrenheit(b)
  {
  }

  /** Lifting the conversion to a possibly masked value. */
  function OptF(o: Option<real>): (r: Option<real>)
    ensures r.Some? <==> o.Some?
  {
    if o.None? then None else Some(Fahrenheit(o.value))
  }

  function MapF(vs: seq<Option<real>>): (r: seq<Option<real>>)
    ensures |r| == |vs| && forall k :: 0 <= k < |vs| ==> r[k] == OptF(vs[k])
  {
    seq(|vs|, k requires 0 <= k < |vs| => OptF(vs[k]))
  }

  /** A grid value with the missing value masked, in Celsius. */
  function Unmasked(v: real): Option<real> {
    if Masked(v) then None else Some(v)
  }

  /** One value of `ghcnd_nonmiss`: masked, then converted. */
  function NonMiss(v: real): (r: Option<real>)
    ensures r == OptF(Unmasked(v))
  {
    if Masked(v) then None else Some(Fahrenheit(v))
  }

  /** Grid cell `[y, m, d, e]` of the two-element grid. */
  function At(g: seq<real>, years: nat, y: nat, m: nat, d: nat, e: nat): real
    requires |g| == GridSize(years, ElementCount) && y < years && m < 12 && d < 31 && e < ElementCount
  {
    CellInGrid(y, m, d, e, years, ElementCount);
    g[Cell(y, m, d, e, ElementCount)]
  }

  /** `ghcnd_value[:, m, d, e]` with the missing value masked, in Celsius. */
  function RawColumn(g: seq<real>, years: nat, m: nat, d: nat, e: nat): (r: seq<Option<real>>)
    requires |g| == GridSize(years, ElementCount) && m < 12 && d < 31 && e < ElementCount
    ensures |r| == years && forall y :: 0 <= y < years ==> r[y] == Unmasked(At(g, years, y, m, d, e))
  {
    seq(years, y requires 0 <= y < years => Unmasked(At(g, years, y, m, d, e)))
  }

  /** `ghcnd_nonmiss[:, m, d, e]`. */
  function Column(g: seq<real>, years: nat, m: nat, d: nat, e: nat): (r: seq<Option<real>>)
    requires |g| == GridSize(years, ElementCount) && m < 12 && d < 31 && e < ElementCount
    ensures |r| == years && forall y :: 0 <= y < years ==> r[y] == NonMiss(At(g, years, y, m, d, e))
  {
    seq(years, y requires 0 <= y < years => NonMiss(At(g, years, y, m, d, e)))
  }

  /** The converted column is the raw column converted. */
  lemma ColumnIsConverted(g: seq<real>, years: nat, m: nat, d: nat, e: nat)
    requires |g| == GridSize(years, ElementCount) && m < 12 && d < 31 && e < ElementCount
    ensures Column(g, years, m, d, e) == MapF(RawColumn(g, years, m, d, e))
  {
  }

  // ---------------------------------------------------------------------
  // Masked reductions

  function Larger(a: Option<real>, b: Option<real>): Option<real> {
    if a.None? then b else if b.None? then a else if a.value < b.value then b else a
  }

  function Smaller(a: Option<real>, b: Option<real>): Option<real> {
    if a.None? then b else if b.None? then a else if b.value < a.value then b else a
  }

  /** `ma.max`: the largest unmasked value, masked when every value is. */
  function MaxMasked(vs: seq<Option<real>>): (r: Option<real>)
    ensures r.None? <==> forall k :: 0 <= k < |vs| ==> vs[k].None?
    ensures r.Some? ==> forall k :: 0 <= k < |vs| && vs[k].Some? ==> vs[k].value <= r.value
    ensures r.Some? ==> exists k :: 0 <= k < |vs| && vs[k] == r
  {
    if vs == [] then None
    else
      var front := vs[..|vs| - 1];
      assert forall k :: 0 <= k < |front| ==> front[k] == vs[k];
      Larger(MaxMasked(front), vs[|vs| - 1])
  }

  /** `ma.min`: the smallest unmasked value, masked when every value is. */
  function MinMasked(vs: seq<Option<real>>): (r: Option<real>)
    ensures r.None? <==> forall k :: 0 <= k < |vs| ==> vs[k].None?
    ensures r.Some? ==> forall k :: 0 <= k < |vs| && vs[k].Some? ==> r.value <= vs[k].value
    ensures r.Some? ==> exists k :: 0 <= k < |vs| && vs[k] == r
  {
    if vs == [] then None
    else
      var front := vs[..|vs| - 1];
      assert forall k :: 0 <= k < |front| ==> front[k] == vs[k];
      Smaller(MinMasked(front), vs[|vs| - 1])
  }

  /** Taking the maximum commutes with the conversion. */
  lemma MaxCommutes(vs: seq<Option<real>>)
    ensures MaxMasked(MapF(vs)) == OptF(MaxMasked(vs))
  {
    var l := MaxMasked(MapF(vs));
    var r := MaxMasked(vs);
    if r.Some? {
      var i :| 0 <= i < |vs| && vs[i] == r;
      var j :| 0 <= j < |vs| && MapF(vs)[j] == l;
      assert MapF(vs)[i].value <= l.value;
      assert vs[j].value <= r.value;
      FahrenheitMonotone(vs[j].value, r.value);
      FahrenheitMonotone(r.value, l.value);
    } else {
      assert forall k :: 0 <= k < |vs| ==> MapF(vs)[k].None?;
    }
  }

  /** Taking the minimum commutes with the conversion. */
  lemma MinCommutes(vs: seq<Option<real>>)
    ensures MinMasked(MapF(vs)) == OptF(MinMasked(vs))
  {
    var l := MinMasked(MapF(vs));
    var r := MinMasked(vs);
    if r.Some? {
      var i :| 0 <= i < |vs| && vs[i] == r;
      var j :| 0 <= j < |vs| && MapF(vs)[j] == l;
      assert l.value <= MapF(vs)[i].value;
      assert r.value <= vs[j].value;
      FahrenheitMonotone(r.value, vs[j].value);
      FahrenheitMonotone(l.value, r.value);
    } else {
      assert forall k :: 0 <= k < |vs| ==> MapF(vs)[k].None?;
    }
  }

  /** How many values are unmasked. */
  function CountSome(vs: seq<Option<real>>): (n: nat)
    ensures n <= |vs|
  {
    if vs == [] then 0 else CountSome(vs[..|vs| - 1]) + (if vs[|vs| - 1].Some? then 1 else 0)
  }

  /** The sum of the unmasked values. */
  function SumSome(vs: seq<Option<real>>): real {
    if vs == [] then 0.0 else SumSome(vs[..|vs| - 1]) + (if vs[|vs| - 1].Some? then vs[|vs| - 1].value else 0.0)
  }

  /** `ma.average`: the mean of the unmasked values, masked when there are
      none. */
  function MeanMasked(vs: seq<Option<real>>): (r: Option<real>)
    ensures r.None? <==> CountSome(vs) == 0
  {
    if CountSome(vs) == 0 then None else Some(SumSome(vs) / (CountSome(vs) as real))
  }

  /** No unmasked value is the same as a zero count. */
  lemma {:induction false} CountZero(vs: seq<Option<real>>)
    ensures CountSome(vs) == 0 <==> forall k :: 0 <= k < |vs| ==> vs[k].None?
  {
    if vs != [] {
      var front := vs[..|vs| - 1];
      CountZero(front);
      assert forall k :: 0 <= k < |front| ==> front[k] == vs[k];
    }
  }

  /** The conversion keeps which values are masked and turns their sum into
      the converted sum. */
  lemma {:induction false} SumConverted(vs: seq<Option<real>>)
    ensures CountSome(MapF(vs)) == CountSome(vs)
    ensures SumSome(MapF(vs)) == 1.8 * SumSome(vs) + 32.0 * (CountSome(vs) as real)
  {
    if vs != [] {
      var front := vs[..|vs| - 1];
      SumConverted(front);
      assert MapF(vs)[..|vs| - 1] == MapF(front);
    }
  }

  /** Dividing the converted sum by the count converts the mean. */
  lemma AffineMean(s: real, n: real)
    requires n > 0.0
    ensures (1.8 * s + 32.0 * n) / n == 1.8 * (s / n) + 32.0
  {
    assert (1.8 * s + 32.0 * n) / n == (1.8 * s) / n + (32.0 * n) / n;
    assert (1.8 * s) / n == 1.8 * (s / n);
    assert (32.0 * n) / n == 32.0;
  }

  /** The mean commutes with the conversion: averaging Fahrenheit values is
      converting the Celsius average. */
  lemma MeanCommutes(vs: seq<Option<real>>)
    ensures MeanMasked(MapF(vs)) == OptF(MeanMasked(vs))
  {
    SumConverted(vs);
    if CountSome(vs) > 0 {
      var n := CountSome(vs) as real;
      var s := SumSome(vs);
      AffineMean(s, n);
    }
  }

  // ---------------------------------------------------------------------
  // The four tables

  /** `ma.max(ghcnd_nonmiss[:, m, d, tmax])`. */
  function RecordMax(g: seq<real>, years: nat, m: nat, d: nat): Option<real>
    requires |g| == GridSize(years, ElementCount) && m < 12 && d < 31
  {
    MaxMasked(Column(g, years, m, d, TMax))
  }

  /** `ma.min(ghcnd_nonmiss[:, m, d, tmin])`. */
  function RecordMin(g: seq<real>, years: nat, m: nat, d: nat): Option<real>
    requires |g| == GridSize(years, ElementCount) && m < 12 && d < 31
  {
    MinMasked(Column(g, years, m, d, TMin))
  }

  /** The slice `[(1980 - begin_year):(2010 - begin_year)]` of a column. */
  function Window(vs: seq<Option<real>>): (w: seq<Option<real>>)
    ensures |w| <= |vs|
  {
    var lo := SliceBound(1980 - BeginYear, |vs|);
    var hi := SliceBound(2010 - BeginYear, |vs|);
    if lo < hi then vs[lo..hi] else []
  }

  /** The window holds the column's entries for the calendar years 1980 to
      2009, those the grid has, in order: thirty years once the grid
      reaches 2009, and not the 1981 to 2010 the comment beside it names. */
  lemma WindowYears(vs: seq<Option<real>>)
    ensures |Window(vs)| == Max(0, Min(|vs|, 2010 - BeginYear) - (1980 - BeginYear))
    ensures forall k :: 0 <= k < |Window(vs)| ==> Window(vs)[k] == vs[k + (1980 - BeginYear)]
    ensures |vs| >= 2010 - BeginYear ==> |Window(vs)| == 30
  {
  }

  /** `ma.average(ghcnd_nonmiss[85:115, m, d, e])`. */
  function WindowAverage(g: seq<real>, years: nat, m: nat, d: nat, e: nat): Option<real>
    requires |g| == GridSize(years, ElementCount) && m < 12 && d < 31 && e < ElementCount
  {
    MeanMasked(Window(Column(g, years, m, d, e)))
  }

  /** The record maximum is the Fahrenheit value of the highest unmasked
      Celsius TMAX of that calendar day over all years, and is masked
      exactly when every year's value is missing. */
  lemma RecordMaxIsConverted(g: seq<real>, years: nat, m: nat, d: nat)
    requires |g| == GridSize(years, ElementCount) && m < 12 && d < 31
    ensures RecordMax(g, years, m, d) == OptF(MaxMasked(RawColumn(g, years, m, d, TMax)))
    ensures RecordMax(g, years, m, d).None? <==> forall y :: 0 <= y < years ==> Masked(At(g, years, y, m, d, TMax))
  {
    ColumnIsConverted(g, years, m, d, TMax);
    MaxCommutes(RawColumn(g, years, m, d, TMax));
  }

  /** The record minimum is the Fahrenheit value of the lowest unmasked
      Celsius TMIN of that calendar day over all years, and is masked
      exactly when every year's value is missing. */
  lemma RecordMinIsConverted(g: seq<real>, years: nat, m: nat, d: nat)
    requires |g| == GridSize(years, ElementCount) && m < 12 && d < 31
    ensures RecordMin(g, years, m, d) == OptF(MinMasked(RawColumn(g, years, m, d, TMin)))
    ensures RecordMin(g, years, m, d).None? <==> forall y :: 0 <= y < years ==> Masked(At(g, years, y, m, d, TMin))
  {
    ColumnIsConverted(g, years, m, d, TMin);
    MinCommutes(RawColumn(g, years, m, d, TMin));
  }

  /** The averages are the Fahrenheit values of the Celsius averages over
      the window's unmasked values. */
  lemma AverageIsConverted(g: seq<real>, years: nat, m: nat, d: nat, e: nat)
    requires |g| == GridSize(years, ElementCount) && m < 12 && d < 31 && e < ElementCount
    ensures WindowAverage(g, years, m, d, e) == OptF(MeanMasked(Window(RawColumn(g, years, m, d, e))))
  {
    var raw := RawColumn(g, years, m, d, e);
    ColumnIsConverted(g, years, m, d, e);
    assert Window(MapF(raw)) == MapF(Window(raw));
    MeanCommutes(Window(raw));
  }

  /** The table entry of month index `m`, day index `d`. */
  function Entry(m: nat, d: nat): (k: nat)
    requires m < 12 && d < 31
    ensures k < TableSize
  {
    m * 31 + d
  }

  /** The month-and-day pairs the loop has visited before `(m, d)`. */
  predicate Before(m': nat, d': nat, m: nat, d: nat) {
    d' < 31 && (m' < m || (m' == m && d' < d))
  }

  /** The entries are laid out month after month. */
  lemma EntryOrder(m': nat, d': nat, m: nat, d: nat)
    requires m' < 12 && m < 12 && d < 31 && Before(m', d', m, d)
    ensures Entry(m', d') < Entry(m, d)
  {
  }

  /** The four statistics of one calendar day. */
  datatype DayStats = DayStats(recordMax: Option<real>, recordMin: Option<real>,
                               averageMax: Option<real>, averageMin: Option<real>)

  function StatsOf(g: seq<real>, years: nat, m: nat, d: nat): DayStats
    requires |g| == GridSize(years, ElementCount) && m < 12 && d < 31
  {
    DayStats(RecordMax(g, years, m, d), RecordMin(g, years, m, d),
             WindowAverage(g, years, m, d, TMax), WindowAverage(g, years, m, d, TMin))
  }

  /** The four tables hold the statistics of the calendar days before `(m, d)`. */
  ghost predicate FilledBefore(recordMax: array<Option<real>>, recordMin: array<Option<real>>,
                               averageMax: array<Option<real>>, averageMin: array<Option<real>>,
                               stats: (nat, nat) -> DayStats, m: nat, d: nat)
    reads recordMax, recordMin, averageMax, averageMin
  {
    && recordMax.Length == recordMin.Length == averageMax.Length == averageMin.Length == TableSize
    && (forall m': nat, d': nat :: m' < 12 && Before(m', d', m, d) ==> recordMax[Entry(m', d')] == stats(m', d').recordMax)
    && (forall m': nat, d': nat :: m' < 12 && Before(m', d', m, d) ==> recordMin[Entry(m', d')] == stats(m', d').recordMin)
    && (forall m': nat, d': nat :: m' < 12 && Before(m', d', m, d) ==> averageMax[Entry(m', d')] == stats(m', d').averageMax)
    && (forall m': nat, d': nat :: m' < 12 && Before(m', d', m, d) ==> averageMin[Entry(m', d')] == stats(m', d').averageMin)
  }

  /** The day loop of month `m`. */
  method FillMonth(recordMax: array<Option<real>>, recordMin: array<Option<real>>,
                   averageMax: array<Option<real>>, averageMin: array<Option<real>>,
                   stats: (nat, nat) -> DayStats, m: nat)
    modifies recordMax, recordMin, averageMax, averageMin
    requires m < 12
    requires recordMax != recordMin && recordMax != averageMax && recordMax != averageMin
    requires recordMin != averageMax && recordMin != averageMin && averageMax != averageMin
    requires FilledBefore(recordMax, recordMin, averageMax, averageMin, stats, m, 0)
    ensures FilledBefore(recordMax, recordMin, averageMax, averageMin, stats, m + 1, 0)
  {
    var d := 0;
    while d < 31
      invariant d <= 31
      invariant FilledBefore(recordMax, recordMin, averageMax, averageMin, stats, m, d)
    {
      FillDay(recordMax, recordMin, averageMax, averageMin, stats, m, d);
      d := d + 1;
    }
    assert forall m': nat, d': nat :: Before(m', d', m + 1, 0) ==> Before(m', d', m, 31);
  }

  /** The body of the day loop: the four statistics of day `d` of month `m`. */
  method FillDay(recordMax: array<Option<real>>, recordMin: array<Option<real>>,
                 averageMax: array<Option<real>>, averageMin: array<Option<real>>,
                 stats: (nat, nat) -> DayStats, m: nat, d: nat)
    modifies recordMax, recordMin, averageMax, averageMin
    requires m < 12 && d < 31
    requires recordMax != recordMin && recordMax != averageMax && recordMax != averageMin
    requires recordMin != averageMax && recordMin != averageMin && averageMax != averageMin
    requires FilledBefore(recordMax, recordMin, averageMax, averageMin, stats, m, d)
    ensures FilledBefore(recordMax, recordMin, averageMax, averageMin, stats, m, d + 1)
  {
    var k := Entry(m, d);
    forall m': nat, d': nat | m' < 12 && Before(m', d', m, d)
      ensures Entry(m', d') != k
    {
      EntryOrder(m', d', m, d);
    }
    var s := stats(m, d);
    recordMax[k] := s.recordMax;
    recordMin[k] := s.recordMin;
    averageMax[k] := s.averageMax;
    averageMin[k] := s.averageMin;
  }

  /** The month and day loops of the statistics, for any statistic. */
  method FillTables(stats: (nat, nat) -> DayStats)
    returns (recordMax: array<Option<real>>, recordMin: array<Option<real>>,
             averageMax: array<Option<real>>, averageMin: array<Option<real>>)
    ensures recordMax.Length == recordMin.Length == averageMax.Length == averageMin.Length == TableSize
    ensures forall m: nat, d: nat :: m < 12 && d < 31 ==> recordMax[Entry(m, d)] == stats(m, d).recordMax
    ensures forall m: nat, d: nat :: m < 12 && d < 31 ==> recordMin[Entry(m, d)] == stats(m, d).recordMin
    ensures forall m: nat, d: nat :: m < 12 && d < 31 ==> averageMax[Entry(m, d)] == stats(m, d).averageMax
    ensures forall m: nat, d: nat :: m < 12 && d < 31 ==> averageMin[Entry(m, d)] == stats(m, d).averageMin
  {
    recordMax := new Option<real>[TableSize](_ => Some(-9999.0));
    recordMin := new Option<real>[TableSize](_ => Some(-9999.0));
    averageMax := new Option<real>[TableSize](_ => Some(-9999.0));
    averageMin := new Option<real>[TableSize](_ => Some(-9999.0));
    var m := 0;
    while m < 12
      invariant m <= 12
      invariant FilledBefore(recordMax, recordMin, averageMax, averageMin, stats, m, 0)
    {
      FillMonth(recordMax, recordMin, averageMax, averageMin, stats, m);
      m := m + 1;
    }
    assert forall m': nat, d': nat :: m' < 12 && d' < 31 ==> Before(m', d', 12, 0);
  }

  /** The statistics loop of `plot_temperature`: for every month and day
      index, the two records and the two averages. */
  method DailyStatistics(grid: array<real>, years: nat)
    returns (recordMax: array<Option<real>>, recordMin: array<Option<real>>,
             averageMax: array<Option<real>>, averageMin: array<Option<real>>)
    requires grid.Length == GridSize(years, ElementCount)
    ensures recordMax.Length == recordMin.Length == averageMax.Length == averageMin.Length == TableSize
    ensures forall m: nat, d: nat :: m < 12 && d < 31 ==> recordMax[Entry(m, d)] == RecordMax(grid[..], years, m, d)
    ensures forall m: nat, d: nat :: m < 12 && d < 31 ==> recordMin[Entry(m, d)] == RecordMin(grid[..], years, m, d)
    ensures forall m: nat, d: nat :: m < 12 && d < 31 ==> averageMax[Entry(m, d)] == WindowAverage(grid[..], years, m, d, TMax)
    ensures forall m: nat, d: nat :: m < 12 && d < 31 ==> averageMin[Entry(m, d)] == WindowAverage(grid[..], years, m, d, TMin)
  {
    var g := grid[..];
    var stats := (m: nat, d: nat) => if m < 12 && d < 31 then StatsOf(g, years, m, d) else DayStats(None, None, None, None);
    recordMax, recordMin, averageMax, averageMin := FillTables(stats);
  }
}
