/** `to_datastructure` and `output_to_csv` of `ghcnpy/iotools.py`: read a
    station's `.dly` lines into a grid of shape (years, 12, 31, 5) that
    starts at -9999 everywhere, then list one row per date that has any of
    the five elements. The grid's first row is the year of the first line
    and its row count runs to the year of the last line. */
module IoTools {
  import opened PyModel
  import opened DlyRecord
  import opened DailyGrid

  /** The missing-value sentinel the grid starts with. */
  const Missing: real := -9999.0

  /** `[YYYY, MM, DD, TMAX, TMIN, PRCP, SNOW, SNWD]`. */
  datatype Row = Row(year: int, month: int, day: int, tmax: real, tmin: real, prcp: real, snow: real, snwd: real)

  /** The header line `output_to_csv` writes first. */
  const CsvHeader := "YYYY,MM,DD,TMAX,TMIN,PRCP,SNOW,SNWD"

  /** What `output_to_csv` writes: the header, then one line per row. */
  datatype Csv = Csv(header: string, rows: seq<Row>)

  /** The reader of `iotools.py`: five elements, a flag that strips to
      blank, row 0 at year `begin`. */
  function GridReader(begin: int, years: nat): (rd: Reader)
    ensures ValidReader(rd) && rd.ne == 5
  {
    GridElementsExact("TMAX");
    Reader(GridElements, StripsToBlank, begin, years, 5)
  }

  /** Date position `p` counts (year, month, day) cells in loop order:
      p = (y * 12 + m) * 31 + d. */
  lemma PositionParts(y: nat, m: nat, d: nat)
    requires m < 12 && d < 31
    ensures var p := (y * 12 + m) * 31 + d; p / 372 == y && (p / 31) % 12 == m && p % 31 == d
  {
    var p := (y * 12 + m) * 31 + d;
    assert p == y * 372 + m * 31 + d;
    assert p / 31 == y * 12 + m;
  }

  /** Some element of the date at position `p` differs from -9999. */
  predicate HasData(g: seq<real>, p: nat)
    requires 5 * p + 5 <= |g|
  {
    g[5 * p] != Missing || g[5 * p + 1] != Missing || g[5 * p + 2] != Missing
    || g[5 * p + 3] != Missing || g[5 * p + 4] != Missing
  }

  function RowAt(g: seq<real>, begin: int, p: nat): Row
    requires 5 * p + 5 <= |g|
  {
    Row(begin + p / 372, (p / 31) % 12 + 1, p % 31 + 1,
        g[5 * p], g[5 * p + 1], g[5 * p + 2], g[5 * p + 3], g[5 * p + 4])
  }

  /** The rows of the date positions before `n`, in loop order. */
  function RowsUpTo(g: seq<real>, begin: int, n: nat): seq<Row>
    requires 5 * n <= |g|
  {
    if n == 0 then []
    else RowsUpTo(g, begin, n - 1) + (if HasData(g, n - 1) then [RowAt(g, begin, n - 1)] else [])
  }

  /** Where a row's date sits among the date positions. */
  function Key(r: Row, begin: int): int {
    ((r.year - begin) * 12 + r.month - 1) * 31 + r.day - 1
  }

  /** (year, month, day) order. */
  predicate DateBefore(a: Row, b: Row) {
    a.year < b.year || (a.year == b.year && (a.month < b.month || (a.month == b.month && a.day < b.day)))
  }

  lemma RowAtKey(g: seq<real>, begin: int, p: nat)
    requires 5 * p + 5 <= |g|
    ensures Key(RowAt(g, begin, p), begin) == p
    ensures 1 <= RowAt(g, begin, p).month <= 12 && 1 <= RowAt(g, begin, p).day <= 31
    ensures RowAt(g, begin, p).year == begin + p / 372
  {
    var r := RowAt(g, begin, p);
    assert p / 372 == (p / 31) / 12;
    assert (p / 31) == (p / 31) / 12 * 12 + (p / 31) % 12;
  }

  /** On rows whose month is 1..12 and day 1..31, key order is date order. */
  lemma KeyOrderIsDateOrder(a: Row, b: Row, begin: int)
    requires 1 <= a.month <= 12 && 1 <= a.day <= 31 && 1 <= b.month <= 12 && 1 <= b.day <= 31
    ensures Key(a, begin) < Key(b, begin) <==> DateBefore(a, b)
  {
  }

  /** Every row's key is below `n`, its month in 1..12 and its day in 1..31. */
  predicate KeysBelow(rows: seq<Row>, begin: int, n: nat) {
    forall i :: 0 <= i < |rows| ==>
      0 <= Key(rows[i], begin) < n && 1 <= rows[i].month <= 12 && 1 <= rows[i].day <= 31
  }

  predicate KeysIncreasing(rows: seq<Row>, begin: int) {
    forall i, j :: 0 <= i < j < |rows| ==> Key(rows[i], begin) < Key(rows[j], begin)
  }

  /** The rows before `n` have keys below `n`, strictly increasing, and
      months and days in range. */
  lemma {:induction false} RowsUpToKeys(g: seq<real>, begin: int, n: nat)
    requires 5 * n <= |g|
    ensures KeysBelow(RowsUpTo(g, begin, n), begin, n)
    ensures KeysIncreasing(RowsUpTo(g, begin, n), begin)
  {
    if n > 0 {
      RowsUpToKeys(g, begin, n - 1);
      var prev := RowsUpTo(g, begin, n - 1);
      var rows := RowsUpTo(g, begin, n);
      if HasData(g, n - 1) {
        RowAtKey(g, begin, n - 1);
        assert rows == prev + [RowAt(g, begin, n - 1)];
        forall i | 0 <= i < |rows|
          ensures 0 <= Key(rows[i], begin) < n && 1 <= rows[i].month <= 12 && 1 <= rows[i].day <= 31
        {
          if i < |prev| {
            assert rows[i] == prev[i];
          }
        }
        forall i, j | 0 <= i < j < |rows|
          ensures Key(rows[i], begin) < Key(rows[j], begin)
        {
          assert rows[i] == prev[i];
          if j < |prev| {
            assert rows[j] == prev[j];
          }
        }
      } else {
        assert rows == prev;
      }
    }
  }

  /** Some row has key `p`. */
  predicate HasKey(rows: seq<Row>, begin: int, p: int) {
    exists i :: 0 <= i < |rows| && Key(rows[i], begin) == p
  }

  /** Every row with key `p` is `r`. */
  predicate KeyHolds(rows: seq<Row>, begin: int, p: int, r: Row) {
    forall i :: 0 <= i < |rows| && Key(rows[i], begin) == p ==> rows[i] == r
  }

  /** A date position has a row exactly when it has data, and that row holds
      the five cells of the date. */
  lemma {:induction false} RowsUpToExact(g: seq<real>, begin: int, n: nat, p: nat)
    requires 5 * n <= |g| && p < n
    ensures HasKey(RowsUpTo(g, begin, n), begin, p) <==> HasData(g, p)
    ensures KeyHolds(RowsUpTo(g, begin, n), begin, p, RowAt(g, begin, p))
  {
    var rows := RowsUpTo(g, begin, n);
    var prev := RowsUpTo(g, begin, n - 1);
    RowsUpToKeys(g, begin, n - 1);
    var added := if HasData(g, n - 1) then [RowAt(g, begin, n - 1)] else [];
    assert rows == prev + added;
    if HasData(g, n - 1) {
      RowAtKey(g, begin, n - 1);
      assert rows[|prev|] == RowAt(g, begin, n - 1);
    }
    if p < n - 1 {
      RowsUpToExact(g, begin, n - 1, p);
      forall i | 0 <= i < |rows| && Key(rows[i], begin) == p
        ensures i < |prev| && rows[i] == prev[i]
      {
      }
      if HasData(g, p) {
        var i :| 0 <= i < |prev| && Key(prev[i], begin) == p;
        assert rows[i] == prev[i];
      }
    } else {
      forall i | 0 <= i < |rows| && Key(rows[i], begin) == p
        ensures i == |prev|
      {
      }
      if HasData(g, p) {
        assert Key(rows[|prev|], begin) == p;
      }
    }
  }

  /** The output loops: every (year, month, day) of the grid in order, a row
      for each date that has data. */
  method ExtractRows(grid: array<real>, begin: int, years: nat) returns (rows: seq<Row>)
    requires grid.Length == GridSize(years, 5)
    ensures rows == RowsUpTo(grid[..], begin, years * 372)
  {
    rows := [];
    var y := 0;
    while y < years
      invariant y <= years
      invariant rows == RowsUpTo(grid[..], begin, y * 372)
      decreases years - y
    {
      var m := 0;
      while m < 12
        invariant m <= 12
        invariant rows == RowsUpTo(grid[..], begin, (y * 12 + m) * 31)
        decreases 12 - m
      {
        var d := 0;
        while d < 31
          invariant d <= 31
          invariant rows == RowsUpTo(grid[..], begin, (y * 12 + m) * 31 + d)
          decreases 31 - d
        {
          rows := ExtractDay(grid, begin, years, y, m, d, rows);
          d := d + 1;
        }
        assert (y * 12 + m) * 31 + 31 == (y * 12 + (m + 1)) * 31;
        m := m + 1;
      }
      assert (y * 12 + 12) * 31 == (y + 1) * 372;
      y := y + 1;
    }
  }

  /** The body of the day loop: a row for the date if any element has data. */
  method ExtractDay(grid: array<real>, begin: int, years: nat, y: nat, m: nat, d: nat, rows: seq<Row>)
    returns (rows': seq<Row>)
    requires grid.Length == GridSize(years, 5) && y < years && m < 12 && d < 31
    requires rows == RowsUpTo(grid[..], begin, (y * 12 + m) * 31 + d)
    ensures rows' == RowsUpTo(grid[..], begin, (y * 12 + m) * 31 + d + 1)
  {
    var p := (y * 12 + m) * 31 + d;
    CellInGrid(y, m, d, 4, years, 5);
    PositionParts(y, m, d);
    rows' := rows;
    if grid[5 * p] != Missing || grid[5 * p + 1] != Missing || grid[5 * p + 2] != Missing
       || grid[5 * p + 3] != Missing || grid[5 * p + 4] != Missing {
      rows' := rows + [Row(y + begin, m + 1, d + 1,
                           grid[5 * p], grid[5 * p + 1], grid[5 * p + 2], grid[5 * p + 3], grid[5 * p + 4])];
    }
  }

  /** The first and last year texts, or the exception reading them
      raises: an empty file has no line 0 (IndexError); a text that does not
      convert raises ValueError; a last year before the first makes a
      negative dimension (ValueError). Answers row 0's year and the row
      count. */
  function YearRange(contents: seq<string>): (r: Result<(int, nat)>)
    ensures |contents| == 0 ==> r == Err(IndexError)
    ensures r.Err? ==> r.failure == IndexError || r.failure == ValueError
    ensures (&& |contents| > 0
             && ParseInt(YearText(contents[0])).Some? && ParseInt(YearText(contents[|contents| - 1])).Some?
             && ParseInt(YearText(contents[0])).value <= ParseInt(YearText(contents[|contents| - 1])).value)
            ==> r.Ok?
    ensures r.Ok? ==>
      && |contents| > 0
      && ParseInt(YearText(contents[0])) == Some(r.value.0)
      && ParseInt(YearText(contents[|contents| - 1])) == Some(r.value.0 + r.value.1 - 1)
  {
    if |contents| == 0 then Err(IndexError)
    else
      var first := ParseInt(YearText(contents[0]));
      var last := ParseInt(YearText(contents[|contents| - 1]));
      if first.None? || last.None? then Err(ValueError)
      else if last.value - first.value + 1 < 0 then Err(ValueError)
      else Ok((first.value, last.value - first.value + 1))
  }

  /** The grid filled from the decoded lines, starting all at -9999. */
  function GridFrom(begin: int, years: nat, fs: seq<LineFields>): (r: Result<seq<real>>)
    requires AllWellFormed(fs)
    ensures r.Ok? ==> |r.value| == GridSize(years, 5)
  {
    ApplyLines(GridReader(begin, years), seq(GridSize(years, 5), _ => Missing), fs, 0)
  }

  function RowsFrom(begin: int, years: nat, fs: seq<LineFields>): Result<seq<Row>>
    requires AllWellFormed(fs)
  {
    match GridFrom(begin, years, fs)
    case Err(f) => Err(f)
    case Ok(g) => Ok(RowsUpTo(g, begin, years * 372))
  }

  /** What `to_datastructure` returns for a file's lines. */
  function DataStructureOf(contents: seq<string>): Result<seq<Row>> {
    match YearRange(contents)
    case Err(f) => Err(f)
    case Ok((begin, years)) => RowsFrom(begin, years, FieldsOf(contents, StripsToBlank))
  }

  /** Fill the grid from the decoded lines and extract the rows. */
  method GridRows(begin: int, years: nat, fs: seq<LineFields>) returns (r: Result<seq<Row>>)
    requires AllWellFormed(fs)
    ensures r == RowsFrom(begin, years, fs)
  {
    var rd := GridReader(begin, years);
    var grid := new real[GridSize(years, 5)](_ => Missing);
    assert grid[..] == seq(GridSize(years, 5), _ => Missing);
    var scan := ReadLines(rd, fs, grid);
    if scan.Err? {
      return Err(scan.failure);
    }
    var rows := ExtractRows(grid, begin, years);
    r := Ok(rows);
  }

  /** `to_datastructure`: size the grid from the first and last lines,
      fill it, and list the rows; or the exception. */
  method ToDataStructure(contents: seq<string>) returns (r: Result<seq<Row>>)
    ensures r == DataStructureOf(contents)
  {
    var range := YearRange(contents);
    if range.Err? {
      return Err(range.failure);
    }
    r := GridRows(range.value.0, range.value.1, FieldsOf(contents, StripsToBlank));
  }

  /** `output_to_csv`: the header, then exactly the rows `to_datastructure`
      returns for the same file; the same exceptions. */
  method OutputToCsv(contents: seq<string>) returns (r: Result<Csv>)
    ensures r.Ok? <==> DataStructureOf(contents).Ok?
    ensures r.Ok? ==> r.value == Csv(CsvHeader, DataStructureOf(contents).value)
    ensures r.Err? ==> r.failure == DataStructureOf(contents).failure
  {
    var rows := ToDataStructure(contents);
    if rows.Err? {
      return Err(rows.failure);
    }
    r := Ok(Csv(CsvHeader, rows.value));
  }

  /** Every row has a month in 1..12, a day in 1..31 and a year of the grid. */
  predicate RowsInGrid(rows: seq<Row>, begin: int, years: nat) {
    forall i :: 0 <= i < |rows| ==>
      1 <= rows[i].month <= 12 && 1 <= rows[i].day <= 31 && begin <= rows[i].year < begin + years
  }

  predicate Ascending(rows: seq<Row>) {
    forall i, j :: 0 <= i < j < |rows| ==> DateBefore(rows[i], rows[j])
  }

  /** The rows are in strictly ascending (year, month, day) order, each
      with a month in 1..12, a day in 1..31 and a year of the grid. */
  lemma RowsAscending(begin: int, years: nat, fs: seq<LineFields>)
    requires AllWellFormed(fs) && RowsFrom(begin, years, fs).Ok?
    ensures RowsInGrid(RowsFrom(begin, years, fs).value, begin, years)
    ensures Ascending(RowsFrom(begin, years, fs).value)
  {
    var g := GridFrom(begin, years, fs).value;
    var rows := RowsUpTo(g, begin, years * 372);
    assert rows == RowsFrom(begin, years, fs).value;
    RowsUpToKeys(g, begin, years * 372);
    forall i, j | 0 <= i < j < |rows|
      ensures DateBefore(rows[i], rows[j])
    {
      KeyOrderIsDateOrder(rows[i], rows[j], begin);
    }
    forall i | 0 <= i < |rows|
      ensures begin <= rows[i].year < begin + years
    {
      var k := Key(rows[i], begin);
      assert 0 <= k < years * 372;
    }
  }

  /** Some row has date (year, month, day). */
  predicate HasDate(rows: seq<Row>, year: int, month: int, day: int) {
    exists i :: 0 <= i < |rows| && rows[i].year == year && rows[i].month == month && rows[i].day == day
  }

  /** Every row of date (year, month, day) holds these five values. */
  predicate DateHolds(rows: seq<Row>, year: int, month: int, day: int, tmax: real, tmin: real, prcp: real, snow: real, snwd: real) {
    forall i :: 0 <= i < |rows| && rows[i].year == year && rows[i].month == month && rows[i].day == day ==>
      rows[i].tmax == tmax && rows[i].tmin == tmin && rows[i].prcp == prcp && rows[i].snow == snow && rows[i].snwd == snwd
  }

  /** There is a row for date (begin + y, m + 1, d + 1) exactly when some
      element of it is not -9999, and the row's five values are the last
      values the file stored there (-9999 where no line stored one). */
  lemma RowsAreDatesWithData(begin: int, years: nat, fs: seq<LineFields>, y: nat, m: nat, d: nat)
    requires AllWellFormed(fs) && RowsFrom(begin, years, fs).Ok?
    requires y < years && m < 12 && d < 31
    ensures 5 * ((y * 12 + m) * 31 + d) + 5 <= |GridFrom(begin, years, fs).value|
    ensures HasDate(RowsFrom(begin, years, fs).value, begin + y, m + 1, d + 1)
            <==> HasData(GridFrom(begin, years, fs).value, (y * 12 + m) * 31 + d)
    ensures DateHolds(RowsFrom(begin, years, fs).value, begin + y, m + 1, d + 1,
                      LastWrite(GridReader(begin, years), fs, 0, y, m, d, 0, Missing),
                      LastWrite(GridReader(begin, years), fs, 0, y, m, d, 1, Missing),
                      LastWrite(GridReader(begin, years), fs, 0, y, m, d, 2, Missing),
                      LastWrite(GridReader(begin, years), fs, 0, y, m, d, 3, Missing),
                      LastWrite(GridReader(begin, years), fs, 0, y, m, d, 4, Missing))
  {
    var g := GridFrom(begin, years, fs).value;
    var rows := RowsUpTo(g, begin, years * 372);
    assert rows == RowsFrom(begin, years, fs).value;
    var p := (y * 12 + m) * 31 + d;
    var rd := GridReader(begin, years);
    var g0 := seq(GridSize(years, 5), _ => Missing);
    CellInGrid(y, m, d, 4, years, 5);
    RowsUpToKeys(g, begin, years * 372);
    RowsUpToExact(g, begin, years * 372, p);
    PositionParts(y, m, d);
    forall i | 0 <= i < |rows|
      ensures (rows[i].year == begin + y && rows[i].month == m + 1 && rows[i].day == d + 1) <==> Key(rows[i], begin) == p
    {
    }
    LastWriteWins(rd, g0, fs, 0, y, m, d, 0);
    LastWriteWins(rd, g0, fs, 0, y, m, d, 1);
    LastWriteWins(rd, g0, fs, 0, y, m, d, 2);
    LastWriteWins(rd, g0, fs, 0, y, m, d, 3);
    LastWriteWins(rd, g0, fs, 0, y, m, d, 4);
  }
}
