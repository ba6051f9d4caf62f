/** The decode loop every reader of a `.dly` file runs: for each line whose
    element code is in the reader's table, parse the year and the month, and
    store every accepted day slot, divided by the element's divisor, in a
    dense grid of shape (years, 12, 31, elements). The grid is a numpy array;
    here it is flattened in C order, so cell [y, m, d, e] sits at `Cell`.

    The same loop also keeps, for the plotting readers, the smallest and the
    largest year of a matching line, the year and month of the last matching
    line and the day number of the last stored slot (`Scan`). */
module DailyGrid {
  import opened PyModel
  import opened DlyRecord

  /** Flat position of [y, m, d, e] in a C-ordered grid of shape
      (years, 12, 31, ne). */
  function Cell(y: nat, m: nat, d: nat, e: nat, ne: nat): nat {
    ((y * 12 + m) * 31 + d) * ne + e
  }

  /** Number of cells of a grid of shape (years, 12, 31, ne). */
  function GridSize(years: nat, ne: nat): nat {
    (years * 372) * ne
  }

  lemma {:induction false} MulMonotone(a: nat, b: nat, n: nat)
    requires a <= b
    ensures a * n <= b * n
    decreases b - a
  {
    if a < b {
      MulMonotone(a, b - 1, n);
      assert (b - 1) * n + n == b * n;
    }
  }

  lemma MulStep(p: nat, q: nat, e: nat, n: nat)
    requires p < q && e < n
    ensures p * n + e < q * n
  {
    assert p * n + n == (p + 1) * n;
    MulMonotone(p + 1, q, n);
  }

  /** Every index tuple inside the shape has its cell inside the grid. */
  lemma CellInGrid(y: nat, m: nat, d: nat, e: nat, years: nat, ne: nat)
    requires y < years && m < 12 && d < 31 && e < ne
    ensures Cell(y, m, d, e, ne) < GridSize(years, ne)
  {
    MulStep((y * 12 + m) * 31 + d, years * 372, e, ne);
  }

  /** Distinct index tuples inside the shape have distinct cells. */
  lemma CellInjective(y1: nat, m1: nat, d1: nat, e1: nat, y2: nat, m2: nat, d2: nat, e2: nat, ne: nat)
    requires m1 < 12 && d1 < 31 && e1 < ne && m2 < 12 && d2 < 31 && e2 < ne
    requires Cell(y1, m1, d1, e1, ne) == Cell(y2, m2, d2, e2, ne)
    ensures y1 == y2 && m1 == m2 && d1 == d2 && e1 == e2
  {
    var p1 := (y1 * 12 + m1) * 31 + d1;
    var p2 := (y2 * 12 + m2) * 31 + d2;
    if p1 < p2 {
      MulStep(p1, p2, e1, ne);
    } else if p2 < p1 {
      MulStep(p2, p1, e2, ne);
    }
    assert p1 == p2;
  }

  /** What a reader fixes before its loop: which elements it keeps and how,
      how it tests the quality flag, the year of grid row 0, and the shape. */
  datatype Reader = Reader(table: map<string, Element>, rule: FlagRule, begin: int, years: nat, ne: nat)

  predicate ValidReader(rd: Reader) {
    ValidTable(rd.table, rd.ne)
  }

  /** The fields of a line the loop looks at: the element code, `int()` of
      the year and month texts, which slots are accepted, and `int()` of
      each slot's value text (None where Python raises ValueError). */
  datatype LineFields = LineFields(code: string, year: Option<int>, month: Option<int>,
                                   accepted: seq<bool>, raw: seq<Option<int>>)

  predicate WellFormed(f: LineFields) {
    |f.accepted| == SlotCount && |f.raw| == SlotCount
  }

  predicate AllWellFormed(fs: seq<LineFields>) {
    forall k :: 0 <= k < |fs| ==> WellFormed(fs[k])
  }

  function Fields(line: string, rule: FlagRule): (f: LineFields)
    ensures WellFormed(f)
  {
    LineFields(ElementCode(line), ParseInt(YearText(line)), ParseInt(MonthText(line)),
               AcceptedSlots(line, rule),
               seq(SlotCount, i requires 0 <= i < SlotCount => ParseInt(ValueText(line, i))))
  }

  function FieldsOf(lines: seq<string>, rule: FlagRule): (fs: seq<LineFields>)
    ensures |fs| == |lines| && AllWellFormed(fs)
  {
    seq(|lines|, k requires 0 <= k < |lines| => Fields(lines[k], rule))
  }

  /** The fields are the record's columns: slot `i` is taken when its value
      text is not "-9999" and its quality flag is blank, and its value is
      `int()` of columns [21 + 8i, 26 + 8i). */
  lemma FieldsAreColumns(line: string, rule: FlagRule, i: nat)
    requires i < SlotCount
    ensures Fields(line, rule).code == Slice(line, 17, 21)
    ensures Fields(line, rule).year == ParseInt(Slice(line, 11, 15))
    ensures Fields(line, rule).month == ParseInt(Slice(line, 15, 17))
    ensures Fields(line, rule).accepted[i]
            <==> Slice(line, 21 + 8 * i, 26 + 8 * i) != "-9999" && FlagBlank(Slice(line, 27 + 8 * i, 28 + 8 * i), rule)
    ensures Fields(line, rule).raw[i] == ParseInt(Slice(line, 21 + 8 * i, 26 + 8 * i))
  {
  }

  /** The value a slot stores: the converted text divided by the element's
      divisor. */
  function Stored(f: LineFields, i: nat, e: Element): Option<real>
    requires WellFormed(f) && i < SlotCount && e.divisor != 0.0
  {
    match f.raw[i]
    case None => None
    case Some(v) => Some(v as real / e.divisor)
  }

  /** The slot loop of one line from slot `i` on: `yc` and `mc` are the
      line's year and month counters, not yet checked against the grid.
      Converting the text fails with ValueError, indexing the grid with
      IndexError; negative counters wrap as numpy does. */
  function ApplySlots(rd: Reader, g: seq<real>, f: LineFields, i: nat, yc: int, mc: int, e: Element): (r: Result<seq<real>>)
    requires WellFormed(f) && i <= SlotCount && e.index < rd.ne && e.divisor != 0.0
    requires |g| == GridSize(rd.years, rd.ne)
    ensures r.Ok? ==> |r.value| == |g|
    decreases SlotCount - i
  {
    if i == SlotCount then Ok(g)
    else if !f.accepted[i] then ApplySlots(rd, g, f, i + 1, yc, mc, e)
    else if f.raw[i].None? then Err(ValueError)
    else
      var yi := NumpyIndex(yc, rd.years);
      var mi := NumpyIndex(mc, 12);
      if yi.None? || mi.None? then Err(IndexError)
      else
        CellInGrid(yi.value, mi.value, i, e.index, rd.years, rd.ne);
        ApplySlots(rd, g[Cell(yi.value, mi.value, i, e.index, rd.ne) := Stored(f, i, e).value], f, i + 1, yc, mc, e)
  }

  /** One turn of the line loop: a line whose code is not in the table is
      skipped; otherwise the year and month texts must convert. */
  function ApplyLine(rd: Reader, g: seq<real>, f: LineFields): (r: Result<seq<real>>)
    requires ValidReader(rd) && WellFormed(f) && |g| == GridSize(rd.years, rd.ne)
    ensures r.Ok? ==> |r.value| == |g|
  {
    if f.code !in rd.table then Ok(g)
    else if f.year.None? || f.month.None? then Err(ValueError)
    else ApplySlots(rd, g, f, 0, f.year.value - rd.begin, f.month.value - 1, rd.table[f.code])
  }

  /** The line loop from line `k` on; the first exception ends it. */
  function ApplyLines(rd: Reader, g: seq<real>, fs: seq<LineFields>, k: nat): (r: Result<seq<real>>)
    requires ValidReader(rd) && AllWellFormed(fs) && |g| == GridSize(rd.years, rd.ne) && k <= |fs|
    ensures r.Ok? ==> |r.value| == |g|
    decreases |fs| - k
  {
    if k == |fs| then Ok(g)
    else match ApplyLine(rd, g, fs[k])
      case Err(failure) => Err(failure)
      case Ok(g1) => ApplyLines(rd, g1, fs, k + 1)
  }

  /** What a line stores in cell [y, m, d, x], if anything: its code maps
      to element `x`, its counters reach row `y` and month `m`, slot `d` is
      accepted and its text converts. */
  function LineWrite(rd: Reader, f: LineFields, y: nat, m: nat, d: nat, x: nat): Option<real>
    requires ValidReader(rd) && WellFormed(f) && d < SlotCount
  {
    if f.code !in rd.table || rd.table[f.code].index != x || !f.accepted[d] then None
    else if f.year.None? || f.month.None? then None
    else if NumpyIndex(f.year.value - rd.begin, rd.years) == Some(y) && NumpyIndex(f.month.value - 1, 12) == Some(m)
    then Stored(f, d, rd.table[f.code])
    else None
  }

  /** The value cell [y, m, d, x] ends with when lines `k..` run over a
      cell holding `v`: the last line that writes it wins. */
  function LastWrite(rd: Reader, fs: seq<LineFields>, k: nat, y: nat, m: nat, d: nat, x: nat, v: real): real
    requires ValidReader(rd) && AllWellFormed(fs) && d < SlotCount && k <= |fs|
    decreases |fs| - k
  {
    if k == |fs| then v
    else
      var v1 := match LineWrite(rd, fs[k], y, m, d, x) case Some(w) => w case None => v;
      LastWrite(rd, fs, k + 1, y, m, d, x, v1)
  }

  lemma {:induction false} ApplySlotsEffect(rd: Reader, g: seq<real>, f: LineFields, i: nat, yc: int, mc: int, e: Element,
                                            y: nat, m: nat, d: nat, x: nat)
    requires WellFormed(f) && i <= SlotCount && e.index < rd.ne && e.divisor != 0.0
    requires |g| == GridSize(rd.years, rd.ne)
    requires y < rd.years && m < 12 && d < SlotCount && x < rd.ne
    requires ApplySlots(rd, g, f, i, yc, mc, e).Ok?
    ensures var c := Cell(y, m, d, x, rd.ne);
      c < |g| &&
      ApplySlots(rd, g, f, i, yc, mc, e).value[c]
        == if i <= d && x == e.index && f.accepted[d] && f.raw[d].Some?
              && NumpyIndex(yc, rd.years) == Some(y) && NumpyIndex(mc, 12) == Some(m)
           then Stored(f, d, e).value
           else g[c]
    decreases SlotCount - i
  {
    CellInGrid(y, m, d, x, rd.years, rd.ne);
    if i < SlotCount {
      if !f.accepted[i] {
        ApplySlotsEffect(rd, g, f, i + 1, yc, mc, e, y, m, d, x);
      } else {
        var y0 := NumpyIndex(yc, rd.years).value;
        var m0 := NumpyIndex(mc, 12).value;
        CellInGrid(y0, m0, i, e.index, rd.years, rd.ne);
        var c0 := Cell(y0, m0, i, e.index, rd.ne);
        var g1 := g[c0 := Stored(f, i, e).value];
        ApplySlotsEffect(rd, g1, f, i + 1, yc, mc, e, y, m, d, x);
        var c := Cell(y, m, d, x, rd.ne);
        if c == c0 {
          CellInjective(y, m, d, x, y0, m0, i, e.index, rd.ne);
        }
      }
    }
  }

  /** One line changes a cell exactly when `LineWrite` says so. */
  lemma ApplyLineEffect(rd: Reader, g: seq<real>, f: LineFields, y: nat, m: nat, d: nat, x: nat)
    requires ValidReader(rd) && WellFormed(f) && |g| == GridSize(rd.years, rd.ne)
    requires y < rd.years && m < 12 && d < SlotCount && x < rd.ne
    requires ApplyLine(rd, g, f).Ok?
    ensures var c := Cell(y, m, d, x, rd.ne);
      c < |g| &&
      ApplyLine(rd, g, f).value[c]
        == match LineWrite(rd, f, y, m, d, x) case Some(w) => w case None => g[c]
  {
    CellInGrid(y, m, d, x, rd.years, rd.ne);
    if f.code in rd.table {
      ApplySlotsEffect(rd, g, f, 0, f.year.value - rd.begin, f.month.value - 1, rd.table[f.code], y, m, d, x);
    }
  }

  /** The grid starts all at one value and a cell changes only when an
      accepted slot of a matching line targets it; when several lines target
      the same cell the last one in file order wins. */
  lemma {:induction false} LastWriteWins(rd: Reader, g: seq<real>, fs: seq<LineFields>, k: nat, y: nat, m: nat, d: nat, x: nat)
    requires ValidReader(rd) && AllWellFormed(fs) && |g| == GridSize(rd.years, rd.ne) && k <= |fs|
    requires y < rd.years && m < 12 && d < SlotCount && x < rd.ne
    requires ApplyLines(rd, g, fs, k).Ok?
    ensures var c := Cell(y, m, d, x, rd.ne);
      c < |g| && ApplyLines(rd, g, fs, k).value[c] == LastWrite(rd, fs, k, y, m, d, x, g[c])
    decreases |fs| - k
  {
    CellInGrid(y, m, d, x, rd.years, rd.ne);
    if k < |fs| {
      var g1 := ApplyLine(rd, g, fs[k]).value;
      ApplyLineEffect(rd, g, fs[k], y, m, d, x);
      LastWriteWins(rd, g1, fs, k + 1, y, m, d, x);
    }
  }

  /** A line whose element code is not in the table changes nothing, cannot
      fail and writes no cell. */
  lemma OtherCodeUnchanged(rd: Reader, g: seq<real>, f: LineFields)
    requires ValidReader(rd) && WellFormed(f) && |g| == GridSize(rd.years, rd.ne)
    requires f.code !in rd.table
    ensures ApplyLine(rd, g, f) == Ok(g)
    ensures forall y: nat, m: nat, d: nat, x: nat | d < SlotCount :: LineWrite(rd, f, y, m, d, x).None?
  {
  }

  /** A line of a year before row 0 still lands in the grid while it is at
      most `years` earlier: numpy counts the negative counter from the end,
      so the line writes the row `years` further on. */
  lemma EarlierYearWraps(rd: Reader, f: LineFields, d: nat)
    requires ValidReader(rd) && WellFormed(f) && d < SlotCount
    requires f.code in rd.table && f.accepted[d] && f.raw[d].Some?
    requires f.year.Some? && f.month == Some(1)
    requires rd.begin - rd.years <= f.year.value < rd.begin
    ensures LineWrite(rd, f, f.year.value - rd.begin + rd.years, 0, d, rd.table[f.code].index).Some?
  {
  }

  /** A line of a year past the last row, or before row 0 by more than the
      row count, makes the loop raise IndexError at its first accepted slot
      that converts. */
  lemma OutOfRangeYearFails(rd: Reader, g: seq<real>, f: LineFields, d: nat)
    requires ValidReader(rd) && WellFormed(f) && |g| == GridSize(rd.years, rd.ne) && d < SlotCount
    requires f.code in rd.table && f.year.Some? && f.month.Some?
    requires f.year.value - rd.begin >= rd.years || f.year.value - rd.begin < -(rd.years as int)
    requires f.accepted[d] && f.raw[d].Some?
    requires forall j :: 0 <= j < d ==> !f.accepted[j]
    ensures ApplyLine(rd, g, f) == Err(IndexError)
  {
    SkipRejected(rd, g, f, 0, d, f.year.value - rd.begin, f.month.value - 1, rd.table[f.code]);
  }

  /** Slots that are not accepted are passed over. */
  lemma {:induction false} SkipRejected(rd: Reader, g: seq<real>, f: LineFields, i: nat, d: nat, yc: int, mc: int, e: Element)
    requires WellFormed(f) && i <= d <= SlotCount && e.index < rd.ne && e.divisor != 0.0
    requires |g| == GridSize(rd.years, rd.ne)
    requires forall j :: i <= j < d ==> !f.accepted[j]
    ensures ApplySlots(rd, g, f, i, yc, mc, e) == ApplySlots(rd, g, f, d, yc, mc, e)
    decreases d - i
  {
    if i < d {
      SkipRejected(rd, g, f, i + 1, d, yc, mc, e);
    }
  }

  /** What the plotting readers keep besides the grid. */
  datatype Scan = Scan(validBegin: int, validEnd: int, last: Option<(int, int)>, lastDay: Option<nat>)

  /** `valid_begin = 9999`, `valid_end = -9999`; no line seen yet. */
  const NoScan := Scan(9999, -9999, None, None)

  /** One line's effect on the scan: a matching line lowers
      `validBegin` and raises `validEnd` to its year, becomes the last
      line, and its last accepted slot sets `lastDay`. */
  function ScanLine(rd: Reader, s: Scan, f: LineFields): Scan
    requires WellFormed(f)
  {
    if f.code !in rd.table || f.year.None? || f.month.None? then s
    else
      var day := match LastTrue(f.accepted, SlotCount) case Some(d) => Some(d) case None => s.lastDay;
      Scan(Min(s.validBegin, f.year.value), Max(s.validEnd, f.year.value), Some((f.year.value, f.month.value)), day)
  }

  function ScanLines(rd: Reader, s: Scan, fs: seq<LineFields>, k: nat): Scan
    requires AllWellFormed(fs) && k <= |fs|
    decreases |fs| - k
  {
    if k == |fs| then s else ScanLines(rd, ScanLine(rd, s, fs[k]), fs, k + 1)
  }

  /** A line the reader takes in, with the year it converts to. */
  predicate MatchingYear(rd: Reader, f: LineFields, year: int) {
    f.code in rd.table && f.year == Some(year) && f.month.Some?
  }

  /** `validBegin` and `validEnd` bound the year of every matching line,
      and each is the year of some matching line unless it kept its start. */
  lemma {:induction false} ScanYearRange(rd: Reader, s: Scan, fs: seq<LineFields>, k: nat)
    requires AllWellFormed(fs) && k <= |fs|
    ensures var r := ScanLines(rd, s, fs, k);
      r.validBegin <= s.validBegin && r.validEnd >= s.validEnd &&
      (forall j, year :: k <= j < |fs| && MatchingYear(rd, fs[j], year) ==> r.validBegin <= year <= r.validEnd) &&
      (r.validBegin == s.validBegin || exists j :: k <= j < |fs| && MatchingYear(rd, fs[j], r.validBegin)) &&
      (r.validEnd == s.validEnd || exists j :: k <= j < |fs| && MatchingYear(rd, fs[j], r.validEnd))
    decreases |fs| - k
  {
    if k < |fs| {
      var s1 := ScanLine(rd, s, fs[k]);
      ScanYearRange(rd, s1, fs, k + 1);
      var r := ScanLines(rd, s, fs, k);
      if r.validBegin != s.validBegin && r.validBegin == s1.validBegin {
        assert MatchingYear(rd, fs[k], r.validBegin);
      }
      if r.validEnd != s.validEnd && r.validEnd == s1.validEnd {
        assert MatchingYear(rd, fs[k], r.validEnd);
      }
    }
  }

  /** `last` is the year and month of the last matching line; it keeps its
      start exactly when no line matches. */
  lemma {:induction false} ScanLastLine(rd: Reader, s: Scan, fs: seq<LineFields>, k: nat)
    requires AllWellFormed(fs) && k <= |fs|
    ensures var r := ScanLines(rd, s, fs, k);
      (r.last == s.last && forall j, year :: k <= j < |fs| ==> !MatchingYear(rd, fs[j], year)) ||
      (exists j :: k <= j < |fs| && r.last.Some? && MatchingYear(rd, fs[j], r.last.value.0)
         && fs[j].month == Some(r.last.value.1)
         && forall j', year :: j < j' < |fs| ==> !MatchingYear(rd, fs[j'], year))
    decreases |fs| - k
  {
    if k < |fs| {
      var s1 := ScanLine(rd, s, fs[k]);
      ScanLastLine(rd, s1, fs, k + 1);
    }
  }

  /** The line loop of a reader, over a grid it changes in place; `fs`
      holds the fields of each line, `FieldsOf(lines, rule)`. */
  method ReadLines(rd: Reader, fs: seq<LineFields>, grid: array<real>) returns (r: Result<Scan>)
    requires ValidReader(rd) && grid.Length == GridSize(rd.years, rd.ne) && AllWellFormed(fs)
    modifies grid
    ensures r.Ok? <==> ApplyLines(rd, old(grid[..]), fs, 0).Ok?
    ensures r.Err? ==> ApplyLines(rd, old(grid[..]), fs, 0) == Err(r.failure)
    ensures r.Ok? ==> grid[..] == ApplyLines(rd, old(grid[..]), fs, 0).value
    ensures r.Ok? ==> r.value == ScanLines(rd, NoScan, fs, 0)
  {
    var scan := NoScan;
    var k := 0;
    while k < |fs|
      invariant k <= |fs|
      invariant ApplyLines(rd, old(grid[..]), fs, 0) == ApplyLines(rd, grid[..], fs, k)
      invariant ScanLines(rd, NoScan, fs, 0) == ScanLines(rd, scan, fs, k)
      decreases |fs| - k
    {
      var f := fs[k];
      if f.code in rd.table {
        if f.year.None? || f.month.None? {
          return Err(ValueError);
        }
        var lastDay := ReadSlots(rd, f, f.year.value - rd.begin, f.month.value - 1, rd.table[f.code], grid);
        if lastDay.Err? {
          return Err(lastDay.failure);
        }
        var day := if lastDay.value.Some? then lastDay.value else scan.lastDay;
        scan := Scan(Min(scan.validBegin, f.year.value), Max(scan.validEnd, f.year.value), Some((f.year.value, f.month.value)), day);
      }
      k := k + 1;
    }
    r := Ok(scan);
  }

  /** The slot loop of one matching line: it stores every accepted slot and
      answers the day number of the last one. */
  method ReadSlots(rd: Reader, f: LineFields, yc: int, mc: int, e: Element, grid: array<real>) returns (r: Result<Option<nat>>)
    requires WellFormed(f) && e.index < rd.ne && e.divisor != 0.0
    requires grid.Length == GridSize(rd.years, rd.ne)
    modifies grid
    ensures r.Ok? <==> ApplySlots(rd, old(grid[..]), f, 0, yc, mc, e).Ok?
    ensures r.Err? ==> ApplySlots(rd, old(grid[..]), f, 0, yc, mc, e) == Err(r.failure)
    ensures r.Ok? ==> grid[..] == ApplySlots(rd, old(grid[..]), f, 0, yc, mc, e).value
    ensures r.Ok? ==> r.value == LastTrue(f.accepted, SlotCount)
  {
    var lastDay: Option<nat> := None;
    var i := 0;
    while i < SlotCount
      invariant i <= SlotCount
      invariant ApplySlots(rd, old(grid[..]), f, 0, yc, mc, e) == ApplySlots(rd, grid[..], f, i, yc, mc, e)
      invariant lastDay == LastTrue(f.accepted, i)
      decreases SlotCount - i
    {
      if f.accepted[i] {
        if f.raw[i].None? {
          return Err(ValueError);
        }
        var yi := NumpyIndex(yc, rd.years);
        var mi := NumpyIndex(mc, 12);
        if yi.None? || mi.None? {
          return Err(IndexError);
        }
        CellInGrid(yi.value, mi.value, i, e.index, rd.years, rd.ne);
        grid[Cell(yi.value, mi.value, i, e.index, rd.ne)] := Stored(f, i, e).value;
        lastDay := Some(i + 1);
      }
      i := i + 1;
    }
    r := Ok(lastDay);
  }
}
