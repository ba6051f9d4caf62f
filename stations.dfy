/** The station metadata file `ghcnd-stations.txt` (section IV of the
    GHCN-Daily readme): `get_stations_in_datastructure` of
    `ghcnpy/iotools.py`, which cuts every line into fixed columns, and the
    column widths `get_ghcnd_stations` hands to `np.genfromtxt`. */
module Stations {
  import opened PyModel

  /** One entry of `get_stations_in_datastructure`: the line's index, then
      the stripped columns. Latitude, longitude and elevation are kept as
      their stripped decimal text. */
  datatype Station = Station(index: nat, id: string, latitude: string, longitude: string,
                             elevation: string, name: string, gsn: string, wmo: string)

  /** No whitespace at either end: what `strip` leaves. */
  predicate Trimmed(s: string) {
    s == [] || (!IsSpace(s[0]) && !IsSpace(s[|s| - 1]))
  }

  lemma StripTrimmed(s: string)
    ensures Trimmed(Strip(s))
  {
    StripSpec(s);
  }

  /** One line of the station file; the GSN and WMO columns are read only
      when the line (newline included) reaches past column 72 and 80. */
  function ParseStation(index: nat, line: string): Station {
    Station(index,
            Strip(Slice(line, 0, 11)),
            Strip(Slice(line, 12, 20)),
            Strip(Slice(line, 21, 30)),
            Strip(Slice(line, 31, 37)),
            Strip(Slice(line, 41, 71)),
            if |line| > 72 then Strip(Slice(line, 72, 75)) else [],
            if |line| > 80 then Strip(Slice(line, 80, 85)) else [])
  }

  /** Every entry carries its line index, no column keeps surrounding
      whitespace, each fits its column, and a line too short for the GSN or
      WMO column gets an empty one. */
  lemma ParseStationShape(index: nat, line: string)
    ensures ParseStation(index, line).index == index
    ensures var st := ParseStation(index, line);
      && |st.id| <= 11 && |st.name| <= 30 && |st.gsn| <= 3 && |st.wmo| <= 5
      && Trimmed(st.id) && Trimmed(st.latitude) && Trimmed(st.longitude)
      && Trimmed(st.elevation) && Trimmed(st.name) && Trimmed(st.gsn) && Trimmed(st.wmo)
    ensures |line| <= 72 ==> ParseStation(index, line).gsn == []
    ensures |line| <= 80 ==> ParseStation(index, line).wmo == []
  {
    StripTrimmed(Slice(line, 0, 11));
    StripTrimmed(Slice(line, 12, 20));
    StripTrimmed(Slice(line, 21, 30));
    StripTrimmed(Slice(line, 31, 37));
    StripTrimmed(Slice(line, 41, 71));
    StripTrimmed(Slice(line, 72, 75));
    StripTrimmed(Slice(line, 80, 85));
  }

  /** The datastructure `get_stations_in_datastructure` builds: one entry
      per line, in file order, each carrying its line index. */
  function StationsOf(lines: seq<string>): (r: seq<Station>)
    ensures |r| == |lines|
    ensures forall i :: 0 <= i < |lines| ==> r[i] == ParseStation(i, lines[i])
  {
    seq(|lines|, i requires 0 <= i < |lines| => ParseStation(i, lines[i]))
  }

  /** The loop of `get_stations_in_datastructure`, appending one parsed
      line at a time. */
  method GetStationsInDatastructure(lines: seq<string>) returns (stations: seq<Station>)
    ensures stations == StationsOf(lines)
  {
    stations := [];
    var index := 0;
    while index < |lines|
      invariant index <= |lines| && stations == StationsOf(lines)[..index]
    {
      PrefixStep(StationsOf(lines), index);
      stations := stations + [ParseStation(index, lines[index])];
      index := index + 1;
    }
    assert StationsOf(lines)[..index] == StationsOf(lines);
  }

  lemma PrefixStep(s: seq<Station>, n: nat)
    requires n < |s|
    ensures s[..n + 1] == s[..n] + [s[n]]
  {
  }

  function Spaces(n: nat): (r: string)
    ensures |r| == n && AllSpace(r)
  {
    seq(n, _ => ' ')
  }

  /** A column filled from the left (identifiers, names, flags). */
  function PadRight(s: string, w: nat): (r: string)
    ensures |r| == Max(w, |s|)
  {
    s + Spaces(if |s| < w then w - |s| else 0)
  }

  /** A column filled from the right (the numbers). */
  function PadLeft(s: string, w: nat): (r: string)
    ensures |r| == Max(w, |s|)
  {
    Spaces(if |s| < w then w - |s| else 0) + s
  }

  lemma {:induction false} TrailSpaces(t: string, pad: nat)
    requires t != [] && !IsSpace(t[|t| - 1])
    ensures TrailCount(t + Spaces(pad)) == pad
    decreases pad
  {
    var s := t + Spaces(pad);
    if pad > 0 {
      assert s[..|s| - 1] == t + Spaces(pad - 1);
      TrailSpaces(t, pad - 1);
    }
  }

  /** Padding on either side is what `strip` takes away again. */
  lemma StripPads(s: string, w: nat)
    requires Trimmed(s)
    ensures Strip(PadRight(s, w)) == s && Strip(PadLeft(s, w)) == s
  {
    var pad := if |s| < w then w - |s| else 0;
    if s == [] {
      assert PadRight(s, w) == Spaces(pad) && PadLeft(s, w) == Spaces(pad);
      StripSpec(Spaces(pad));
    } else {
      assert Spaces(pad) == seq(pad, _ => ' ');
      StripPadded(pad, s);
      var r := PadRight(s, w);
      assert LeadCount(r) == 0;
      assert r[0..] == r;
      TrailSpaces(s, pad);
      assert r[..|r| - pad] == s;
    }
  }

  /** The columns of one station line as section IV of the readme lays
      them out. */
  datatype StationText = StationText(id: string, latitude: string, longitude: string, elevation: string,
                                     state: string, name: string, gsn: string, hcn: string, wmo: string)

  predicate Fits(t: StationText) {
    && Trimmed(t.id) && |t.id| <= 11
    && Trimmed(t.latitude) && |t.latitude| <= 8
    && Trimmed(t.longitude) && |t.longitude| <= 9
    && Trimmed(t.elevation) && |t.elevation| <= 6
    && |t.state| <= 2
    && Trimmed(t.name) && |t.name| <= 30
    && Trimmed(t.gsn) && |t.gsn| <= 3
    && |t.hcn| <= 3
    && Trimmed(t.wmo) && |t.wmo| <= 5
  }

  /** ID 1-11, LATITUDE 13-20, LONGITUDE 22-30, ELEVATION 32-37, STATE 39-40,
      NAME 42-71, GSN FLAG 73-75, HCN/CRN FLAG 77-79, WMO ID 81-85, then
      the newline. The line is built column by column; `UpToN` is its
      first N characters. */
  function StationLine(t: StationText): (line: string)
    requires Fits(t)
    ensures |line| == 86
  {
    UpTo85(t) + "\n"
  }

  function UpTo11(t: StationText): (r: string)
    requires Fits(t)
    ensures |r| == 11
  {
    PadRight(t.id, 11)
  }

  function UpTo20(t: StationText): (r: string)
    requires Fits(t)
    ensures |r| == 20
  {
    (UpTo11(t) + " ") + PadLeft(t.latitude, 8)
  }

  function UpTo30(t: StationText): (r: string)
    requires Fits(t)
    ensures |r| == 30
  {
    (UpTo20(t) + " ") + PadLeft(t.longitude, 9)
  }

  function UpTo37(t: StationText): (r: string)
    requires Fits(t)
    ensures |r| == 37
  {
    (UpTo30(t) + " ") + PadLeft(t.elevation, 6)
  }

  function UpTo71(t: StationText): (r: string)
    requires Fits(t)
    ensures |r| == 71
  {
    (UpTo37(t) + " " + PadRight(t.state, 2) + " ") + PadRight(t.name, 30)
  }

  function UpTo75(t: StationText): (r: string)
    requires Fits(t)
    ensures |r| == 75
  {
    (UpTo71(t) + " ") + PadRight(t.gsn, 3)
  }

  function UpTo85(t: StationText): (r: string)
    requires Fits(t)
    ensures |r| == 85
  {
    (UpTo75(t) + " " + PadRight(t.hcn, 3) + " ") + PadLeft(t.wmo, 5)
  }

  /** Slicing inside a prefix is slicing the prefix. */
  lemma SliceOfPrefix(s: string, p: string, lo: nat, hi: nat)
    requires |p| <= |s| && s[..|p|] == p && lo <= hi <= |p|
    ensures Slice(s, lo, hi) == Slice(p, lo, hi)
  {
    SliceInside(s, lo, hi);
    SliceInside(p, lo, hi);
    assert s[lo..hi] == s[..|p|][lo..hi];
  }

  /** The last piece of a concatenation is the slice after the rest. */
  lemma SliceOfLast(p: string, x: string)
    ensures Slice(p + x, |p|, |p| + |x|) == x
  {
    SliceInside(p + x, |p|, |p| + |x|);
  }

  /** Each prefix is a prefix of the line. */
  lemma Prefixes(t: StationText)
    requires Fits(t)
    ensures StationLine(t)[..85] == UpTo85(t)
    ensures StationLine(t)[..75] == UpTo75(t)
    ensures StationLine(t)[..71] == UpTo71(t)
    ensures StationLine(t)[..37] == UpTo37(t)
    ensures StationLine(t)[..30] == UpTo30(t)
    ensures StationLine(t)[..20] == UpTo20(t)
    ensures StationLine(t)[..11] == UpTo11(t)
  {
    var line := StationLine(t);
    assert UpTo85(t)[..75] == UpTo75(t);
    assert UpTo75(t)[..71] == UpTo71(t);
    assert UpTo71(t)[..37] == UpTo37(t);
    assert UpTo37(t)[..30] == UpTo30(t);
    assert UpTo30(t)[..20] == UpTo20(t);
    assert UpTo20(t)[..11] == UpTo11(t);
  }

  /** Each column of a laid-out line sits at its readme position. */
  lemma StationColumns(t: StationText)
    requires Fits(t)
    ensures var line := StationLine(t);
      && Slice(line, 0, 11) == PadRight(t.id, 11)
      && Slice(line, 12, 20) == PadLeft(t.latitude, 8)
      && Slice(line, 21, 30) == PadLeft(t.longitude, 9)
      && Slice(line, 31, 37) == PadLeft(t.elevation, 6)
      && Slice(line, 41, 71) == PadRight(t.name, 30)
      && Slice(line, 72, 75) == PadRight(t.gsn, 3)
      && Slice(line, 80, 85) == PadLeft(t.wmo, 5)
  {
    var line := StationLine(t);
    Prefixes(t);
    SliceOfPrefix(line, UpTo11(t), 0, 11);
    SliceInside(UpTo11(t), 0, 11);
    SliceOfPrefix(line, UpTo20(t), 12, 20);
    SliceOfLast(UpTo11(t) + " ", PadLeft(t.latitude, 8));
    SliceOfPrefix(line, UpTo30(t), 21, 30);
    SliceOfLast(UpTo20(t) + " ", PadLeft(t.longitude, 9));
    SliceOfPrefix(line, UpTo37(t), 31, 37);
    SliceOfLast(UpTo30(t) + " ", PadLeft(t.elevation, 6));
    SliceOfPrefix(line, UpTo71(t), 41, 71);
    SliceOfLast(UpTo37(t) + " " + PadRight(t.state, 2) + " ", PadRight(t.name, 30));
    SliceOfPrefix(line, UpTo75(t), 72, 75);
    SliceOfLast(UpTo71(t) + " ", PadRight(t.gsn, 3));
    SliceOfPrefix(line, UpTo85(t), 80, 85);
    SliceOfLast(UpTo75(t) + " " + PadRight(t.hcn, 3) + " ", PadLeft(t.wmo, 5));
  }

  /** Reading a line laid out by the readme gives back its columns. */
  lemma ParseStationLine(index: nat, t: StationText)
    requires Fits(t)
    ensures ParseStation(index, StationLine(t))
            == Station(index, t.id, t.latitude, t.longitude, t.elevation, t.name, t.gsn, t.wmo)
  {
    StationColumns(t);
    StripPads(t.id, 11);
    StripPads(t.latitude, 8);
    StripPads(t.longitude, 9);
    StripPads(t.elevation, 6);
    StripPads(t.name, 30);
    StripPads(t.gsn, 3);
    StripPads(t.wmo, 5);
  }

  /** The `delimiter=(11,9,10,7,4,30)` of `get_ghcnd_stations`. */
  const StationWidths: seq<nat> := [11, 9, 10, 7, 4, 30]

  /** Where each column starts, then where the last one ends: the running
      sums of the widths. */
  function Offsets(ws: seq<nat>): (r: seq<nat>)
    ensures |r| == |ws| + 1 && r[0] == 0
    ensures forall i :: 0 <= i < |ws| ==> r[i + 1] == r[i] + ws[i]
  {
    if ws == [] then [0]
    else
      var front := Offsets(ws[..|ws| - 1]);
      front + [front[|ws| - 1] + ws[|ws| - 1]]
  }

  /** The widths put the name column at [41, 71), where
      `get_stations_in_datastructure` reads it, and the identifier at [0, 11). */
  lemma {:induction false} StationOffsets()
    ensures Offsets(StationWidths) == [0, 11, 20, 30, 37, 41, 71]
  {
    var o := Offsets(StationWidths);
    assert o[1] == 11 && o[2] == 20 && o[3] == 30;
    assert o[4] == 37 && o[5] == 41 && o[6] == 71;
  }

  /** The fields `np.genfromtxt` cuts out of one line with fixed widths. */
  function GenFromTxtRow(line: string, ws: seq<nat>): (row: seq<string>)
    ensures |row| == |ws|
  {
    var o := Offsets(ws);
    seq(|ws|, i requires 0 <= i < |ws| => Slice(line, o[i], o[i + 1]))
  }

  /** The metadata table of `get_ghcnd_stations`: one row of six fields
      per line. */
  function GenFromTxt(lines: seq<string>): (rows: seq<seq<string>>)
    ensures |rows| == |lines|
    ensures forall i :: 0 <= i < |rows| ==> |rows[i]| == 6
  {
    seq(|lines|, i requires 0 <= i < |lines| => GenFromTxtRow(lines[i], StationWidths))
  }

  /** Both readers see the same identifier and name columns. */
  lemma GenFromTxtAgrees(index: nat, line: string)
    ensures GenFromTxtRow(line, StationWidths)[0] == Slice(line, 0, 11)
    ensures GenFromTxtRow(line, StationWidths)[5] == Slice(line, 41, 71)
    ensures Strip(GenFromTxtRow(line, StationWidths)[0]) == ParseStation(index, line).id
    ensures Strip(GenFromTxtRow(line, StationWidths)[5]) == ParseStation(index, line).name
  {
    StationOffsets();
  }
}
