/** How the three plotting routines of `ghcnpy/plotting.py` look a station
    up in the `np.genfromtxt` table and turn its name into the one used in
    titles and file names. */
module PlotStation {
  import opened PyModel
  import Stations

  /** The table row of the station: its first field is the identifier. */
  predicate Matches(row: seq<string>, id: string) {
    |row| > 0 && row[0] == id
  }

  /** `ghcnd_stations[ghcnd_stations[:, 0] == station_id]`: the matching
      rows, in table order. */
  function Matching(rows: seq<seq<string>>, id: string): (r: seq<seq<string>>)
    ensures |r| <= |rows|
    ensures forall k :: 0 <= k < |r| ==> Matches(r[k], id)
  {
    if rows == [] then []
    else (if Matches(rows[0], id) then [rows[0]] else []) + Matching(rows[1..], id)
  }

  /** Linear search for the first matching row, the reference the lookup is
      compared with. */
  function FirstMatch(rows: seq<seq<string>>, id: string): (r: Option<nat>)
    ensures r.Some? ==> r.value < |rows| && Matches(rows[r.value], id)
    ensures r.Some? ==> forall j :: 0 <= j < r.value ==> !Matches(rows[j], id)
    ensures r.None? ==> forall j :: 0 <= j < |rows| ==> !Matches(rows[j], id)
  {
    if rows == [] then None
    else if Matches(rows[0], id) then Some(0)
    else match FirstMatch(rows[1..], id)
      case None => None
      case Some(i) => Some(i + 1)
  }

  /** `ghcnd_meta[0]`: the first matching row, and IndexError when the
      identifier is not in the table. */
  function StationMeta(rows: seq<seq<string>>, id: string): Result<seq<string>> {
    var m := Matching(rows, id);
    if m == [] then Err(IndexError) else Ok(m[0])
  }

  /** The lookup finds exactly the first row whose identifier matches, and
      fails exactly when there is none. */
  lemma {:induction false} StationMetaIsFirstMatch(rows: seq<seq<string>>, id: string)
    ensures FirstMatch(rows, id).None? ==> StationMeta(rows, id) == Err(IndexError)
    ensures FirstMatch(rows, id).Some? ==> StationMeta(rows, id) == Ok(rows[FirstMatch(rows, id).value])
  {
    if rows != [] {
      StationMetaIsFirstMatch(rows[1..], id);
      if !Matches(rows[0], id) {
        assert Matching(rows, id) == Matching(rows[1..], id);
      }
    }
  }

  /** `re.sub(' +', ' ', s)`: every run of spaces becomes one space. */
  function CollapseSpaces(s: string): (r: string)
    ensures |r| <= |s|
    ensures |s| > 0 ==> |r| > 0 && r[0] == s[0] && r[|r| - 1] == s[|s| - 1]
    ensures forall k :: 0 <= k < |r| - 1 ==> !(r[k] == ' ' && r[k + 1] == ' ')
    ensures ' ' !in s ==> r == s
  {
    if |s| <= 1 then s
    else if s[0] == ' ' && s[1] == ' ' then CollapseSpaces(s[1..])
    else [s[0]] + CollapseSpaces(s[1..])
  }

  /** `s.replace(" ", "_")`. */
  function ReplaceSpaces(s: string): (r: string)
    ensures |r| == |s| && ' ' !in r
    ensures forall k :: 0 <= k < |s| && s[k] != ' ' ==> r[k] == s[k]
    ensures forall k :: 0 <= k < |s| && s[k] == ' ' ==> r[k] == '_'
  {
    seq(|s|, k requires 0 <= k < |s| => if s[k] == ' ' then '_' else s[k])
  }

  /** The station name as the plots use it: stripped, runs of spaces
      collapsed, spaces turned into underscores. It holds no space, keeps
      no whitespace at its ends and is no longer than the raw name. */
  function NormaliseName(raw: string): (r: string)
    ensures ' ' !in r && |r| <= |raw|
    ensures Stations.Trimmed(r)
  {
    var t := Strip(raw);
    StripSpec(raw);
    ReplaceSpaces(CollapseSpaces(t))
  }

  /** Normalising a normalised name changes nothing. */
  lemma NormaliseNameIdempotent(raw: string)
    ensures NormaliseName(NormaliseName(raw)) == NormaliseName(raw)
  {
    var r := NormaliseName(raw);
    StripNoEnds(r);
    assert ReplaceSpaces(r) == r;
  }

  /** A name with single spaces between words and none at the ends becomes
      those words joined by underscores, character for character. */
  lemma NormaliseSpacedName(raw: string)
    requires Stations.Trimmed(raw)
    requires forall k :: 0 <= k < |raw| - 1 ==> !(raw[k] == ' ' && raw[k + 1] == ' ')
    ensures NormaliseName(raw) == ReplaceSpaces(raw)
  {
    StripNoEnds(raw);
    CollapseSingle(raw);
  }

  lemma {:induction false} CollapseSingle(s: string)
    requires forall k :: 0 <= k < |s| - 1 ==> !(s[k] == ' ' && s[k + 1] == ' ')
    ensures CollapseSpaces(s) == s
  {
    if |s| > 1 {
      CollapseSingle(s[1..]);
    }
  }

  /** The name of `station_id` in the table, as the plots set it; the
      lookup's IndexError when the station is absent, and IndexError when
      the row has no name column. */
  function StationName(rows: seq<seq<string>>, id: string): (r: Result<string>)
    ensures r.Ok? ==> ' ' !in r.value
    ensures r.Err? ==> r.failure == IndexError
  {
    match StationMeta(rows, id)
    case Err(f) => Err(f)
    case Ok(meta) => if |meta| <= 5 then Err(IndexError) else Ok(NormaliseName(meta[5]))
  }

  /** On the table `get_ghcnd_stations` reads, the name the plots use is the
      name `get_stations_in_datastructure` reads for the first line with that
      identifier, normalised; an identifier on no line raises IndexError. */
  lemma StationNameFromFile(lines: seq<string>, id: string)
    ensures var rows := Stations.GenFromTxt(lines);
      FirstMatch(rows, id).None? ==> StationName(rows, id) == Err(IndexError)
    ensures var rows := Stations.GenFromTxt(lines);
      FirstMatch(rows, id).Some? ==>
        StationName(rows, id)
        == Ok(NormaliseName(Stations.ParseStation(FirstMatch(rows, id).value, lines[FirstMatch(rows, id).value]).name))
  {
    var rows := Stations.GenFromTxt(lines);
    StationMetaIsFirstMatch(rows, id);
    match FirstMatch(rows, id)
    case None =>
    case Some(i) =>
      var line := lines[i];
      Stations.GenFromTxtAgrees(i, line);
      var raw := Stations.GenFromTxtRow(line, Stations.StationWidths)[5];
      StripIdempotent(raw);
      assert NormaliseName(raw) == NormaliseName(Strip(raw));
  }
}
