/** One line of a GHCN-Daily `.dly` file (section III of the GHCN-Daily
    readme): station id in columns [0,11), year [11,15), month [15,17),
    element code [17,21), then 31 day slots of 8 characters from column 21.
    A slot is VALUE (5 characters), MFLAG, QFLAG and SFLAG (one each). Both
    readers test the character at offset 6 of a slot, which is the QFLAG:
    a day that failed a quality check is dropped. */
module DlyRecord {
  import opened PyModel

  const SlotCount := 31
  const SlotWidth := 8
  const FirstSlot := 21
  /** 21 + 31 * 8: the length of a complete record, without its newline. */
  const RecordLength := FirstSlot + SlotCount * SlotWidth

  /** The value text that marks a missing day. */
  const MissingText := "-9999"

  function YearText(line: string): string { Slice(line, 11, 15) }
  function MonthText(line: string): string { Slice(line, 15, 17) }
  function ElementCode(line: string): string { Slice(line, 17, 21) }

  /** VALUE of slot `i`: columns [21 + 8i, 26 + 8i). */
  function ValueText(line: string, i: nat): string
    requires i < SlotCount
  {
    Slice(line, 21 + 8 * i, 21 + 8 * i + 5)
  }

  /** QFLAG of slot `i`: column 27 + 8i. */
  function FlagText(line: string, i: nat): string
    requires i < SlotCount
  {
    Slice(line, 21 + 8 * i + 6, 21 + 8 * i + 7)
  }

  /** How a reader decides that the quality flag is blank. `iotools.py`
      accepts any flag text that `strip()` empties (a short line's empty
      field included); `plotting.py` wants exactly one space. */
  datatype FlagRule = StripsToBlank | ExactlySpace

  predicate FlagBlank(flag: string, rule: FlagRule) {
    match rule
    case StripsToBlank => Strip(flag) == []
    case ExactlySpace => flag == " "
  }

  /** A slot is taken when its value text is not the missing marker and its
      quality flag is blank. */
  predicate Accepted(line: string, i: nat, rule: FlagRule)
    requires i < SlotCount
  {
    ValueText(line, i) != MissingText && FlagBlank(FlagText(line, i), rule)
  }

  /** Where a reader stores an element and what it divides the raw value by. */
  datatype Element = Element(index: nat, divisor: real)

  /** The element table of `to_datastructure` and `output_to_csv`. */
  const GridElements: map<string, Element> :=
    map["TMAX" := Element(0, 10.0), "TMIN" := Element(1, 10.0), "PRCP" := Element(2, 10.0),
        "SNOW" := Element(3, 1.0), "SNWD" := Element(4, 1.0)]

  /** `plot_temperature` reads TMAX and TMIN, in tenths of a degree. */
  const TemperatureElements: map<string, Element> :=
    map["TMAX" := Element(0, 10.0), "TMIN" := Element(1, 10.0)]

  /** `plot_precipitation` reads PRCP, in tenths of a millimetre. */
  const PrecipitationElements: map<string, Element> := map["PRCP" := Element(0, 10.0)]

  /** `plot_snowfall` reads SNOW, in millimetres, undivided. */
  const SnowfallElements: map<string, Element> := map["SNOW" := Element(0, 1.0)]

  /** Every element lands inside a grid with `ne` elements, and no divisor is 0. */
  predicate ValidTable(table: map<string, Element>, ne: nat) {
    forall code :: code in table ==> table[code].index < ne && table[code].divisor != 0.0
  }

  /** The five-element table sends TMAX, TMIN, PRCP to 0, 1, 2 divided by 10
      and SNOW, SNWD to 3, 4 undivided; no other code is read. */
  lemma GridElementsExact(code: string)
    ensures ValidTable(GridElements, 5)
    ensures code in GridElements <==> code in {"TMAX", "TMIN", "PRCP", "SNOW", "SNWD"}
    ensures code in GridElements ==> GridElements[code].divisor == (if GridElements[code].index < 3 then 10.0 else 1.0)
    ensures forall c1, c2 :: c1 in GridElements && c2 in GridElements && c1 != c2 ==> GridElements[c1].index != GridElements[c2].index
  {
  }

  /** Which of the 31 slots of a line are accepted. */
  function AcceptedSlots(line: string, rule: FlagRule): (r: seq<bool>)
    ensures |r| == SlotCount
    ensures forall i :: 0 <= i < SlotCount ==> r[i] == Accepted(line, i, rule)
  {
    seq(SlotCount, i requires 0 <= i < SlotCount => Accepted(line, i, rule))
  }

  /** The day number (from 1) of the last true entry before `i`: run over
      `AcceptedSlots`, the value `last_day` keeps in the plotting readers. */
  function LastTrue(flags: seq<bool>, i: nat): (r: Option<nat>)
    requires i <= |flags|
    ensures r.Some? ==> 1 <= r.value <= i && flags[r.value - 1]
    ensures r.Some? ==> forall j :: r.value <= j < i ==> !flags[j]
    ensures r.None? ==> forall j :: 0 <= j < i ==> !flags[j]
  {
    if i == 0 then None
    else if flags[i - 1] then Some(i)
    else LastTrue(flags, i - 1)
  }

  lemma IntTextWidth(value: int)
    requires -9999 <= value <= 99999
    ensures |IntText(value)| <= 5
  {
    if value < 0 {
      NatTextWidth(-value, 4);
    } else {
      NatTextWidth(value, 5);
    }
  }

  lemma {:induction false} NatTextWidth(n: nat, w: nat)
    requires 1 <= w && n < Pow10(w)
    ensures |NatText(n)| <= w
    decreases w
  {
    if n >= 10 {
      NatTextWidth(n / 10, w - 1);
    }
  }

  function Pow10(w: nat): nat { if w == 0 then 1 else 10 * Pow10(w - 1) }

  datatype DaySlot = DaySlot(value: int, mflag: char, qflag: char, sflag: char)

  /** A value that fits the five value columns. */
  predicate Encodable(s: DaySlot) { -9999 <= s.value <= 99999 }

  /** One day slot as a station file writes it: the value right-justified
      in five columns, then the three flag characters. */
  function EncodeSlot(s: DaySlot): (r: string)
    requires Encodable(s)
    ensures |r| == 8
  {
    var t := IntText(s.value);
    assert |t| <= 5 by { IntTextWidth(s.value); }
    seq(5 - |t|, _ => ' ') + t + [s.mflag, s.qflag, s.sflag]
  }

  /** Eight-column pieces laid end to end. */
  function Concat(pieces: seq<string>): (r: string)
    requires forall k :: 0 <= k < |pieces| ==> |pieces[k]| == 8
    ensures |r| == 8 * |pieces|
  {
    if pieces == [] then [] else pieces[0] + Concat(pieces[1..])
  }

  lemma {:induction false} ConcatAt(pieces: seq<string>, i: nat)
    requires forall k :: 0 <= k < |pieces| ==> |pieces[k]| == 8
    requires i < |pieces|
    ensures Concat(pieces)[8 * i..8 * i + 8] == pieces[i]
  {
    var whole := Concat(pieces);
    var rest := Concat(pieces[1..]);
    assert whole == pieces[0] + rest;
    if i > 0 {
      ConcatAt(pieces[1..], i - 1);
      assert whole[8 * i..8 * i + 8] == rest[8 * (i - 1)..8 * (i - 1) + 8];
    }
  }

  /** The 31 slots of a record, encoded. */
  function EncodeSlots(slots: seq<DaySlot>): (r: string)
    requires forall k :: 0 <= k < |slots| ==> Encodable(slots[k])
    ensures |r| == 8 * |slots|
  {
    Concat(seq(|slots|, k requires 0 <= k < |slots| =>
      EncodeSlot(slots[k])))
  }

  /** The columns of slot `i` in a record built from a header and encoded slots. */
  lemma SlotColumns(header: string, slots: seq<DaySlot>, i: nat)
    requires |header| == FirstSlot && |slots| == SlotCount
    requires forall k :: 0 <= k < |slots| ==> Encodable(slots[k])
    requires i < SlotCount
    ensures |header + EncodeSlots(slots)| == RecordLength
    ensures (header + EncodeSlots(slots))[21 + 8 * i..29 + 8 * i]
            == EncodeSlot(slots[i])
  {
    var pieces := seq(|slots|, k requires 0 <= k < |slots| =>
      EncodeSlot(slots[k]));
    var e := Concat(pieces);
    assert e == EncodeSlots(slots);
    ConcatAt(pieces, i);
    AppendedSlice(header, e, 8 * i, 8 * i + 8);
  }

  lemma AppendedSlice(h: string, e: string, lo: nat, hi: nat)
    requires lo <= hi <= |e|
    ensures (h + e)[|h| + lo..|h| + hi] == e[lo..hi]
  {
  }

  /** Inside one encoded slot: the first five columns read back the value,
      column 6 is the quality flag. */
  lemma EncodedSlotValue(s: DaySlot)
    requires Encodable(s)
    ensures ParseInt(EncodeSlot(s)[..5]) == Some(s.value)
    ensures EncodeSlot(s)[6] == s.qflag
  {
    var t := IntText(s.value);
    IntTextWidth(s.value);
    var enc := EncodeSlot(s);
    assert enc[..5] == seq(5 - |t|, _ => ' ') + t;
    ParseIntRoundTrip(s.value, 5 - |t|);
  }

  /** Decoding inverts encoding: in a record made of a 21-column header and
      31 encoded slots, slot `i` reads back its own value and its own
      quality flag. */
  lemma DecodeEncodedSlot(header: string, slots: seq<DaySlot>, i: nat)
    requires |header| == FirstSlot && |slots| == SlotCount
    requires forall k :: 0 <= k < |slots| ==> Encodable(slots[k])
    requires i < SlotCount
    ensures |header + EncodeSlots(slots)| == RecordLength
    ensures ParseInt(ValueText(header + EncodeSlots(slots), i)) == Some(slots[i].value)
    ensures FlagText(header + EncodeSlots(slots), i) == [slots[i].qflag]
  {
    SlotColumns(header, slots, i);
    DecodeSlotAt(header + EncodeSlots(slots), i, slots[i]);
  }

  /** A record whose slot `i` holds the encoding of `s` reads back the value
      and the quality flag of `s`. */
  lemma DecodeSlotAt(line: string, i: nat, s: DaySlot)
    requires |line| == RecordLength && i < SlotCount && Encodable(s)
    requires line[21 + 8 * i..29 + 8 * i] == EncodeSlot(s)
    ensures ParseInt(ValueText(line, i)) == Some(s.value)
    ensures FlagText(line, i) == [s.qflag]
  {
    SlotFields(line, i);
    EncodedSlotValue(s);
    DecodeValueAt(line, 21 + 8 * i, EncodeSlot(s), s.value);
    FlagColumn(line, 21 + 8 * i, EncodeSlot(s));
  }

  lemma DecodeValueAt(line: string, at: nat, enc: string, v: int)
    requires at + 8 <= |line| && |enc| == 8 && line[at..at + 8] == enc
    requires ParseInt(enc[..5]) == Some(v)
    ensures ParseInt(line[at..at + 5]) == Some(v)
  {
    ValueColumns(line, at, enc);
  }

  lemma ValueColumns(line: string, at: nat, enc: string)
    requires at + 8 <= |line| && |enc| == 8 && line[at..at + 8] == enc
    ensures line[at..at + 5] == enc[..5]
  {
    InnerSlice(line, at, enc, 0, 5);
  }

  lemma FlagColumn(line: string, at: nat, enc: string)
    requires at + 8 <= |line| && |enc| == 8 && line[at..at + 8] == enc
    ensures line[at + 6..at + 7] == [enc[6]]
  {
    InnerSlice(line, at, enc, 6, 7);
    assert enc[6..7] == [enc[6]];
  }

  /** On a full-length record the value and flag fields are plain slices. */
  lemma SlotFields(line: string, i: nat)
    requires |line| >= RecordLength && i < SlotCount
    ensures ValueText(line, i) == line[21 + 8 * i..26 + 8 * i]
    ensures FlagText(line, i) == line[27 + 8 * i..28 + 8 * i]
  {
    SliceInside(line, 21 + 8 * i, 26 + 8 * i);
    SliceInside(line, 27 + 8 * i, 28 + 8 * i);
  }

  lemma InnerSlice(s: string, at: nat, t: string, lo: nat, hi: nat)
    requires at + |t| <= |s| && s[at..at + |t|] == t && lo <= hi <= |t|
    ensures s[at + lo..at + hi] == t[lo..hi]
  {
    forall k | 0 <= k < hi - lo
      ensures s[at + lo..at + hi][k] == t[lo..hi][k]
    {
      assert s[at + lo..at + hi][k] == s[at + lo + k];
      assert t[lo + k] == s[at..at + |t|][lo + k];
    }
  }
}
