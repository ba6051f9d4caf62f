/** The Python and numpy built-ins the GHCN-Daily reader relies on: string
    slicing, `str.strip`, `int()` on decimal text, numpy's indexing of one
    axis (negative indices count from the end) and the normalisation of
    slice bounds. A raised exception is a `Failure`. */
module PyModel {

  datatype Option<T> = None | Some(value: T)

  /** The Python exception a step raises. */
  datatype Failure = ValueError | IndexError | NameError

  /** The outcome of a routine: its value, or the exception that escaped it. */
  datatype Result<T> = Ok(value: T) | Err(failure: Failure)

  function Min(a: int, b: int): int { if a < b then a else b }

  function Max(a: int, b: int): int { if a < b then b else a }

  /** `c.isspace()` in Python 3. */
  predicate IsSpace(c: char) {
    || c == ' '
    || ('\U{9}' <= c <= '\U{d}')
    || ('\U{1c}' <= c <= '\U{1f}')
    || c == '\U{85}' || c == '\U{a0}' || c == '\U{1680}'
    || ('\U{2000}' <= c <= '\U{200a}')
    || c == '\U{2028}' || c == '\U{2029}' || c == '\U{202f}' || c == '\U{205f}' || c == '\U{3000}'
  }

  predicate AllSpace(s: string) {
    forall k :: 0 <= k < |s| ==> IsSpace(s[k])
  }

  /** `s[lo:hi]` for non-negative bounds: Python clamps both bounds to the
      string, so a short line yields a short (possibly empty) field. */
  function Slice(s: string, lo: nat, hi: nat): (r: string)
    ensures |r| == if lo < hi && lo < |s| then Min(hi, |s|) - lo else 0
    ensures forall k :: 0 <= k < |r| ==> r[k] == s[lo + k]
  {
    var h := Min(hi, |s|);
    if lo < h then s[lo..h] else []
  }

  lemma SliceInside(s: string, lo: nat, hi: nat)
    requires lo <= hi <= |s|
    ensures Slice(s, lo, hi) == s[lo..hi]
  {
  }

  /** Number of whitespace characters at the front of `s`. */
  function LeadCount(s: string): (n: nat)
    ensures n <= |s|
    ensures forall k :: 0 <= k < n ==> IsSpace(s[k])
    ensures n < |s| ==> !IsSpace(s[n])
  {
    if |s| > 0 && IsSpace(s[0]) then 1 + LeadCount(s[1..]) else 0
  }

  /** Number of whitespace characters at the back of `s`. */
  function TrailCount(s: string): (n: nat)
    ensures n <= |s|
    ensures forall k :: |s| - n <= k < |s| ==> IsSpace(s[k])
    ensures n < |s| ==> !IsSpace(s[|s| - 1 - n])
  {
    if |s| > 0 && IsSpace(s[|s| - 1]) then 1 + TrailCount(s[..|s| - 1]) else 0
  }

  /** `s.strip()`: drop leading and trailing whitespace. */
  function Strip(s: string): (r: string)
    ensures |r| <= |s|
  {
    var t := s[LeadCount(s)..];
    t[..|t| - TrailCount(t)]
  }

  /** What `strip` leaves: nothing exactly when the text is all whitespace,
      otherwise a core that starts and ends with a non-space character. */
  lemma StripSpec(s: string)
    ensures Strip(s) == [] <==> AllSpace(s)
    ensures Strip(s) != [] ==> !IsSpace(Strip(s)[0]) && !IsSpace(Strip(s)[|Strip(s)| - 1])
  {
    var i := LeadCount(s);
    var t := s[i..];
    var r := Strip(s);
    if r != [] {
      assert r[0] == s[i];
      assert r[|r| - 1] == t[|t| - 1 - TrailCount(t)];
    }
  }

  /** Stripping a string that has no whitespace at either end is the identity. */
  lemma StripNoEnds(s: string)
    requires s == [] || (!IsSpace(s[0]) && !IsSpace(s[|s| - 1]))
    ensures Strip(s) == s
  {
    if s != [] {
      assert LeadCount(s) == 0;
      assert TrailCount(s) == 0;
    }
  }

  /** `strip` is idempotent. */
  lemma StripIdempotent(s: string)
    ensures Strip(Strip(s)) == Strip(s)
  {
    StripSpec(s);
    StripNoEnds(Strip(s));
  }

  predicate IsDigit(c: char) { '0' <= c <= '9' }

  predicate AllDigits(s: string) {
    forall k :: 0 <= k < |s| ==> IsDigit(s[k])
  }

  /** The value of a string of decimal digits. */
  function DigitsValue(ds: string): nat
    requires AllDigits(ds)
  {
    if ds == [] then 0
    else DigitsValue(ds[..|ds| - 1]) * 10 + (ds[|ds| - 1] as int - '0' as int)
  }

  /** `int(s)` on ASCII decimal text: surrounding whitespace, an optional
      sign and at least one digit; anything else raises ValueError (None). */
  function ParseInt(s: string): (r: Option<int>)
    ensures r.Some? ==> Strip(s) != [] && !AllSpace(s)
    ensures r.Some? && r.value < 0 ==> Strip(s)[0] == '-'
  {
    StripSpec(s);
    var t := Strip(s);
    if |t| >= 2 && (t[0] == '-' || t[0] == '+') && AllDigits(t[1..]) then
      Some(if t[0] == '-' then -(DigitsValue(t[1..]) as int) else DigitsValue(t[1..]))
    else if |t| >= 1 && AllDigits(t) then Some(DigitsValue(t))
    else None
  }

  /** Decimal text of a natural number, most significant digit first. */
  function NatText(n: nat): (r: string)
    ensures |r| >= 1 && AllDigits(r)
    ensures |r| > 1 ==> r[0] != '0'
    decreases n
  {
    var last := ['0' + ((n % 10) as char)];
    if n < 10 then last else NatText(n / 10) + last
  }

  /** `str(n)` for an integer. */
  function IntText(n: int): (r: string)
    ensures |r| >= 1
  {
    if n < 0 then "-" + NatText(-n) else NatText(n)
  }

  lemma {:induction false} NatTextValue(n: nat)
    ensures DigitsValue(NatText(n)) == n
    decreases n
  {
    var t := NatText(n);
    if n >= 10 {
      NatTextValue(n / 10);
      assert t[..|t| - 1] == NatText(n / 10);
    }
  }

  /** `int(str(n)) == n`, also when the text is right-justified with
      leading spaces, as the value columns of a record are. */
  lemma ParseIntRoundTrip(n: int, pad: nat)
    ensures ParseInt(seq(pad, _ => ' ') + IntText(n)) == Some(n)
  {
    var t := IntText(n);
    IntTextEnds(n);
    StripPadded(pad, t);
    ParseIntStrip(seq(pad, _ => ' ') + t);
    IntTextParses(n);
  }

  /** `int` only looks at the stripped text. */
  lemma ParseIntStrip(s: string)
    ensures ParseInt(s) == ParseInt(Strip(s))
  {
    StripIdempotent(s);
  }

  /** `str(n)` starts with a sign or a digit and ends with a digit. */
  lemma IntTextEnds(n: int)
    ensures !IsSpace(IntText(n)[0]) && IsDigit(IntText(n)[|IntText(n)| - 1])
  {
    var r := NatText(if n < 0 then -n else n);
    assert IsDigit(r[|r| - 1]);
  }

  /** `int(str(n)) == n` without padding. */
  lemma IntTextParses(n: int)
    ensures ParseInt(IntText(n)) == Some(n)
  {
    if n < 0 {
      var ds := NatText(-n);
      assert IntText(n) == "-" + ds;
      NatTextValue(-n);
      ParseNegative(ds);
    } else {
      var ds := NatText(n);
      assert IntText(n) == ds;
      NatTextValue(n);
      ParseDigits(ds);
    }
  }

  lemma ParseDigits(ds: string)
    requires ds != [] && AllDigits(ds)
    ensures ParseInt(ds) == Some(DigitsValue(ds))
  {
    StripNoEnds(ds);
  }

  lemma ParseNegative(ds: string)
    requires ds != [] && AllDigits(ds)
    ensures ParseInt("-" + ds) == Some(-(DigitsValue(ds) as int))
  {
    var t := "-" + ds;
    StripNoEnds(t);
    assert t[1..] == ds;
  }

  /** Leading padding is removed by `strip`. */
  lemma StripPadded(pad: nat, t: string)
    requires t != [] && !IsSpace(t[0]) && !IsSpace(t[|t| - 1])
    ensures Strip(seq(pad, _ => ' ') + t) == t
  {
    var s := seq(pad, _ => ' ') + t;
    LeadSpaces(pad, t);
    assert s[pad..] == t;
    assert TrailCount(t) == 0;
  }

  lemma {:induction false} LeadSpaces(pad: nat, t: string)
    requires t != [] && !IsSpace(t[0])
    ensures LeadCount(seq(pad, _ => ' ') + t) == pad
    decreases pad
  {
    var s := seq(pad, _ => ' ') + t;
    if pad > 0 {
      assert s[1..] == seq(pad - 1, _ => ' ') + t;
      LeadSpaces(pad - 1, t);
    }
  }

  /** numpy's check of one index `i` on an axis of length `n`: a negative
      index counts from the end; anything outside `-n .. n-1` raises
      IndexError (None). */
  function NumpyIndex(i: int, n: nat): (r: Option<nat>)
    ensures r.Some? <==> -(n as int) <= i < n
    ensures r.Some? ==> r.value < n && (r.value == i || r.value == i + n)
    ensures r.Some? && i >= 0 ==> r.value == i
  {
    if 0 <= i < n then Some(i)
    else if -(n as int) <= i < 0 then Some(i + n)
    else None
  }

  /** Where Python's slice `a[i:...]` (or `a[...:i]`) starts (ends) on a
      sequence of length `n`. */
  function SliceBound(i: int, n: nat): (r: nat)
    ensures r <= n
    ensures 0 <= i <= n ==> r == i
    ensures i > n ==> r == n
    ensures -(n as int) <= i < 0 ==> r == i + n
    ensures i < -(n as int) ==> r == 0
  {
    if i < 0 then (if i + n < 0 then 0 else i + n)
    else if i > n then n
    else i
  }
}
