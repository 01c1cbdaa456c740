/**
 * `long.Parse(s)` with the default `NumberStyles.Integer`: optional white
 * space, an optional `+` or `-`, one or more decimal digits, optional white
 * space, and a value inside the 64-bit signed range. `None` stands for the
 * `FormatException` or `OverflowException` the call would throw.
 */
module NumberParse {
  import opened Primitives

  const MinLong: int := -0x8000_0000_0000_0000
  const MaxLong: int := 0x7FFF_FFFF_FFFF_FFFF

  /** The white space `NumberStyles.AllowLeadingWhite` and `AllowTrailingWhite` accept. */
  predicate IsWhite(c: char)
  {
    c == ' ' || '\t' <= c <= '\r'
  }

  predicate IsDigit(c: char)
  {
    '0' <= c <= '9'
  }

  predicate AllDigits(s: string)
  {
    forall i :: 0 <= i < |s| ==> IsDigit(s[i])
  }

  function TrimStart(s: string): (r: string)
    ensures |r| <= |s| && r == s[|s| - |r|..]
    ensures r == [] || !IsWhite(r[0])
  {
    if s != [] && IsWhite(s[0]) then TrimStart(s[1..]) else s
  }

  function TrimEnd(s: string): (r: string)
    ensures |r| <= |s| && r == s[..|r|]
    ensures r == [] || !IsWhite(r[|r| - 1])
  {
    if s != [] && IsWhite(s[|s| - 1]) then TrimEnd(s[..|s| - 1]) else s
  }

  /** The value of a run of decimal digits, most significant first. */
  function DigitsValue(ds: string): nat
    requires AllDigits(ds)
  {
    if ds == [] then 0
    else DigitsValue(ds[..|ds| - 1]) * 10 + (ds[|ds| - 1] as int - '0' as int)
  }

  function ParseLong(s: string): (r: Option<int>)
    ensures r.Some? ==> MinLong <= r.value <= MaxLong
  {
    ParseTrimmed(TrimEnd(TrimStart(s)))
  }

  /** The sign, digits and range check, once the white space is gone. */
  function ParseTrimmed(t: string): (r: Option<int>)
    ensures r.Some? ==> MinLong <= r.value <= MaxLong
  {
    var signed := t != [] && (t[0] == '-' || t[0] == '+');
    var digits := if signed then t[1..] else t;
    if digits == [] || !AllDigits(digits) then None
    else
      var magnitude: int := DigitsValue(digits);
      var v := if signed && t[0] == '-' then -magnitude else magnitude;
      if MinLong <= v <= MaxLong then Some(v) else None
  }

  /** The decimal text of `n`, as `n.ToString()` writes it. */
  function DecimalString(n: nat): (r: string)
    ensures r != [] && AllDigits(r)
  {
    var last := [('0' as int + n % 10) as char];
    if n < 10 then last else DecimalString(n / 10) + last
  }

  /** Reading the digits of `n` back gives `n`. */
  lemma {:induction false} DecimalStringValue(n: nat)
    ensures DigitsValue(DecimalString(n)) == n
  {
    var s := DecimalString(n);
    if n >= 10 {
      DecimalStringValue(n / 10);
      assert s[..|s| - 1] == DecimalString(n / 10);
    }
  }

  /** Text with no white space at either end is left alone by the trimming. */
  lemma TrimNothing(s: string)
    requires s != [] && !IsWhite(s[0]) && !IsWhite(s[|s| - 1])
    ensures TrimEnd(TrimStart(s)) == s
  {
  }

  /** Leading white space is skipped whole, up to the first other character. */
  lemma {:induction false} TrimStartWhite(w: string, s: string)
    requires forall i :: 0 <= i < |w| ==> IsWhite(w[i])
    requires s == [] || !IsWhite(s[0])
    ensures TrimStart(w + s) == s
    decreases |w|
  {
    if w == [] {
      assert w + s == s;
    } else {
      assert (w + s)[1..] == w[1..] + s;
      TrimStartWhite(w[1..], s);
    }
  }

  /** Trailing white space is dropped whole, back to the last other character. */
  lemma {:induction false} TrimEndWhite(s: string, w: string)
    requires forall i :: 0 <= i < |w| ==> IsWhite(w[i])
    requires s == [] || !IsWhite(s[|s| - 1])
    ensures TrimEnd(s + w) == s
    decreases |w|
  {
    if w == [] {
      assert s + w == s;
    } else {
      assert (s + w)[..|s + w| - 1] == s + w[..|w| - 1];
      TrimEndWhite(s, w[..|w| - 1]);
    }
  }

  /** White space around the number does not change what `long.Parse` makes of it. */
  lemma ParseLongPadded(before: string, t: string, after: string)
    requires forall i :: 0 <= i < |before| ==> IsWhite(before[i])
    requires forall i :: 0 <= i < |after| ==> IsWhite(after[i])
    requires t != [] && !IsWhite(t[0]) && !IsWhite(t[|t| - 1])
    ensures ParseLong(before + t + after) == ParseLong(t)
  {
    assert before + t + after == before + (t + after);
    TrimStartWhite(before, t + after);
    TrimEndWhite(t, after);
    TrimNothing(t);
  }

  /** Digits alone parse to their value when it is in range. */
  lemma ParseDigits(d: string)
    requires d != [] && AllDigits(d)
    ensures ParseLong(d) == if DigitsValue(d) <= MaxLong then Some(DigitsValue(d) as int) else None
  {
    assert IsDigit(d[0]) && IsDigit(d[|d| - 1]);
    TrimNothing(d);
  }

  /** A minus sign followed by digits parses to the negated value when that is in range. */
  lemma ParseNegativeDigits(d: string)
    requires d != [] && AllDigits(d)
    ensures ParseLong("-" + d)
         == if MinLong <= -(DigitsValue(d) as int) then Some(-(DigitsValue(d) as int)) else None
  {
    ParseTrimmedNegative(d);
    var s := "-" + d;
    assert s[|s| - 1] == d[|d| - 1];
    TrimNothing(s);
  }

  lemma ParseTrimmedNegative(d: string)
    requires d != [] && AllDigits(d)
    ensures ParseTrimmed("-" + d)
         == if MinLong <= -(DigitsValue(d) as int) then Some(-(DigitsValue(d) as int)) else None
  {
    var s := "-" + d;
    assert s[0] == '-' && s[1..] == d;
  }

  /** `long.Parse` accepts the decimal text of every value in range and returns that value. */
  lemma ParseLongDecimal(n: nat)
    requires n <= MaxLong
    ensures ParseLong(DecimalString(n)) == Some(n)
  {
    DecimalStringValue(n);
    ParseDigits(DecimalString(n));
  }

  /** ... and a minus sign before digits worth at most 2^63 gives the negated value. */
  lemma ParseLongNegative(d: string)
    requires d != [] && AllDigits(d) && DigitsValue(d) <= -MinLong
    ensures ParseLong("-" + d) == Some(-(DigitsValue(d) as int))
  {
    ParseNegativeDigits(d);
  }

  /** Text without any digit does not parse; in particular the empty string does not. */
  lemma ParseLongNeedsDigit(s: string)
    requires forall i :: 0 <= i < |s| ==> !IsDigit(s[i])
    ensures ParseLong(s) == None
  {
    var u := TrimStart(s);
    var t := TrimEnd(u);
    if t != [] {
      var k := if t[0] == '-' || t[0] == '+' then 1 else 0;
      if k < |t| {
        assert t[k] == u[k] == s[|s| - |u| + k];
      }
    }
  }


  /** Values past the 64-bit range overflow, which is a failure too. */
  lemma ParseLongOverflow(n: nat)
    requires n > MaxLong
    ensures ParseLong(DecimalString(n)) == None
  {
    DecimalStringValue(n);
    ParseDigits(DecimalString(n));
  }

  /** ... and so do values below the 64-bit range. */
  lemma NegativeOverflow(n: nat)
    requires n > -MinLong
    ensures ParseLong("-" + DecimalString(n)) == None
  {
    DecimalStringValue(n);
    ParseNegativeDigits(DecimalString(n));
  }

  /** `2592000` (thirty days in seconds) is the decimal text of that number. */
  lemma DecimalSample()
    ensures DecimalString(2592000) == "2592000"
  {
    assert DecimalString(2) == "2";
    assert DecimalString(25) == "25";
    assert DecimalString(259) == "259";
    assert DecimalString(2592) == "2592";
    assert DecimalString(25920) == "25920";
    assert DecimalString(259200) == "259200";
  }
}
