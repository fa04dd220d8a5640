/**
 * Signed 64-bit integers and the decimal text form `long.TryParse` accepts:
 * an optional leading '+' or '-', then one or more ASCII digits, with the
 * value in the range of `long`.
 */
module Int64 {
  import opened Wrappers

  const MinLong: int := -0x8000_0000_0000_0000
  const MaxLong: int := 0x7fff_ffff_ffff_ffff

  /** C# `long`. */
  type Long = x: int | MinLong <= x <= MaxLong

  predicate IsDigit(c: char) { '0' <= c <= '9' }

  predicate AllDigits(s: string) { forall i :: 0 <= i < |s| ==> IsDigit(s[i]) }

  /** The value of a run of decimal digits, most significant first. */
  function DigitsValue(s: string): nat
    requires AllDigits(s)
  {
    if s == [] then 0
    else 10 * DigitsValue(s[..|s| - 1]) + (s[|s| - 1] as int - '0' as int)
  }

  /** The sign and digits of a literal, if `s` has the shape of one. */
  function SplitSign(s: string): Option<(bool, string)>
  {
    if |s| > 0 && (s[0] == '-' || s[0] == '+') then
      if |s| > 1 && AllDigits(s[1..]) then Some((s[0] == '-', s[1..])) else None
    else if |s| > 0 && AllDigits(s) then Some((false, s))
    else None
  }

  /** `long.TryParse(s, out var v)`: `Some(v)` on success, `None` on failure. */
  function TryParseLong(s: string): (r: Option<Long>)
    ensures r.Some? ==> s != [] && (IsDigit(s[0]) || s[0] == '-' || s[0] == '+')
    ensures r.Some? ==> forall i :: 0 < i < |s| ==> IsDigit(s[i])
  {
    match SplitSign(s)
    case None => None
    case Some((negative, digits)) =>
      var magnitude: int := DigitsValue(digits);
      var v: int := if negative then -magnitude else magnitude;
      if MinLong <= v <= MaxLong then Some(v) else None
  }

  function DigitChar(d: int): (c: char)
    requires 0 <= d < 10
    ensures IsDigit(c) && c as int - '0' as int == d
  {
    (d + '0' as int) as char
  }

  /** The shortest decimal digits of a natural number. */
  function NatToString(n: nat): (s: string)
    ensures |s| > 0 && AllDigits(s)
    ensures n == 0 <==> s == "0"
    ensures n > 0 ==> s[0] != '0'
  {
    if n < 10 then [DigitChar(n)] else NatToString(n / 10) + [DigitChar(n % 10)]
  }

  /** `n.ToString()` in the invariant culture, as used in string interpolation. */
  function LongToString(n: int): (s: string)
    ensures |s| > 0
    ensures (s[0] == '-') <==> n < 0
    ensures n < 0 ==> |s| > 1 && AllDigits(s[1..]) && DigitsValue(s[1..]) == -n
    ensures n >= 0 ==> AllDigits(s) && DigitsValue(s) == n
    ensures n >= 0 ==> s == "0" || s[0] != '0'
    ensures n < 0 ==> s[1] != '0'
  {
    if n < 0 then
      NatToStringValue(-n);
      assert ("-" + NatToString(-n))[1..] == NatToString(-n);
      "-" + NatToString(-n)
    else
      NatToStringValue(n);
      NatToString(n)
  }

  lemma {:induction false} NatToStringValue(n: nat)
    ensures DigitsValue(NatToString(n)) == n
    decreases n
  {
    if n >= 10 {
      var s := NatToString(n / 10) + [DigitChar(n % 10)];
      assert s[..|s| - 1] == NatToString(n / 10);
      NatToStringValue(n / 10);
    }
  }

  /** Parsing what `LongToString` prints gives back the number. */
  lemma ParseLongToString(n: Long)
    ensures TryParseLong(LongToString(n)) == Some(n)
  {
    var s := LongToString(n);
    if n < 0 {
      var m: int := -(n as int);
      var digits := NatToString(m);
      assert s[1..] == digits;
      assert SplitSign(s) == Some((true, digits));
      NatToStringValue(m);
    } else {
      assert IsDigit(s[0]);
      assert SplitSign(s) == Some((false, s));
      NatToStringValue(n);
    }
  }

  /** A digit run without a sign is its own value, refused exactly when that exceeds `long.MaxValue`. */
  lemma UnsignedDigitsParse(digits: string)
    requires |digits| > 0 && AllDigits(digits)
    ensures TryParseLong(digits) == if DigitsValue(digits) <= MaxLong then Some(DigitsValue(digits)) else None
  {
    assert SplitSign(digits) == Some((false, digits));
  }

  /** A sign and a digit run: '+' keeps the value, '-' negates it, and the range of `long` is checked after the sign. */
  lemma SignedDigitsParse(sign: char, digits: string)
    requires sign == '+' || sign == '-'
    requires |digits| > 0 && AllDigits(digits)
    ensures var v: int := if sign == '-' then 0 - DigitsValue(digits) as int else DigitsValue(digits);
      TryParseLong([sign] + digits) == if MinLong <= v <= MaxLong then Some(v) else None
  {
    var s := [sign] + digits;
    assert s[0] == sign && s[1..] == digits;
    assert SplitSign(s) == Some((sign == '-', digits));
  }

  /** A literal beyond `long.MaxValue` is refused rather than wrapped around. */
  lemma OverflowRefused(n: nat)
    requires n > MaxLong
    ensures TryParseLong(NatToString(n)) == None
    ensures TryParseLong("+" + NatToString(n)) == None
  {
    NatToStringValue(n);
    UnsignedDigitsParse(NatToString(n));
    SignedDigitsParse('+', NatToString(n));
  }

  /** A negative literal beyond `long.MinValue` is refused; `long.MinValue` itself is accepted. */
  lemma NegativeOverflowRefused(n: nat)
    ensures n > -MinLong ==> TryParseLong("-" + NatToString(n)) == None
    ensures n == -MinLong ==> TryParseLong("-" + NatToString(n)) == Some(MinLong)
  {
    NatToStringValue(n);
    SignedDigitsParse('-', NatToString(n));
  }

  /** A leading '+' is accepted and changes nothing. */
  lemma PlusSignAccepted(n: nat)
    requires n <= MaxLong
    ensures TryParseLong("+" + NatToString(n)) == Some(n)
  {
    NatToStringValue(n);
    SignedDigitsParse('+', NatToString(n));
  }

  /** A leading zero does not change the value of a digit run. */
  lemma {:induction false} LeadingZeroValue(digits: string)
    requires AllDigits(digits)
    ensures AllDigits("0" + digits) && DigitsValue("0" + digits) == DigitsValue(digits)
    decreases |digits|
  {
    var z := "0" + digits;
    assert AllDigits(z) by {
      forall i | 0 <= i < |z| ensures IsDigit(z[i]) {
        if i > 0 { assert z[i] == digits[i - 1]; }
      }
    }
    if digits != [] {
      var front := digits[..|digits| - 1];
      assert z[..|z| - 1] == "0" + front;
      assert z[|z| - 1] == digits[|digits| - 1];
      LeadingZeroValue(front);
    }
  }

  /** Leading zeros are accepted: "007" parses as "7" does. */
  lemma LeadingZerosAccepted(digits: string)
    requires |digits| > 0 && AllDigits(digits)
    ensures TryParseLong("0" + digits) == TryParseLong(digits)
  {
    LeadingZeroValue(digits);
    UnsignedDigitsParse(digits);
    UnsignedDigitsParse("0" + digits);
  }

  /** Concrete cases: "123" parses, text and the empty string do not. */
  lemma ParseExamples()
    ensures TryParseLong("123") == Some(123)
    ensures TryParseLong("-7") == Some(-7)
    ensures TryParseLong("") == None
    ensures TryParseLong("not-a-number") == None
    ensures TryParseLong("-") == None
  {
    ParseLongToString(123);
    assert LongToString(123) == "123";
    ParseLongToString(-7);
    assert LongToString(-7) == "-7";
    assert !IsDigit("not-a-number"[0]);
  }
}
