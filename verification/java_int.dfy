/** Java `int` arithmetic and the three library routines the record identifier
    relies on: `Integer.toString`, `Integer.parseInt` (radix 10) and `String.hashCode`. */
module JavaInt {
  import opened Wrappers

  const TwoTo31: int := 0x8000_0000
  const TwoTo32: int := 0x1_0000_0000
  const IntMin: int := -TwoTo31
  const IntMax: int := TwoTo31 - 1

  predicate InInt32(x: int) {
    IntMin <= x <= IntMax
  }

  /** The values of a Java `int`. */
  type Int32 = x: int | InInt32(x)

  /** Two's-complement wrap-around of a mathematical integer into an `int`. */
  function Wrap32(x: int): (r: Int32)
    ensures (x - r) % TwoTo32 == 0
    ensures InInt32(x) ==> r == x
  {
    var m := x % TwoTo32;
    if m <= IntMax then m else m - TwoTo32
  }

  /** Adding a multiple of 2^32 does not change the wrapped value. */
  lemma WrapShift(x: int, k: int)
    ensures Wrap32(x + k * TwoTo32) == Wrap32(x)
  {
    assert (x + k * TwoTo32) % TwoTo32 == x % TwoTo32;
  }

  function Pow10(k: nat): nat
  {
    if k == 0 then 1 else 10 * Pow10(k - 1)
  }

  // ---------------------------------------------------------------- digits

  predicate IsDigit(c: char) {
    '0' <= c <= '9'
  }

  predicate AllDigits(s: string) {
    forall i :: 0 <= i < |s| ==> IsDigit(s[i])
  }

  function DigitChar(d: nat): (c: char)
    requires d < 10
    ensures IsDigit(c)
  {
    ('0' as int + d) as char
  }

  function DigitValue(c: char): (d: nat)
    requires IsDigit(c)
    ensures d < 10
  {
    c as int - '0' as int
  }

  /** Number of decimal digits of `n`, computed arithmetically. */
  function DecimalLength(n: nat): (k: nat)
    ensures k >= 1
  {
    if n < 10 then 1 else 1 + DecimalLength(n / 10)
  }

  /** The decimal text of a non-negative number, most significant digit first, no leading zero. */
  function NatToDecimal(n: nat): (s: string)
    ensures AllDigits(s)
    ensures |s| == DecimalLength(n)
    ensures n > 0 ==> s[0] != '0'
  {
    if n < 10 then [DigitChar(n)] else NatToDecimal(n / 10) + [DigitChar(n % 10)]
  }

  /** Value of a digit string read in base ten (the empty string reads as 0). */
  function DecimalValue(s: string): nat
    requires AllDigits(s)
  {
    if |s| == 0 then 0 else DecimalValue(s[..|s| - 1]) * 10 + DigitValue(s[|s| - 1])
  }

  /** Reading back the decimal text of `n` gives `n`. */
  lemma {:induction false} DecimalRoundTrip(n: nat)
    ensures DecimalValue(NatToDecimal(n)) == n
  {
    if n >= 10 {
      var s := NatToDecimal(n);
      assert s[..|s| - 1] == NatToDecimal(n / 10);
      DecimalRoundTrip(n / 10);
    }
  }

  /** Reading the juxtaposition of two digit strings: the first is shifted by the length of the second. */
  lemma {:induction false} DecimalValueAppend(a: string, b: string)
    requires AllDigits(a) && AllDigits(b)
    ensures AllDigits(a + b)
    ensures DecimalValue(a + b) == DecimalValue(a) * Pow10(|b|) + DecimalValue(b)
  {
    var ab := a + b;
    assert AllDigits(ab) by {
      forall i | 0 <= i < |ab| ensures IsDigit(ab[i]) {
        if i < |a| { assert ab[i] == a[i]; } else { assert ab[i] == b[i - |a|]; }
      }
    }
    if |b| == 0 {
      assert ab == a;
    } else {
      var b' := b[..|b| - 1];
      assert ab[..|ab| - 1] == a + b';
      assert ab[|ab| - 1] == b[|b| - 1];
      DecimalValueAppend(a, b');
      var d := DigitValue(b[|b| - 1]);
      var va, vb' := DecimalValue(a), DecimalValue(b');
      var p := Pow10(|b'|);
      assert DecimalValue(ab) == DecimalValue(a + b') * 10 + d;
      assert DecimalValue(b) == vb' * 10 + d;
      assert Pow10(|b|) == 10 * p;
      ShiftOneDigit(va, p, vb', d);
    }
  }

  lemma ShiftOneDigit(va: int, p: int, vb: int, d: int)
    ensures (va * p + vb) * 10 + d == va * (10 * p) + (vb * 10 + d)
  {
  }

  // ---------------------------------------------------------------- Integer.toString / parseInt

  /** `Integer.toString(x)`: an optional minus sign followed by the decimal digits of |x|. */
  function IntToString(x: int): (s: string)
    ensures |s| > 0
    ensures s[0] == '-' <==> x < 0
    ensures x < 0 ==> s[1..] == NatToDecimal(-x)
    ensures x >= 0 ==> s == NatToDecimal(x)
  {
    if x < 0 then "-" + NatToDecimal(-x) else NatToDecimal(x)
  }

  /** `Integer.parseInt(s)` for ASCII text: `None` where Java throws `NumberFormatException`.
      A leading '-' or '+' is allowed, at least one digit must follow, every other character
      must be a digit and the value must fit an `int`. */
  function ParseInt(s: string): (r: Option<Int32>)
    ensures |s| == 0 ==> r.None?
    ensures r.Some? && s[0] != '-' && s[0] != '+' ==> AllDigits(s) && r.value == DecimalValue(s)
    ensures r.Some? && s[0] == '-' ==> AllDigits(s[1..]) && r.value == -(DecimalValue(s[1..]) as int)
    ensures |s| > 0 && AllDigits(s) && DecimalValue(s) <= IntMax ==> r == Some(DecimalValue(s))
    ensures |s| > 1 && s[0] == '-' && AllDigits(s[1..]) && InInt32(-(DecimalValue(s[1..]) as int)) ==>
      r == Some(-(DecimalValue(s[1..]) as int))
  {
    assert |s| > 0 && AllDigits(s) ==> IsDigit(s[0]);
    if |s| == 0 then None
    else if s[0] == '-' || s[0] == '+' then
      var digits := s[1..];
      if |digits| == 0 || !AllDigits(digits) then None
      else
        var v := if s[0] == '-' then -(DecimalValue(digits) as int) else DecimalValue(digits) as int;
        if InInt32(v) then Some(v) else None
    else if AllDigits(s) && DecimalValue(s) <= IntMax then Some(DecimalValue(s))
    else None
  }

  /** A minus sign followed by digits parses to the negated value when that fits an `int`. */
  lemma ParseNegative(digits: string)
    requires |digits| > 0 && AllDigits(digits)
    ensures var v := -(DecimalValue(digits) as int);
      ParseInt("-" + digits) == if InInt32(v) then Some(v) else None
  {
    assert ("-" + digits)[1..] == digits;
  }

  /** Digits alone parse to their value when it fits an `int`. */
  lemma ParseUnsigned(digits: string)
    requires |digits| > 0 && AllDigits(digits)
    ensures ParseInt(digits) == if DecimalValue(digits) <= IntMax then Some(DecimalValue(digits)) else None
  {
    assert IsDigit(digits[0]);
  }

  /** A '-' anywhere after the first character makes `parseInt` throw. */
  lemma ParseRejectsInnerMinus(s: string, i: nat)
    requires 0 < i < |s| && s[i] == '-'
    ensures ParseInt(s).None?
  {
    if s[0] == '-' || s[0] == '+' {
      assert s[1..][i - 1] == '-';
    } else {
      assert !IsDigit(s[i]);
    }
  }

  /** `Integer.parseInt(Integer.toString(x)) == x` for every `int`. */
  lemma ParseIntToString(x: Int32)
    ensures ParseInt(IntToString(x)) == Some(x)
  {
    var s := IntToString(x);
    if x < 0 {
      DecimalRoundTrip(-(x as int));
      assert s[1..] == NatToDecimal(-(x as int));
    } else {
      DecimalRoundTrip(x);
      assert IsDigit(s[0]) && AllDigits(s);
      assert DecimalValue(s) == x as int;
      assert InInt32(x);
    }
  }

  // ---------------------------------------------------------------- String.hashCode

  /** The documented formula s[0]*31^(n-1) + ... + s[n-1] in unbounded arithmetic. */
  function PolynomialHash(s: string): int
  {
    if |s| == 0 then 0 else 31 * PolynomialHash(s[..|s| - 1]) + s[|s| - 1] as int
  }

  /** One more character: the polynomial so far times 31 plus the character. */
  lemma PolynomialAppend(s: string, c: char)
    ensures PolynomialHash(s + [c]) == 31 * PolynomialHash(s) + c as int
  {
    assert (s + [c])[..|s|] == s;
  }

  /** `String.hashCode()`: h = 31 * h + c over the characters, in `int` arithmetic. Wrapping at
      every step comes to the same as wrapping the exact polynomial once. */
  function JavaStringHash(s: string): (h: Int32)
    ensures h == Wrap32(PolynomialHash(s))
  {
    if |s| == 0 then 0
    else
      var prefix, c := s[..|s| - 1], s[|s| - 1] as int;
      WrapStep(PolynomialHash(prefix), JavaStringHash(prefix), c);
      Wrap32(31 * JavaStringHash(prefix) + c)
  }

  /** One step of the hash loop commutes with wrapping. */
  lemma WrapStep(exact: int, w: int, c: int)
    requires w == Wrap32(exact)
    ensures Wrap32(31 * w + c) == Wrap32(31 * exact + c)
  {
    var k := (w - exact) / TwoTo32;
    assert w == exact + k * TwoTo32;
    assert 31 * w + c == (31 * exact + c) + (31 * k) * TwoTo32;
    WrapShift(31 * exact + c, 31 * k);
  }

  /** One more character: the hash so far times 31 plus the character, wrapped. */
  lemma StringHashAppend(s: string, c: char)
    ensures JavaStringHash(s + [c]) == Wrap32(31 * JavaStringHash(s) + c as int)
  {
    assert (s + [c])[..|s|] == s;
  }
}
