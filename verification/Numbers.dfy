/** Decimal numerals: the integer printer and the number parser of ArduinoJson. */
module Numbers {
  import opened Document

  predicate IsDigit(c: char) { '0' <= c <= '9' }

  function DigitChar(d: nat): (c: char)
    requires d < 10
    ensures IsDigit(c) && DigitValue(c) == d
  {
    (d + '0' as int) as char
  }

  function DigitValue(c: char): (d: nat)
    requires IsDigit(c)
    ensures d < 10
  {
    c as int - '0' as int
  }

  predicate AllDigits(s: string) { forall i :: 0 <= i < |s| ==> IsDigit(s[i]) }

  /** The decimal numeral of n, without leading zeros. */
  function Digits(n: nat): (s: string)
    ensures |s| >= 1 && AllDigits(s)
  {
    if n < 10 then [DigitChar(n)] else Digits(n / 10) + [DigitChar(n % 10)]
  }

  /** The number a digit string denotes. */
  function NumeralValue(s: string): nat
    requires AllDigits(s)
  {
    if s == [] then 0 else 10 * NumeralValue(s[..|s| - 1]) + DigitValue(s[|s| - 1])
  }

  lemma {:induction false} DigitsDenote(n: nat)
    ensures NumeralValue(Digits(n)) == n
  {
    if n >= 10 {
      DigitsDenote(n / 10);
      assert Digits(n)[..|Digits(n)| - 1] == Digits(n / 10);
    }
  }

  lemma DigitsInjective(m: nat, n: nat)
    requires Digits(m) == Digits(n)
    ensures m == n
  {
    DigitsDenote(m);
    DigitsDenote(n);
  }

  /** k decimal digits are enough below 10^k, here for the 64-bit range. */
  lemma {:induction false} DigitsLength(n: nat, k: nat)
    requires k >= 1 && n < Pow10(k)
    ensures |Digits(n)| <= k
  {
    if n >= 10 {
      assert Pow10(k) == 10 * Pow10(k - 1);
      DigitsLength(n / 10, k - 1);
    }
  }

  function Pow10(k: nat): (p: nat)
    ensures p > 0
  {
    if k == 0 then 1 else 10 * Pow10(k - 1)
  }

  lemma UIntDigits(n: nat)
    requires n <= UINT_MAX
    ensures |Digits(n)| <= 20
  {
    assert Pow10(5) == 100000;
    assert Pow10(10) == 10000000000;
    assert Pow10(15) == 1000000000000000;
    assert Pow10(20) == 100000000000000000000;
    DigitsLength(n, 20);
  }

  // ----- reading -----

  datatype Numeral =
    | NotANumber
    | Integer(negative: bool, n: nat)
    | Fractional(number: Real)

  /** The character at i, NUL past the end: a C string. */
  function At(t: string, i: nat): char { if i < |t| then t[i] else '\0' }

  /** Accumulates digits from i on until a non-digit or until 64 bits would overflow. */
  function Mantissa(t: string, i: nat, m: nat): (r: (nat, nat))
    requires i <= |t|
    ensures i <= r.1 <= |t|
    decreases |t| - i
  {
    if IsDigit(At(t, i)) && m <= UINT_MAX / 10 && 10 * m <= UINT_MAX - DigitValue(t[i])
    then Mantissa(t, i + 1, 10 * m + DigitValue(t[i]))
    else if IsDigit(At(t, i)) && m <= UINT_MAX / 10 then (10 * m, i)
    else (m, i)
  }

  function ParseNumber(t: string): Numeral {
    var negative := At(t, 0) == '-';
    var i := if At(t, 0) == '-' || At(t, 0) == '+' then 1 else 0;
    if !IsDigit(At(t, i)) && At(t, i) != '.' then NotANumber
    else
      var (m, j) := Mantissa(t, i, 0);
      if At(t, j) == '\0' then Integer(negative, m) else FloatTail(t, j, negative, m)
  }

  /** The parser: its digit loop with two overflow guards, and what follows a plain integer. */
  method ReadNumber(s: string) returns (r: Numeral)
    ensures r == ParseNumber(s)
  {
    var negative, i: nat := false, 0;
    if At(s, 0) == '-' {
      negative, i := true, 1;
    } else if At(s, 0) == '+' {
      i := 1;
    }
    if !IsDigit(At(s, i)) && At(s, i) != '.' {
      return NotANumber;
    }
    var m: nat := 0;
    ghost var whole := Mantissa(s, i, 0);
    while IsDigit(At(s, i)) && m <= UINT_MAX / 10
      invariant i <= |s| && Mantissa(s, i, m) == whole
      decreases |s| - i
    {
      var digit := DigitValue(At(s, i));
      if 10 * m > UINT_MAX - digit {
        m := 10 * m;
        break;
      }
      m, i := 10 * m + digit, i + 1;
    }
    assert (m, i) == whole;
    if At(s, i) == '\0' {
      return Integer(negative, m);
    }
    r := ReadFloatTail(s, i, negative, m);
  }

  /** The rest of a number that is not a plain integer: digits that are too many, a fraction, and
      an exponent. */
  method ReadFloatTail(s: string, start: nat, negative: bool, first: nat) returns (r: Numeral)
    requires start <= |s|
    ensures r == FloatTail(s, start, negative, first)
  {
    var mantissa: nat, offset: int, i: nat := first, 0, start;
    while mantissa > MANTISSA_MAX
      invariant Scale(mantissa, offset) == Scale(first, 0)
    {
      mantissa, offset := mantissa / 10, offset + 1;
    }
    ghost var scaled := offset;
    while IsDigit(At(s, i))
      invariant start <= i <= |s| && SkipDigits(s, i) == SkipDigits(s, start) && offset == scaled + (i - start)
      decreases |s| - i
    {
      offset, i := offset + 1, i + 1;
    }
    if At(s, i) == '.' {
      i := i + 1;
      ghost var whole := Fraction(s, i, mantissa, offset);
      while IsDigit(At(s, i))
        invariant i <= |s| && Fraction(s, i, mantissa, offset) == whole
        decreases |s| - i
      {
        if mantissa < MANTISSA_MAX / 10 {
          mantissa, offset := mantissa * 10 + DigitValue(At(s, i)), offset - 1;
        }
        i := i + 1;
      }
    }
    r := ReadExponent(s, i, negative, mantissa, offset);
  }

  method ReadExponent(s: string, start: nat, negative: bool, mantissa: nat, offset: int) returns (r: Numeral)
    requires start <= |s|
    ensures r == ExponentTail(s, start, negative, mantissa, offset)
  {
    var exponent: int, i: nat := 0, start;
    if At(s, i) == 'e' || At(s, i) == 'E' {
      i := i + 1;
      var negativeExponent := false;
      if At(s, i) == '-' {
        negativeExponent, i := true, i + 1;
      } else if At(s, i) == '+' {
        i := i + 1;
      }
      ghost var whole := Exponent(s, i, 0, offset);
      while IsDigit(At(s, i))
        invariant i <= |s| && exponent >= 0 && Exponent(s, i, exponent, offset) == whole
        decreases |s| - i
      {
        exponent := exponent * 10 + DigitValue(At(s, i));
        if exponent + offset > EXPONENT_MAX {
          return Fractional(if negativeExponent then Tiny(negative) else Infinite(negative));
        }
        i := i + 1;
      }
      if negativeExponent {
        exponent := -exponent;
      }
    }
    exponent := exponent + offset;
    r := if At(s, i) != '\0' then NotANumber else Fractional(Decimal(negative, mantissa, exponent));
  }

  // ----- fractions and exponents -----

  const MANTISSA_MAX: nat := 0xF_FFFF_FFFF_FFFF

  const EXPONENT_MAX: nat := 308

  /** Drops low digits of the mantissa until it fits, counting them. */
  function Scale(m: nat, offset: int): (nat, int) {
    if m > MANTISSA_MAX then Scale(m / 10, offset + 1) else (m, offset)
  }

  function SkipDigits(t: string, i: nat): (j: nat)
    requires i <= |t|
    ensures i <= j <= |t|
    decreases |t| - i
  {
    if IsDigit(At(t, i)) then SkipDigits(t, i + 1) else i
  }

  function Fraction(t: string, i: nat, m: nat, offset: int): (r: (nat, int, nat))
    requires i <= |t|
    ensures i <= r.2 <= |t|
    decreases |t| - i
  {
    if !IsDigit(At(t, i)) then (m, offset, i)
    else if m < MANTISSA_MAX / 10 then Fraction(t, i + 1, m * 10 + DigitValue(t[i]), offset - 1)
    else Fraction(t, i + 1, m, offset)
  }

  /** The exponent's magnitude, or None once it leaves the representable range. */
  function Exponent(t: string, i: nat, e: nat, offset: int): (r: (Option<nat>, nat))
    requires i <= |t|
    ensures i <= r.1 <= |t|
    decreases |t| - i
  {
    if !IsDigit(At(t, i)) then (Some(e), i)
    else
      var e' := e * 10 + DigitValue(t[i]);
      if e' + offset > EXPONENT_MAX then (None, i) else Exponent(t, i + 1, e', offset)
  }

  /** What follows the integer digits of a number that is not a plain integer. */
  function FloatTail(t: string, j: nat, negative: bool, m: nat): Numeral
    requires j <= |t|
  {
    var (m1, offset1) := Scale(m, 0);
    var k := SkipDigits(t, j);
    var offset2 := offset1 + (k - j);
    var (m3, offset3, k3) := if At(t, k) == '.' then Fraction(t, k + 1, m1, offset2) else (m1, offset2, k);
    ExponentTail(t, k3, negative, m3, offset3)
  }

  /** An exponent, if there is one, and the end of the number. */
  function ExponentTail(t: string, i: nat, negative: bool, m: nat, offset: int): Numeral
    requires i <= |t|
  {
    if At(t, i) != 'e' && At(t, i) != 'E' then
      if At(t, i) != '\0' then NotANumber else Fractional(Decimal(negative, m, offset))
    else
      var minus := At(t, i + 1) == '-';
      var j := if minus || At(t, i + 1) == '+' then i + 2 else i + 1;
      var (e, k) := Exponent(t, j, 0, offset);
      if e.None? then Fractional(if minus then Tiny(negative) else Infinite(negative))
      else if At(t, k) != '\0' then NotANumber
      else Fractional(Decimal(negative, m, if minus then offset - e.value else offset + e.value))
  }
}
