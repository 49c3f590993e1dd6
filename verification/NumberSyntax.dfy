/** The numerals that the number parser accepts, by their spelling, and the number each stands for. */
module NumberSyntax {
  import opened Arithmetic
  import opened Document
  import opened Numbers

  /** The parts of a numeral. */
  datatype Numerals = Numerals(sign: string, whole: string, point: bool, fraction: string, mark: string, expSign: string, exponent: string)

  function Spelling(n: Numerals): string {
    n.sign + (n.whole + ((if n.point then "." + n.fraction else "") + (n.mark + (n.expSign + n.exponent))))
  }

  predicate IsSign(s: string) { s == "" || s == "-" || s == "+" }

  /** A sign, digits, a point and digits, and an exponent.  Unlike in section 6 of RFC 8259, there may
      be a plus and leading zeros, digits may be missing on either side of the point, and so may
      the exponent's. */
  predicate IsNumeral(n: Numerals) {
    && IsSign(n.sign) && AllDigits(n.whole) && AllDigits(n.fraction) && AllDigits(n.exponent)
    && (n.whole != "" || n.point) && (n.point || n.fraction == "")
    && (n.mark == "e" || n.mark == "E" || (n.mark == "" && n.expSign == "" && n.exponent == "")) && IsSign(n.expSign)
  }

  // ----- what a numeral stands for -----

  /** The largest prefix of ten times which fits 64 bits. */
  const TENTH: nat := UINT_MAX / 10

  /** The digits reach a number from 2^64 to 2^64 + 3: the parser has multiplied by ten when it finds
      that the last digit does not fit, and counts that digit once more. */
  predicate SlipsAt(whole: string, i: nat)
    requires AllDigits(whole) && i < |whole|
  {
    NumeralValue(whole[..i]) == TENTH && 10 * TENTH + DigitValue(whole[i]) > UINT_MAX
  }

  predicate Slips(whole: string)
    requires AllDigits(whole)
  {
    exists i :: 0 <= i < |whole| && SlipsAt(whole, i)
  }

  /** The whole part as it is read. */
  ghost function WholeRead(whole: string): nat
    requires AllDigits(whole)
  {
    if Slips(whole) then
      var i :| 0 <= i < |whole| && SlipsAt(whole, i);
      10 * TENTH * Pow10(|whole| - i)
    else NumeralValue(whole)
  }

  /** The digits that are kept, and the power of ten behind them: of the whole part as many as fit 52
      bits; if all do, digits of the fraction until there are 15. */
  ghost predicate Kept(n: Numerals, m: nat, offset: int)
    requires IsNumeral(n)
  {
    var w := WholeRead(n.whole);
    if offset >= 0 then
      && m == w / Pow10(offset) && m <= MANTISSA_MAX && (offset > 0 ==> w / Pow10(offset - 1) > MANTISSA_MAX)
      && (offset == 0 ==> n.fraction == "" || w >= MANTISSA_MAX / 10)
    else
      var k: nat := 0 - offset;
      && w <= MANTISSA_MAX && k <= |n.fraction| && m == NumeralValue(n.whole + n.fraction[..k])
      && NumeralValue(n.whole + n.fraction[..k - 1]) < MANTISSA_MAX / 10
      && (k == |n.fraction| || m >= MANTISSA_MAX / 10)
  }

  predicate IsInteger(n: Numerals)
    requires IsNumeral(n)
  {
    !n.point && n.mark == "" && NumeralValue(n.whole) <= UINT_MAX
  }

  /** The exponent leaves the range of a double, whatever the digits. */
  predicate OutOfRange(n: Numerals, offset: int)
    requires IsNumeral(n)
  {
    n.exponent != "" && NumeralValue(n.exponent) + offset > EXPONENT_MAX
  }

  /** The number behind its digits and their power of ten. */
  function Scaled(n: Numerals, m: nat, offset: int): Numeral
    requires IsNumeral(n)
  {
    var negative, minus := n.sign == "-", n.expSign == "-";
    Fractional(
      if OutOfRange(n, offset) then if minus then Tiny(negative) else Infinite(negative)
      else Decimal(negative, m, if minus then offset - NumeralValue(n.exponent) else offset + NumeralValue(n.exponent)))
  }

  /** Behind an exponent out of range the parser looks at nothing more; but a digit would be one of
      the exponent's. */
  predicate Follows(n: Numerals, offset: int, junk: string)
    requires IsNumeral(n)
  {
    junk == "" || (OutOfRange(n, offset) && !IsDigit(junk[0]))
  }

  /** The numeral, and perhaps something behind it that is not looked at, is read as r. */
  ghost predicate StandsFor(n: Numerals, junk: string, r: Numeral)
    requires IsNumeral(n)
  {
    if IsInteger(n) then junk == "" && r == Integer(n.sign == "-", NumeralValue(n.whole))
    else exists m, offset :: Kept(n, m, offset) && Follows(n, offset, junk) && r == Scaled(n, m, offset)
  }

  // ----- digits -----

  lemma OneMore(s: string, c: char)
    requires AllDigits(s) && IsDigit(c)
    ensures AllDigits(s + [c]) && NumeralValue(s + [c]) == 10 * NumeralValue(s) + DigitValue(c)
  {
    assert (s + [c])[..|s|] == s;
  }

  lemma PrefixStep(s: string, i: nat)
    requires AllDigits(s) && i < |s|
    ensures AllDigits(s[..i]) && NumeralValue(s[..i + 1]) == 10 * NumeralValue(s[..i]) + DigitValue(s[i])
  {
    assert s[..i + 1] == s[..i] + [s[i]];
    OneMore(s[..i], s[i]);
  }

  lemma {:induction false} PowersAdd(a: nat, b: nat)
    ensures Pow10(a + b) == Pow10(a) * Pow10(b)
    decreases a
  {
    if a > 0 {
      PowersAdd(a - 1, b);
      Regroup(Pow10(a - 1), Pow10(b));
    }
  }

  lemma Regroup(x: nat, y: nat)
    ensures 10 * (x * y) == (10 * x) * y
  {
  }

  /** Digits behind a prefix count less than one of its units. */
  lemma {:induction false} PrefixValue(s: string, i: nat)
    requires AllDigits(s) && i <= |s|
    ensures AllDigits(s[..i])
    ensures var v := NumeralValue(s[..i]) * Pow10(|s| - i); v <= NumeralValue(s) < v + Pow10(|s| - i)
    decreases |s| - i
  {
    if i == |s| {
      assert s[..i] == s;
    } else {
      PrefixStep(s, i);
      PrefixValue(s, i + 1);
      Shift(NumeralValue(s[..i]), DigitValue(s[i]), Pow10(|s| - i - 1));
    }
  }

  lemma Shift(v: nat, d: nat, p: nat)
    requires d < 10
    ensures (10 * v + d) * p == v * (10 * p) + d * p && d * p + p <= 10 * p && 0 <= d * p
  {
    assert (10 * v + d) * p == 10 * v * p + d * p;
    assert 10 * v * p == v * (10 * p);
    assert (d + 1) * p <= 10 * p;
  }

  lemma {:induction false} PrefixGrows(s: string, i: nat, j: nat)
    requires AllDigits(s) && i < j <= |s|
    ensures AllDigits(s[..i]) && AllDigits(s[..j])
    ensures NumeralValue(s[..i]) > 0 ==> NumeralValue(s[..j]) >= 10 * NumeralValue(s[..i])
    ensures NumeralValue(s[..j]) >= NumeralValue(s[..i])
    decreases j
  {
    PrefixStep(s, j - 1);
    if i < j - 1 {
      PrefixGrows(s, i, j - 1);
    }
  }

  /** The place where the parser slips is the only one. */
  lemma SlipsOnce(whole: string, i: nat, j: nat)
    requires AllDigits(whole) && i < |whole| && j < |whole| && SlipsAt(whole, i) && SlipsAt(whole, j)
    ensures i == j
  {
    if i < j {
      PrefixGrows(whole, i, j);
    } else if j < i {
      PrefixGrows(whole, j, i);
    }
  }

  lemma SlipRead(whole: string, i: nat)
    requires AllDigits(whole) && i < |whole| && SlipsAt(whole, i)
    ensures WholeRead(whole) == 10 * TENTH * Pow10(|whole| - i)
  {
    var j :| 0 <= j < |whole| && SlipsAt(whole, j) && WholeRead(whole) == 10 * TENTH * Pow10(|whole| - j);
    SlipsOnce(whole, i, j);
  }

  // ----- reading digits -----

  /** These digits, and no more, are at i. */
  predicate DigitsAt(t: string, i: nat, digits: string) {
    AllDigits(digits) && i + |digits| <= |t| && t[i..i + |digits|] == digits && !IsDigit(At(t, i + |digits|))
  }

  lemma DigitAt(t: string, i: nat, digits: string, k: nat)
    requires DigitsAt(t, i, digits) && k <= |digits|
    ensures if k < |digits| then i + k < |t| && t[i + k] == digits[k] && IsDigit(At(t, i + k)) else !IsDigit(At(t, i + k))
  {
    assert k < |digits| ==> t[i..i + |digits|][k] == t[i + k];
  }

  /** How the loop over the whole part ends: at its end, with its number; before a digit that does not
      fit any more; or by a slip. */
  predicate Stopped(whole: string, e: nat, m: nat)
    requires AllDigits(whole)
  {
    && e <= |whole|
    && if e == |whole| then m == NumeralValue(whole) <= UINT_MAX && !Slips(whole)
       else if SlipsAt(whole, e) then m == 10 * TENTH
       else m == NumeralValue(whole[..e]) && TENTH < m <= UINT_MAX && !Slips(whole)
  }

  /** No slip among the first digits: all of them fit. */
  predicate Fine(whole: string, k: nat)
    requires AllDigits(whole) && k <= |whole|
  {
    NumeralValue(whole[..k]) <= UINT_MAX && forall i :: 0 <= i < k ==> !SlipsAt(whole, i)
  }

  lemma {:induction false} MantissaReads(t: string, i: nat, whole: string, k: nat)
    requires DigitsAt(t, i, whole) && k <= |whole| && Fine(whole, k)
    ensures var (m, j) := Mantissa(t, i + k, NumeralValue(whole[..k])); i + k <= j && Stopped(whole, j - i, m)
    decreases |whole| - k
  {
    hide IsDigit, DigitValue, At;
    DigitAt(t, i, whole, k);
    var v := NumeralValue(whole[..k]);
    if k == |whole| {
      assert whole[..k] == whole;
    } else {
      PrefixStep(whole, k);
      if v <= TENTH && 10 * v <= UINT_MAX - DigitValue(whole[k]) {
        MantissaReads(t, i, whole, k + 1);
      } else if v <= TENTH {
        assert SlipsAt(whole, k);
      } else {
        forall n | k <= n < |whole|
          ensures !SlipsAt(whole, n)
        {
          if n > k {
            PrefixGrows(whole, k, n);
          }
        }
      }
    }
  }

  // ----- powers of ten -----

  lemma DivTwice(x: nat, a: nat, b: nat)
    requires a > 0 && b > 0
    ensures a * b > 0 && x / (a * b) == x / a / b
  {
    var q, r := x / a, x % a;
    var p, s := q / b, q % b;
    Nested(a, b, p, r, s);
    assert x == a * q + r && q == b * p + s;
    DivUnique(x, a * b, p, a * s + r);
  }

  lemma Nested(a: nat, b: nat, p: nat, r: nat, s: nat)
    requires r < a && s < b
    ensures a * b > 0 && a * (b * p + s) + r == (a * b) * p + (a * s + r) && 0 <= a * s + r < a * b
  {
    assert a * (b * p + s) == a * (b * p) + a * s && a * (b * p) == (a * b) * p;
    assert a * b == a * (b - 1) + a;
    Ordered(a, s, b - 1);
  }

  lemma Ordered(a: nat, s: nat, b: nat)
    requires s <= b
    ensures a * s <= a * b
  {
    assert a * b == a * s + a * (b - s);
  }

  lemma DivUnique(x: nat, y: nat, q: nat, r: nat)
    requires y > 0 && x == y * q + r && r < y
    ensures x / y == q
  {
    assert y * (x / y) + x % y == x;
    assert y * (x / y - q) == y * (x / y) - y * q;
    MultipleApart(y, x / y - q);
  }

  /** Dropping digits in two goes. */
  lemma DivPowers(x: nat, a: nat, b: nat)
    ensures x / Pow10(a + b) == x / Pow10(a) / Pow10(b)
  {
    PowersAdd(a, b);
    DivTwice(x, Pow10(a), Pow10(b));
  }

  lemma {:induction false} ScaleReads(m: nat, offset: int) returns (k: nat)
    ensures Scale(m, offset) == (m / Pow10(k), offset + k)
    ensures m / Pow10(k) <= MANTISSA_MAX && (k > 0 ==> m / Pow10(k - 1) > MANTISSA_MAX)
  {
    if m <= MANTISSA_MAX {
      k := 0;
    } else {
      var j := ScaleReads(m / 10, offset + 1);
      k := j + 1;
      DivPowers(m, 1, j);
      assert Pow10(1) == 10;
      if j > 0 {
        DivPowers(m, 1, j - 1);
      }
    }
  }

  // ----- reading a numeral -----

  lemma QuotientOf(w: nat, m: nat, p: nat)
    requires p > 0 && m * p <= w < m * p + p
    ensures w / p == m
  {
    DivUnique(w, p, m, w - m * p);
  }

  /** What the loop has read, without the digits it has not, is the whole part as it is read. */
  lemma StoppedRead(whole: string, e: nat, m: nat)
    requires AllDigits(whole) && Stopped(whole, e, m)
    ensures WholeRead(whole) / Pow10(|whole| - e) == m
    ensures e < |whole| ==> m > MANTISSA_MAX
  {
    var r := |whole| - e;
    if e < |whole| {
      if SlipsAt(whole, e) {
        SlipRead(whole, e);
      } else {
        PrefixValue(whole, e);
      }
      QuotientOf(WholeRead(whole), m, Pow10(r));
    }
  }

  lemma WholeKept(whole: string, e: nat, m: nat) returns (k: nat)
    requires AllDigits(whole) && Stopped(whole, e, m)
    ensures Scale(m, 0) == (m / Pow10(k), k)
    ensures var w, offset := WholeRead(whole), k + (|whole| - e);
            && m / Pow10(k) == w / Pow10(offset) && m / Pow10(k) <= MANTISSA_MAX
            && (offset > 0 ==> w / Pow10(offset - 1) > MANTISSA_MAX)
  {
    k := ScaleReads(m, 0);
    StoppedRead(whole, e, m);
    DivPowers(WholeRead(whole), |whole| - e, k);
    if k > 0 {
      DivPowers(WholeRead(whole), |whole| - e, k - 1);
    }
  }

  /** What is left of the whole part. */
  lemma {:induction false} RestSkipped(t: string, i: nat, whole: string, e: nat)
    requires DigitsAt(t, i, whole) && e <= |whole|
    ensures SkipDigits(t, i + e) == i + |whole|
    decreases |whole| - e
  {
    DigitAt(t, i, whole, e);
    if e < |whole| {
      RestSkipped(t, i, whole, e + 1);
    }
  }

  /** With 15 digits the fraction is only skipped. */
  lemma {:induction false} FractionSkipped(t: string, i: nat, fraction: string, k: nat, m: nat, offset: int)
    requires DigitsAt(t, i, fraction) && k <= |fraction| && m >= MANTISSA_MAX / 10
    ensures Fraction(t, i + k, m, offset) == (m, offset, i + |fraction|)
    decreases |fraction| - k
  {
    DigitAt(t, i, fraction, k);
    if k < |fraction| {
      FractionSkipped(t, i, fraction, k + 1, m, offset);
    }
  }

  lemma {:induction false} FractionReads(t: string, i: nat, n: Numerals, k: nat)
    requires IsNumeral(n) && DigitsAt(t, i, n.fraction) && k <= |n.fraction|
    ensures var (m, offset, j) := Fraction(t, i + k, NumeralValue(n.whole + n.fraction[..k]), 0 - k);
            && j == i + |n.fraction| && -|n.fraction| <= offset <= 0 - k
            && var q: nat := 0 - offset;
            && m == NumeralValue(n.whole + n.fraction[..q]) && (q == |n.fraction| || m >= MANTISSA_MAX / 10)
            && (q > k ==> NumeralValue(n.whole + n.fraction[..q - 1]) < MANTISSA_MAX / 10)
    decreases |n.fraction| - k
  {
    hide NumeralValue;
    var m := NumeralValue(n.whole + n.fraction[..k]);
    DigitAt(t, i, n.fraction, k);
    if k < |n.fraction| {
      if m < MANTISSA_MAX / 10 {
        OneMore(n.whole + n.fraction[..k], n.fraction[k]);
        assert n.whole + n.fraction[..k] + [n.fraction[k]] == n.whole + n.fraction[..k + 1];
        FractionReads(t, i, n, k + 1);
      } else {
        FractionSkipped(t, i, n.fraction, k, m, 0 - k);
      }
    }
  }

  lemma {:induction false} ExponentReads(t: string, i: nat, digits: string, k: nat, offset: int)
    requires DigitsAt(t, i, digits) && k <= |digits| && (k > 0 ==> NumeralValue(digits[..k]) + offset <= EXPONENT_MAX)
    ensures var (e, j) := Exponent(t, i + k, NumeralValue(digits[..k]), offset);
            if digits != "" && NumeralValue(digits) + offset > EXPONENT_MAX then e == None
            else e == Some(NumeralValue(digits)) && j == i + |digits|
    decreases |digits| - k
  {
    DigitAt(t, i, digits, k);
    if k == |digits| {
      assert digits[..k] == digits;
    } else {
      PrefixStep(digits, k);
      if NumeralValue(digits[..k + 1]) + offset <= EXPONENT_MAX {
        ExponentReads(t, i, digits, k + 1, offset);
      } else {
        assert digits[..|digits|] == digits;
        if k + 1 < |digits| {
          PrefixGrows(digits, k + 1, |digits|);
        }
      }
    }
  }

  lemma DigitsIn(a: string, digits: string, rest: string)
    requires AllDigits(digits) && (rest == "" || !IsDigit(rest[0]))
    ensures DigitsAt(a + digits + rest, |a|, digits)
  {
    var t := a + digits + rest;
    assert t[|a|..|a| + |digits|] == digits;
    assert rest != "" ==> t[|a| + |digits|] == rest[0];
  }

  /** What follows the digits of the fraction. */
  function ExponentText(n: Numerals): string { n.mark + (n.expSign + n.exponent) }

  /** What follows the digits of the whole part. */
  function FractionText(n: Numerals): string {
    (if n.point then "." + n.fraction else "") + ExponentText(n)
  }

  /** Whole parts that do not fit leave no place for the fraction. */
  lemma WholeOnly(n: Numerals, m: nat, offset: nat)
    requires IsNumeral(n) && offset > 0
    requires var w := WholeRead(n.whole); m == w / Pow10(offset) && m <= MANTISSA_MAX && w / Pow10(offset - 1) > MANTISSA_MAX
    ensures Kept(n, m, offset) && m >= MANTISSA_MAX / 10
  {
    DivPowers(WholeRead(n.whole), offset - 1, 1);
    assert Pow10(1) == 10;
  }

  lemma WithFraction(t: string, i: nat, n: Numerals) returns (m: nat, offset: int)
    requires IsNumeral(n) && !Slips(n.whole) && NumeralValue(n.whole) <= MANTISSA_MAX && n.point && DigitsAt(t, i, n.fraction)
    ensures Kept(n, m, offset) && Fraction(t, i, NumeralValue(n.whole), 0) == (m, offset, i + |n.fraction|)
  {
    hide NumeralValue, Slips;
    assert n.whole + n.fraction[..0] == n.whole && Pow10(0) == 1;
    FractionReads(t, i, n, 0);
    var r := Fraction(t, i, NumeralValue(n.whole), 0);
    m, offset := r.0, r.1;
  }

  lemma FractionKept(t: string, p: nat, n: Numerals, e: nat, m: nat, negative: bool) returns (m': nat, offset: int)
    requires IsNumeral(n) && Stopped(n.whole, e, m) && p <= |t| && DigitsAt(t, p, n.whole)
    requires var q := p + |n.whole|; (At(t, q) == '.') == n.point && (n.point ==> DigitsAt(t, q + 1, n.fraction))
    ensures Kept(n, m', offset)
    ensures var q := p + |n.whole| + if n.point then 1 + |n.fraction| else 0;
            q <= |t| && FloatTail(t, p + e, negative, m) == ExponentTail(t, q, negative, m', offset)
  {
    hide Kept, NumeralValue, Pow10, Slips, WholeRead, Fraction, Scale, SkipDigits, Exponent, ExponentTail;
    var k := WholeKept(n.whole, e, m);
    RestSkipped(t, p, n.whole, e);
    m', offset := m / Pow10(k), k + (|n.whole| - e);
    if offset > 0 {
      WholeOnly(n, m', offset);
      if n.point {
        FractionSkipped(t, p + |n.whole| + 1, n.fraction, 0, m', offset);
      }
    } else {
      NothingDropped(n, e, m, m');
      if n.point {
        m', offset := WithFraction(t, p + |n.whole| + 1, n);
      }
    }
  }

  lemma NothingDropped(n: Numerals, e: nat, m: nat, m': nat)
    requires IsNumeral(n) && Stopped(n.whole, e, m) && e == |n.whole| && m' == m / Pow10(0) && m' <= MANTISSA_MAX
    ensures m' == NumeralValue(n.whole) && !Slips(n.whole) && (!n.point ==> Kept(n, m', 0))
  {
  }

  lemma SignRead(a: string, sign: string, digits: string, junk: string)
    requires IsSign(sign) && AllDigits(digits) && (digits == "" ==> junk == "")
    ensures var c := At(a + (sign + digits) + junk, |a|); (c == '-' <==> sign == "-") && (c == '+' <==> sign == "+")
  {
    var t := a + (sign + digits) + junk;
    if sign != "" {
      assert t[|a|] == sign[0];
    } else if digits != "" {
      assert t[|a|] == digits[0];
    } else {
      assert t == a;
    }
  }

  lemma MarkedTail(t: string, p: nat, n: Numerals, m: nat, offset: int)
    requires IsNumeral(n) && p < |t| && (t[p] == 'e' || t[p] == 'E')
    requires (At(t, p + 1) == '-' <==> n.expSign == "-") && (At(t, p + 1) == '+' <==> n.expSign == "+")
    requires var q := p + 1 + |n.expSign|; DigitsAt(t, q, n.exponent) && (OutOfRange(n, offset) || q + |n.exponent| == |t|)
    ensures ExponentTail(t, p, n.sign == "-", m, offset) == Scaled(n, m, offset)
  {
    hide NumeralValue, Exponent;
    NoDigits();
    assert n.exponent[..0] == "";
    ExponentReads(t, p + 1 + |n.expSign|, n.exponent, 0, offset);
  }

  lemma ExponentRead(a: string, n: Numerals, junk: string, m: nat, offset: int)
    requires IsNumeral(n) && Follows(n, offset, junk)
    ensures ExponentTail(a + ExponentText(n) + junk, |a|, n.sign == "-", m, offset) == Scaled(n, m, offset)
  {
    hide NumeralValue, Exponent, ExponentTail, Scaled, AllDigits, DigitsAt, IsSign, At;
    var t := a + ExponentText(n) + junk;
    if n.mark == "" {
      assert t == a;
      NoExponent(a, n, m, offset);
    } else {
      MarkedSplit(a, n.mark, n.expSign, n.exponent, junk);
      SignRead(a + n.mark, n.expSign, n.exponent, junk);
      MarkRead(a, n.mark, (n.expSign + n.exponent) + junk);
      DigitsIn(a + n.mark + n.expSign, n.exponent, junk);
      MarkedTail(t, |a|, n, m, offset);
    }
  }

  lemma MarkedSplit(a: string, mark: string, sign: string, exponent: string, junk: string)
    ensures var t := a + (mark + (sign + exponent)) + junk;
            t == a + mark + (sign + exponent) + junk == a + mark + ((sign + exponent) + junk) == a + mark + sign + exponent + junk
  {
  }

  lemma NoExponent(a: string, n: Numerals, m: nat, offset: int)
    requires IsNumeral(n) && n.mark == ""
    ensures ExponentTail(a, |a|, n.sign == "-", m, offset) == Scaled(n, m, offset)
  {
  }

  lemma NoDigits()
    ensures AllDigits("") && NumeralValue("") == 0
  {
  }

  lemma MarkRead(a: string, mark: string, rest: string)
    requires mark == "e" || mark == "E"
    ensures At(a + mark + rest, |a|) == mark[0]
  {
  }

  // ----- the kept digits are determined -----

  lemma SmallPowers()
    ensures Pow10(0) == 1 && Pow10(1) == 10
  {
  }

  lemma {:induction false} QuotientsFall(w: nat, a: nat, b: nat)
    requires a <= b
    ensures w / Pow10(b) <= w / Pow10(a)
    decreases b
  {
    hide Pow10;
    if a < b {
      QuotientsFall(w, a, b - 1);
      DivPowers(w, b - 1, 1);
      SmallPowers();
      var q := w / Pow10(b - 1);
      assert q / 10 <= q;
    }
  }

  lemma FractionGrows(n: Numerals, j: nat, k: nat)
    requires IsNumeral(n) && j <= k <= |n.fraction|
    ensures NumeralValue(n.whole + n.fraction[..j]) <= NumeralValue(n.whole + n.fraction[..k])
  {
    var all := n.whole + n.fraction;
    assert all[..|n.whole| + j] == n.whole + n.fraction[..j] && all[..|n.whole| + k] == n.whole + n.fraction[..k];
    if j < k {
      PrefixGrows(all, |n.whole| + j, |n.whole| + k);
    }
  }

  lemma SlipIsLarge(whole: string)
    requires AllDigits(whole) && Slips(whole)
    ensures WholeRead(whole) > MANTISSA_MAX && NumeralValue(whole) > UINT_MAX
  {
    var i :| 0 <= i < |whole| && SlipsAt(whole, i);
    SlipRead(whole, i);
    PrefixStep(whole, i);
    PrefixGrows(whole, i, |whole|);
    if i + 1 < |whole| {
      PrefixGrows(whole, i + 1, |whole|);
    }
    assert whole[..|whole|] == whole;
    assert Pow10(|whole| - i) >= 1;
    Ordered(10 * TENTH, 1, Pow10(|whole| - i));
  }

  lemma KeptOnce(n: Numerals, m: nat, offset: int, m': nat, offset': int)
    requires IsNumeral(n) && Kept(n, m, offset) && Kept(n, m', offset')
    ensures m' == m && offset' == offset
  {
    hide NumeralValue, Slips, WholeRead, Pow10;
    KeptApart(n, m, offset, m', offset');
    KeptApart(n, m', offset', m, offset);
  }

  lemma KeptApart(n: Numerals, m: nat, offset: int, m': nat, offset': int)
    requires IsNumeral(n) && Kept(n, m, offset) && Kept(n, m', offset')
    ensures offset' <= offset
  {
    hide NumeralValue, Slips, WholeRead, Pow10;
    var w := WholeRead(n.whole);
    SmallPowers();
    if 0 <= offset < offset' {
      QuotientsFall(w, offset, offset' - 1);
    } else if offset < 0 < offset' {
      assert w / Pow10(0) == w;
      QuotientsFall(w, 0, offset' - 1);
    } else if offset < offset' {
      if offset' == 0 {
        NotSlipped(n.whole);
        assert n.whole + n.fraction[..0] == n.whole;
      }
      FractionGrows(n, 0 - offset', 0 - offset - 1);
    }
  }

  lemma NotSlipped(whole: string)
    requires AllDigits(whole) && WholeRead(whole) <= MANTISSA_MAX
    ensures WholeRead(whole) == NumeralValue(whole)
  {
    if Slips(whole) {
      SlipIsLarge(whole);
    }
  }

  // ----- the parser decides which texts are numerals -----

  predicate MayFollow(n: Numerals, junk: string) {
    junk == "" || (n.exponent != "" && !IsDigit(junk[0]))
  }

  /** What starts behind the whole part. */
  lemma RestStarts(n: Numerals, junk: string)
    requires IsNumeral(n) && MayFollow(n, junk)
    ensures var rest := FractionText(n) + junk;
            && (rest == "" <==> !n.point && n.mark == "")
            && (rest != "" ==> rest[0] == if n.point then '.' else n.mark[0])
  {
  }

  lemma RestAt(a: string, digits: string, rest: string)
    ensures At(a + digits + rest, |a| + |digits|) == if rest == "" then '\0' else rest[0]
  {
    assert rest != "" ==> (a + digits + rest)[|a| + |digits|] == rest[0];
  }

  lemma WholeStarts(n: Numerals, junk: string)
    requires IsNumeral(n) && MayFollow(n, junk)
    ensures var t, p := Spelling(n) + junk, |n.sign|;
            && DigitsAt(t, p, n.whole)
            && (At(t, p + |n.whole|) == '.' <==> n.point)
            && (At(t, p + |n.whole|) == '\0' <==> !n.point && n.mark == "")
  {
    hide Spelling, FractionText, DigitsAt, AllDigits, MayFollow;
    var rest := FractionText(n) + junk;
    RestStarts(n, junk);
    RestSplit(n, junk);
    DigitsIn(n.sign, n.whole, rest);
    RestAt(n.sign, n.whole, rest);
  }

  lemma RestSplit(n: Numerals, junk: string)
    ensures Spelling(n) + junk == n.sign + n.whole + (FractionText(n) + junk)
  {
    assert Spelling(n) == n.sign + (n.whole + FractionText(n));
    Fourfold(n.sign, n.whole, FractionText(n), junk);
  }

  lemma Fourfold(a: string, b: string, c: string, d: string)
    ensures (a + (b + c)) + d == a + b + (c + d)
  {
  }

  lemma FractionStarts(n: Numerals, junk: string)
    requires IsNumeral(n) && MayFollow(n, junk) && n.point
    ensures DigitsAt(Spelling(n) + junk, |n.sign| + |n.whole| + 1, n.fraction)
  {
    hide Spelling, ExponentText, DigitsAt, AllDigits;
    var a, more := n.sign + n.whole + ".", ExponentText(n) + junk;
    SpellingSplit(n, junk);
    PointSplit(n.sign + n.whole, n.fraction, ExponentText(n), junk);
    MoreStarts(n, junk);
    DigitsIn(a, n.fraction, more);
  }

  lemma PointSplit(a: string, fraction: string, exponent: string, junk: string)
    ensures (a + ("." + fraction)) + exponent + junk == (a + ".") + fraction + (exponent + junk)
  {
  }

  lemma MoreStarts(n: Numerals, junk: string)
    requires IsNumeral(n) && MayFollow(n, junk)
    ensures var more := ExponentText(n) + junk; more != "" ==> !IsDigit(more[0])
  {
    hide AllDigits;
    var more := ExponentText(n) + junk;
    assert more != "" ==> more[0] == n.mark[0];
  }

  lemma SignStarts(n: Numerals, junk: string)
    requires IsNumeral(n) && MayFollow(n, junk)
    ensures var t, p := Spelling(n) + junk, |n.sign|;
            && (At(t, 0) == '-' <==> n.sign == "-") && (At(t, 0) == '+' <==> n.sign == "+")
            && (IsDigit(At(t, p)) || At(t, p) == '.')
  {
    var t := Spelling(n) + junk;
    WholeStarts(n, junk);
    DigitAt(t, |n.sign|, n.whole, 0);
    if n.sign != "" {
      assert t[0] == n.sign[0];
    }
  }

  /** The sign and the whole part are read, and then the rest, if there is one. */
  lemma WholeIsRead(t: string, p: nat, whole: string) returns (e: nat, m: nat)
    requires DigitsAt(t, p, whole) && (IsDigit(At(t, p)) || At(t, p) == '.')
    requires p == if At(t, 0) == '-' || At(t, 0) == '+' then 1 else 0
    ensures Stopped(whole, e, m) && p + e <= |t|
    ensures ParseNumber(t) == if At(t, p + e) == '\0' then Integer(At(t, 0) == '-', m) else FloatTail(t, p + e, At(t, 0) == '-', m)
  {
    hide FloatTail, Mantissa, Slips;
    assert whole[..0] == "";
    MantissaReads(t, p, whole, 0);
    e, m := Mantissa(t, p, 0).1 - p, Mantissa(t, p, 0).0;
  }

  lemma SpellingSplit(n: Numerals, junk: string)
    ensures Spelling(n) + junk == (n.sign + n.whole + if n.point then "." + n.fraction else "") + ExponentText(n) + junk
  {
    var a := if n.point then "." + n.fraction else "";
    assert n.sign + (n.whole + (a + ExponentText(n))) == (n.sign + n.whole + a) + ExponentText(n);
  }

  /** How the parser reads a numeral. */
  lemma NumeralRead(n: Numerals, junk: string) returns (m: nat, offset: int)
    requires IsNumeral(n) && MayFollow(n, junk)
    ensures if IsInteger(n) then ParseNumber(Spelling(n) + junk) == Integer(n.sign == "-", NumeralValue(n.whole))
            else Kept(n, m, offset) && (Follows(n, offset, junk) ==> ParseNumber(Spelling(n) + junk) == Scaled(n, m, offset))
  {
    hide NumeralValue, Kept, FloatTail, ExponentTail, Scaled, ParseNumber, Stopped, OutOfRange;
    var t, p := Spelling(n) + junk, |n.sign|;
    SignStarts(n, junk);
    WholeStarts(n, junk);
    var e, first := WholeIsRead(t, p, n.whole);
    WholeEnds(t, p, n.whole, e, first);
    m, offset := 0, 0;
    if !IsInteger(n) {
      if n.point {
        FractionStarts(n, junk);
      }
      m, offset := FractionKept(t, p, n, e, first, At(t, 0) == '-');
      var a := n.sign + n.whole + if n.point then "." + n.fraction else "";
      SpellingSplit(n, junk);
      if Follows(n, offset, junk) {
        ExponentRead(a, n, junk, m, offset);
      }
    }
  }

  lemma WholeEnds(t: string, p: nat, whole: string, e: nat, m: nat)
    requires DigitsAt(t, p, whole) && Stopped(whole, e, m)
    ensures e <= |whole| && (e < |whole| ==> At(t, p + e) != '\0')
    ensures e == |whole| <==> NumeralValue(whole) <= UINT_MAX
    ensures e == |whole| ==> m == NumeralValue(whole)
  {
    DigitAt(t, p, whole, e);
    StoppedLarge(whole, e, m);
  }

  lemma StoppedLarge(whole: string, e: nat, m: nat)
    requires AllDigits(whole) && Stopped(whole, e, m)
    ensures e == |whole| <==> NumeralValue(whole) <= UINT_MAX
  {
    if e < |whole| {
      if SlipsAt(whole, e) {
        SlipIsLarge(whole);
      } else {
        PrefixGrows(whole, e, |whole|);
        assert whole[..|whole|] == whole;
      }
    }
  }

  /** Every numeral is read as the number it stands for. */
  lemma NumeralIsRead(n: Numerals, junk: string, r: Numeral)
    requires IsNumeral(n) && StandsFor(n, junk, r)
    ensures ParseNumber(Spelling(n) + junk) == r
  {
    hide Kept, Scaled, ParseNumber, Spelling;
    var m', offset' := NumeralRead(n, junk);
    if !IsInteger(n) {
      var m, offset :| Kept(n, m, offset) && Follows(n, offset, junk) && r == Scaled(n, m, offset);
      KeptOnce(n, m, offset, m', offset');
    }
  }

  lemma ParsesInteger(n: nat, negative: bool)
    requires n <= UINT_MAX
    ensures ParseNumber((if negative then "-" else "") + Digits(n)) == Integer(negative, n)
  {
    hide ParseNumber;
    var m := Numerals(if negative then "-" else "", Digits(n), false, "", "", "", "");
    DigitsDenote(n);
    assert Spelling(m) + "" == m.sign + Digits(n);
    NumeralIsRead(m, "", Integer(negative, n));
  }

  // ----- what is read is a numeral -----

  /** The end of a run of digits. */
  function RunEnd(t: string, i: nat): (j: nat)
    requires i <= |t|
    ensures i <= j <= |t| && AllDigits(t[i..j]) && !IsDigit(At(t, j))
    decreases |t| - i
  {
    if IsDigit(At(t, i)) then
      var j := RunEnd(t, i + 1);
      assert t[i..j] == [t[i]] + t[i + 1..j];
      j
    else
      assert t[i..i] == "";
      i
  }

  /** Where the parts of a numeral end in a text: the sign, the whole part, the fraction, the mark, its
      sign, and the exponent. */
  datatype Cuts = Cuts(a: nat, b: nat, c: nat, d: nat, e: nat, f: nat)

  function SignEnd(t: string): (i: nat)
    ensures i <= |t|
  {
    if At(t, 0) == '-' || At(t, 0) == '+' then 1 else 0
  }

  function CutsOf(t: string): (k: Cuts)
    ensures k.a <= k.b <= k.c <= k.d <= k.e <= k.f <= |t|
  {
    var a := SignEnd(t);
    var b := RunEnd(t, a);
    var c := if At(t, b) == '.' then RunEnd(t, b + 1) else b;
    var marked := At(t, c) == 'e' || At(t, c) == 'E';
    var d := if marked then c + 1 else c;
    var e := if marked && (At(t, d) == '-' || At(t, d) == '+') then d + 1 else d;
    Cuts(a, b, c, d, e, if marked then RunEnd(t, e) else e)
  }

  function PartsOf(t: string): Numerals {
    var k := CutsOf(t);
    var point := At(t, k.b) == '.';
    Numerals(t[..k.a], t[k.a..k.b], point, if point then t[k.b + 1..k.c] else "", t[k.c..k.d], t[k.d..k.e], t[k.e..k.f])
  }

  lemma Pieces(t: string, a: nat, b: nat, c: nat, d: nat, e: nat, f: nat)
    requires a <= b <= c <= d <= e <= f <= |t|
    ensures t == t[..a] + (t[a..b] + (t[b..c] + (t[c..d] + (t[d..e] + t[e..f])))) + t[f..]
  {
    assert t[d..e] + t[e..f] == t[d..f];
    assert t[c..d] + t[d..f] == t[c..f];
    assert t[b..c] + t[c..f] == t[b..f];
    assert t[a..b] + t[b..f] == t[a..f];
    assert t[..a] + t[a..f] == t[..f];
  }

  lemma PartsSpell(t: string)
    ensures t == Spelling(PartsOf(t)) + t[CutsOf(t).f..]
  {
    hide RunEnd, CutsOf;
    var k := CutsOf(t);
    Pieces(t, k.a, k.b, k.c, k.d, k.e, k.f);
    PointSpells(t);
  }

  lemma PointSpells(t: string)
    ensures var k := CutsOf(t); t[k.b..k.c] == if At(t, k.b) == '.' then "." + t[k.b + 1..k.c] else ""
  {
  }

  lemma PartsAreNumeral(t: string)
    requires var p := SignEnd(t); IsDigit(At(t, p)) || At(t, p) == '.'
    ensures IsNumeral(PartsOf(t))
  {
    hide AllDigits, RunEnd, IsDigit, IsSign;
    var k := CutsOf(t);
    RunStarts(t, SignEnd(t));
    NoDigits();
    assert t[0..k.a] == t[..k.a];
    SignPart(t, 0, k.a);
    SignPart(t, k.d, k.e);
    if k.d == k.c {
      assert k.e == k.d && k.f == k.e;
      NothingLeft(t, k.c);
    } else {
      OneLeft(t, k.c);
    }
  }

  lemma OneLeft(t: string, i: nat)
    requires i < |t|
    ensures t[i..i + 1] == [t[i]]
  {
  }

  lemma NothingLeft(t: string, i: nat)
    requires i <= |t|
    ensures t[i..i] == ""
  {
  }

  lemma SignPart(t: string, i: nat, j: nat)
    requires i <= j <= |t| && (i < j ==> j == i + 1 && (t[i] == '-' || t[i] == '+'))
    ensures IsSign(t[i..j])
  {
    if i < j {
      OneLeft(t, i);
    } else {
      NothingLeft(t, i);
    }
  }

  lemma RunStarts(t: string, i: nat)
    requires i <= |t|
    ensures RunEnd(t, i) > i <==> IsDigit(At(t, i))
  {
  }

  lemma PartsStart(t: string)
    ensures var k, n := CutsOf(t), PartsOf(t);
            && DigitsAt(t, k.a, n.whole) && k.b == k.a + |n.whole| && (At(t, k.b) == '.') == n.point
            && (n.point ==> DigitsAt(t, k.b + 1, n.fraction) && k.c == k.b + 1 + |n.fraction|)
            && (!n.point ==> k.c == k.b)
            && (n.mark == "" <==> At(t, k.c) != 'e' && At(t, k.c) != 'E')
            && (n.mark == "" ==> k.f == k.c)
            && (n.mark != "" ==> k.d == k.c + 1 && DigitsAt(t, k.e, n.exponent) && k.e == k.d + |n.expSign| && k.f == k.e + |n.exponent|)
            && (n.mark != "" ==> (At(t, k.d) == '-' <==> n.expSign == "-") && (At(t, k.d) == '+' <==> n.expSign == "+"))
  {
  }

  lemma NotNul(t: string, i: nat)
    requires NulFree(t)
    ensures At(t, i) == '\0' <==> i >= |t|
  {
    assert i < |t| ==> t[i] in t;
  }

  lemma TailFound(t: string, k: Cuts, n: Numerals, m: nat, offset: int)
    requires IsNumeral(n) && NulFree(t) && k.c <= |t| && k.f <= |t| && ExponentTail(t, k.c, n.sign == "-", m, offset) != NotANumber
    requires n.mark == "" <==> At(t, k.c) != 'e' && At(t, k.c) != 'E'
    requires n.mark == "" ==> k.f == k.c
    requires n.mark != "" ==> k.d == k.c + 1 && DigitsAt(t, k.e, n.exponent) && k.e == k.d + |n.expSign| && k.f == k.e + |n.exponent|
    requires n.mark != "" ==> (At(t, k.d) == '-' <==> n.expSign == "-") && (At(t, k.d) == '+' <==> n.expSign == "+")
    ensures Follows(n, offset, t[k.f..]) && ExponentTail(t, k.c, n.sign == "-", m, offset) == Scaled(n, m, offset)
  {
    if n.mark != "" {
      hide NumeralValue, Exponent;
      NoDigits();
      assert n.exponent[..0] == "";
      ExponentReads(t, k.e, n.exponent, 0, offset);
      assert t[k.f..] != "" ==> t[k.f..][0] == t[k.f];
      NotNul(t, k.f);
    } else {
      NotNul(t, k.c);
    }
  }

  lemma FirstChar(t: string)
    ensures var p := SignEnd(t);
            && CutsOf(t).a == p && (PartsOf(t).sign == "-" <==> At(t, 0) == '-') && (ParseNumber(t) != NotANumber ==> IsDigit(At(t, p)) || At(t, p) == '.')
  {
  }

  lemma NotInteger(n: Numerals, e: nat, t: string, k: Cuts, offset: int)
    requires IsNumeral(n) && e <= |n.whole| && (e == |n.whole| <==> NumeralValue(n.whole) <= UINT_MAX)
    requires k.b == k.a + |n.whole| && At(t, k.a + e) != '\0' && (!n.point ==> k.c == k.b) && (n.mark == "" ==> k.f == k.c)
    requires k.f <= |t| && Follows(n, offset, t[k.f..])
    ensures !IsInteger(n)
  {
  }

  /** Whatever is read as a number is a numeral that stands for it. */
  lemma NumeralFound(t: string) returns (n: Numerals, junk: string)
    requires NulFree(t) && ParseNumber(t) != NotANumber
    ensures t == Spelling(n) + junk && IsNumeral(n) && StandsFor(n, junk, ParseNumber(t))
  {
    hide CutsOf, PartsOf, Stopped, ParseNumber, FloatTail, ExponentTail, NumeralValue, Kept, Scaled, Spelling, OutOfRange, DigitsAt, At, NulFree, IsSign, IsDigit;
    var k := CutsOf(t);
    n, junk := PartsOf(t), t[k.f..];
    FirstChar(t);
    PartsSpell(t);
    PartsAreNumeral(t);
    PartsStart(t);
    var e, first := WholeIsRead(t, k.a, n.whole);
    WholeEnds(t, k.a, n.whole, e, first);
    NotNul(t, k.a + e);
    NotNul(t, k.c);
    if At(t, k.a + e) != '\0' {
      var m, offset := FractionKept(t, k.a, n, e, first, At(t, 0) == '-');
      assert ParseNumber(t) == ExponentTail(t, k.c, n.sign == "-", m, offset);
      TailFound(t, k, n, m, offset);
      NotInteger(n, e, t, k, offset);
    }
  }

  /** The parser decides which texts are numerals, and what each stands for. */
  lemma ParserDecides(t: string, r: Numeral)
    requires NulFree(t) && r != NotANumber
    ensures ParseNumber(t) == r <==> exists n, junk :: t == Spelling(n) + junk && IsNumeral(n) && StandsFor(n, junk, r)
  {
    hide StandsFor, Spelling, ParseNumber;
    if ParseNumber(t) == r {
      var n, junk := NumeralFound(t);
    }
    if n, junk :| t == Spelling(n) + junk && IsNumeral(n) && StandsFor(n, junk, r) {
      NumeralIsRead(n, junk, r);
    }
  }

  // ----- numerals that are cut off -----

  /** Every numeral is a number. */
  lemma NumeralIsNumber(n: Numerals)
    requires IsNumeral(n)
    ensures ParseNumber(Spelling(n)) != NotANumber
  {
    hide Kept, ParseNumber, Spelling, OutOfRange;
    var m, offset := NumeralRead(n, "");
    assert Spelling(n) + "" == Spelling(n);
  }

  lemma Split(a: string, b: string, c: string, d: string)
    ensures a + ((b + c) + d) == (a + b) + (c + d)
  {
  }

  lemma CutWhole(n: Numerals, k: nat) returns (cut: Numerals)
    requires IsNumeral(n) && 0 < k <= |n.whole|
    ensures IsNumeral(cut) && |Spelling(cut)| == |n.sign| + k && Spelling(cut) <= Spelling(n)
  {
    cut := Numerals(n.sign, n.whole[..k], false, "", "", "", "");
    assert n.whole == n.whole[..k] + n.whole[k..];
    Split(n.sign, n.whole[..k], n.whole[k..], FractionText(n));
    assert Spelling(cut) == n.sign + n.whole[..k];
  }

  lemma CutFraction(n: Numerals, k: nat) returns (cut: Numerals)
    requires IsNumeral(n) && n.point && k <= |n.fraction|
    ensures IsNumeral(cut) && |Spelling(cut)| == |n.sign| + |n.whole| + 1 + k && Spelling(cut) <= Spelling(n)
  {
    hide AllDigits;
    cut := Numerals(n.sign, n.whole, true, n.fraction[..k], "", "", "");
    SomeDigits(n.fraction, k);
    assert Spelling(cut) == n.sign + (n.whole + ("." + n.fraction[..k]));
    FractionCut(n.sign, n.whole, n.fraction, k, ExponentText(n));
  }

  lemma SomeDigits(s: string, k: nat)
    requires AllDigits(s) && k <= |s|
    ensures AllDigits(s[..k]) && AllDigits("")
  {
  }

  lemma FractionCut(sign: string, whole: string, fraction: string, k: nat, rest: string)
    requires k <= |fraction|
    ensures sign + (whole + ("." + fraction[..k])) <= sign + (whole + ("." + fraction + rest))
  {
    assert "." + fraction == ("." + fraction[..k]) + fraction[k..];
    Split(whole, "." + fraction[..k], fraction[k..], rest);
    assert whole + ("." + fraction[..k]) <= whole + ("." + fraction + rest);
    PrefixBehind(sign, whole + ("." + fraction[..k]), whole + ("." + fraction + rest));
  }

  /** The mark, and perhaps the sign, and some of the digits. */
  lemma CutExponent(n: Numerals, sign: bool, k: nat) returns (cut: Numerals)
    requires IsNumeral(n) && n.mark != "" && k <= |n.exponent| && (k > 0 ==> sign)
    ensures IsNumeral(cut) && Spelling(cut) <= Spelling(n)
    ensures |Spelling(cut)| == |Spelling(n)| - |n.exponent| + k - if sign then 0 else |n.expSign|
  {
    hide Spelling;
    var front := n.sign + n.whole + if n.point then "." + n.fraction else "";
    var expSign := if sign then n.expSign else "";
    cut := Numerals(n.sign, n.whole, n.point, n.fraction, n.mark, expSign, n.exponent[..k]);
    SpellingSplit(n, "");
    SpellingSplit(cut, "");
    ExponentCut(n.mark, n.expSign, n.exponent, sign, k);
    PrefixBehind(front, ExponentText(cut), ExponentText(n));
    assert Spelling(n) + "" == Spelling(n) && Spelling(cut) + "" == Spelling(cut);
    assert front + ExponentText(n) + "" == front + ExponentText(n) && front + ExponentText(cut) + "" == front + ExponentText(cut);
  }

  lemma ExponentCut(mark: string, expSign: string, exponent: string, sign: bool, k: nat)
    requires k <= |exponent| && (k > 0 ==> sign)
    ensures mark + ((if sign then expSign else "") + exponent[..k]) <= mark + (expSign + exponent)
  {
    assert exponent == exponent[..k] + exponent[k..];
  }

  lemma PrefixBehind(a: string, b: string, c: string)
    requires b <= c
    ensures a + b <= a + c
  {
    assert c == b + c[|b|..];
    assert a + c == (a + b) + c[|b|..];
  }

  /** What is left of a numeral behind its sign is a numeral. */
  lemma NumeralCut(n: Numerals, k: nat) returns (cut: Numerals)
    requires IsNumeral(n) && |n.sign| < k <= |Spelling(n)|
    ensures IsNumeral(cut) && Spelling(cut) == Spelling(n)[..k]
  {
    hide AllDigits;
    var a := |n.sign| + |n.whole|;
    var b := a + if n.point then 1 + |n.fraction| else 0;
    if k <= a {
      cut := CutWhole(n, k - |n.sign|);
    } else if k <= b {
      cut := CutFraction(n, k - a - 1);
    } else if k <= b + 1 {
      cut := CutExponent(n, false, 0);
    } else if k <= b + 1 + |n.expSign| {
      cut := CutExponent(n, true, 0);
    } else {
      cut := CutExponent(n, true, k - b - 1 - |n.expSign|);
    }
  }

  /** Of a number only a sign alone is left as no number. */
  lemma NumberCut(t: string, k: nat)
    requires NulFree(t) && ParseNumber(t) != NotANumber && 0 < k <= |t|
    ensures ParseNumber(t[..k]) == NotANumber <==> t[..k] == "-" || t[..k] == "+"
  {
    hide ParseNumber, Spelling, Kept, OutOfRange, Scaled;
    var n, junk := NumeralFound(t);
    var spelled := Spelling(n);
    if k > |spelled| {
      var rest := junk[..k - |spelled|];
      assert t[..k] == spelled + rest;
      assert StandsFor(n, rest, ParseNumber(t));
      NumeralIsRead(n, rest, ParseNumber(t));
      SignAlone(t[..k]);
    } else if k > |n.sign| {
      var cut := NumeralCut(n, k);
      assert t[..k] == spelled[..k];
      NumeralIsNumber(cut);
      SignAlone(t[..k]);
    } else {
      SignFirst(n);
      assert t[..k] == n.sign;
      SignAlone(t[..k]);
    }
  }

  lemma SignFirst(n: Numerals)
    ensures n.sign <= Spelling(n)
  {
  }

  lemma SignAlone(t: string)
    ensures t == "-" || t == "+" ==> ParseNumber(t) == NotANumber
  {
  }

  // ----- how far the number that is read is from the one that is written -----

  /** The digits, as one number, lie in the unit of the last digit that was kept. */
  predicate Near(n: Numerals, m: nat, offset: int)
    requires IsNumeral(n) && offset + |n.fraction| >= 0
  {
    var digits, unit := NumeralValue(n.whole + n.fraction), Pow10(offset + |n.fraction|);
    m * unit <= digits < m * unit + unit
  }

  lemma QuotientNear(w: nat, p: nat)
    requires p > 0
    ensures w / p * p <= w < w / p * p + p
  {
    assert p * (w / p) + w % p == w;
    assert w / p * p == p * (w / p);
  }

  lemma Widen(x: nat, y: nat, z: nat, p: nat, q: nat)
    requires x * p <= y < x * p + p && y * q <= z < y * q + q
    ensures x * (p * q) <= z < x * (p * q) + p * q
  {
    assert x * (p * q) == x * p * q;
    Ordered(q, x * p, y);
    Ordered(q, y + 1, x * p + p);
    assert q * (x * p) == x * p * q && q * y == y * q && q * (y + 1) == y * q + q && q * (x * p + p) == x * p * q + p * q;
  }

  lemma TooLarge(m: nat, p: nat, q: nat, x: nat, z: nat)
    requires p > 0 && q > 0 && m >= 1 && m == 10 * TENTH * x / p && z < (TENTH * x + x) * q
    ensures m * (p * q) > z
  {
    var w := 10 * TENTH * x;
    QuotientNear(w, p);
    Ordered(p, 1, m);
    assert p * m == m * p && m * p > 5 * TENTH * x;
    assert m * p >= TENTH * x + x;
    Ordered(q, TENTH * x + x, m * p);
    assert q * (TENTH * x + x) == (TENTH * x + x) * q && q * (m * p) == m * (p * q);
  }

  lemma AllNear(n: Numerals)
    requires IsNumeral(n)
    ensures AllDigits(n.whole + n.fraction)
    ensures var v, w, q := NumeralValue(n.whole + n.fraction), NumeralValue(n.whole), Pow10(|n.fraction|); w * q <= v < w * q + q
  {
    var all := n.whole + n.fraction;
    PrefixValue(all, |n.whole|);
    assert all[..|n.whole|] == n.whole;
  }

  /** The number that is read is the one that is written, cut off behind the last digit that is kept,
      exactly when the whole part does not begin with a number from 2^64 to 2^64 + 3. */
  lemma NearUnlessSlips(n: Numerals, m: nat, offset: int)
    requires IsNumeral(n) && Kept(n, m, offset)
    ensures offset + |n.fraction| >= 0 && (Near(n, m, offset) <==> !Slips(n.whole))
  {
    AllNear(n);
    if offset < 0 {
      PrefixNear(n, m, offset);
    } else if Slips(n.whole) {
      var i :| 0 <= i < |n.whole| && SlipsAt(n.whole, i);
      SlipFar(n, i, m, offset);
    } else {
      WholeNear(n, m, offset);
    }
  }

  lemma WholeNear(n: Numerals, m: nat, offset: nat)
    requires IsNumeral(n) && Kept(n, m, offset) && !Slips(n.whole)
    ensures Near(n, m, offset)
  {
    hide NumeralValue, Pow10, Slips, AllDigits;
    var w, f := NumeralValue(n.whole), |n.fraction|;
    AllNear(n);
    PowersAdd(offset, f);
    QuotientNear(w, Pow10(offset));
    Widen(m, w, NumeralValue(n.whole + n.fraction), Pow10(offset), Pow10(f));
  }

  lemma PrefixNear(n: Numerals, m: nat, offset: int)
    requires IsNumeral(n) && Kept(n, m, offset) && offset < 0
    ensures offset + |n.fraction| >= 0 && Near(n, m, offset) && !Slips(n.whole)
  {
    hide NumeralValue, Pow10, Slips, AllDigits;
    if Slips(n.whole) {
      SlipIsLarge(n.whole);
    }
    var all, k: nat := n.whole + n.fraction, 0 - offset;
    AllNear(n);
    PrefixValue(all, |n.whole| + k);
    assert all[..|n.whole| + k] == n.whole + n.fraction[..k];
  }

  lemma SlipFar(n: Numerals, i: nat, m: nat, offset: nat)
    requires IsNumeral(n) && Kept(n, m, offset) && i < |n.whole| && SlipsAt(n.whole, i)
    ensures m * Pow10(offset + |n.fraction|) > NumeralValue(n.whole + n.fraction)
  {
    hide NumeralValue, Kept, Pow10;
    var x, p, q, v := Pow10(|n.whole| - i), Pow10(offset), Pow10(|n.fraction|), NumeralValue(n.whole);
    AllNear(n);
    SlipRead(n.whole, i);
    PrefixValue(n.whole, i);
    assert v < TENTH * x + x;
    Ordered(q, v + 1, TENTH * x + x);
    assert q * (v + 1) == v * q + q && q * (TENTH * x + x) == (TENTH * x + x) * q;
    SlipKept(n, m, offset);
    PowersAdd(offset, |n.fraction|);
    TooLarge(m, p, q, x, NumeralValue(n.whole + n.fraction));
  }

  lemma SlipKept(n: Numerals, m: nat, offset: nat)
    requires IsNumeral(n) && Kept(n, m, offset) && Slips(n.whole)
    ensures m == WholeRead(n.whole) / Pow10(offset) && m >= 1
  {
    assert Pow10(0) == 1;
    SlipIsLarge(n.whole);
    if offset > 0 {
      WholeOnly(n, m, offset);
    }
  }

  /** 2^64 and the three integers behind it are read as numbers ten times as large. */
  lemma ReadTenfold(n: nat)
    requires UINT_MAX < n <= UINT_MAX + 4
    ensures ParseNumber(Digits(n)) == Fractional(Decimal(false, 1844674407370955, 5))
  {
    hide ParseNumber, Spelling, Slips;
    var m := Numerals("", Digits(n), false, "", "", "", "");
    DigitsDenote(n);
    TenfoldKept(m, n);
    assert Scaled(m, 1844674407370955, 5) == Fractional(Decimal(false, 1844674407370955, 5)) by { NoDigits(); }
    NumeralIsRead(m, "", Fractional(Decimal(false, 1844674407370955, 5)));
    assert Spelling(m) + "" == Digits(n) by { JustWhole(m); }
  }

  lemma JustWhole(n: Numerals)
    requires n == Numerals("", n.whole, false, "", "", "", "")
    ensures Spelling(n) + "" == n.whole
  {
  }

  lemma TenfoldKept(m: Numerals, n: nat)
    requires IsNumeral(m) && UINT_MAX < n <= UINT_MAX + 4 && m.whole == Digits(n) && m.fraction == ""
    ensures Kept(m, 1844674407370955, 5)
  {
    var whole := Digits(n);
    DigitsDenote(n / 10);
    assert whole[..|whole| - 1] == Digits(n / 10) && DigitValue(whole[|whole| - 1]) == n % 10;
    assert SlipsAt(whole, |whole| - 1);
    SlipRead(whole, |whole| - 1);
    assert Pow10(1) == 10 && Pow10(4) == 10000 && Pow10(5) == 100000;
  }

  /** Zero with a large exponent is read as infinite. */
  lemma ZeroOverflows(k: nat)
    requires k > EXPONENT_MAX
    ensures ParseNumber("0e" + Digits(k)) == Fractional(Infinite(false))
  {
    var m := Numerals("", "0", false, "", "e", "", Digits(k));
    assert Spelling(m) + "" == "0e" + Digits(k);
    DigitsDenote(k);
    assert NumeralValue("0") == 0 && Pow10(0) == 1;
    assert !Slips("0") by {
      assert NumeralValue("0"[..0]) == 0;
    }
    assert Kept(m, 0, 0);
    assert Scaled(m, 0, 0) == Fractional(Infinite(false));
    NumeralIsRead(m, "", Fractional(Infinite(false)));
  }
}
