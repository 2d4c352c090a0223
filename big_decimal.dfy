/** The part of java.math.BigDecimal the storage component relies on: a decimal
    is an unscaled integer and a scale, standing for unscaled × 10^(-scale).
    `equals` compares both fields, so 1.50 (150, 2) and 1.5 (15, 1) differ even
    though they denote the same number; in Dafny that is structural equality. */
module BigDecimals {

  datatype Decimal = Decimal(unscaled: int, scale: int)

  function Abs(x: int): nat
  {
    if x < 0 then -x else x
  }

  /** 10^n for a natural exponent. */
  function Pow10(n: nat): (p: nat)
    ensures p >= 1
  {
    if n == 0 then 1 else 10 * Pow10(n - 1)
  }

  /** 10^e as a real, for any integer exponent. */
  ghost function TenPow(e: int): real
    decreases Abs(e)
  {
    if e == 0 then 1.0
    else if e > 0 then 10.0 * TenPow(e - 1)
    else TenPow(e + 1) / 10.0
  }

  /** The number a decimal denotes. */
  ghost function Value(d: Decimal): real
  {
    d.unscaled as real * TenPow(-d.scale)
  }

  /** No trailing zero left in the unscaled value; zero is represented with scale 0. */
  predicate IsStripped(d: Decimal)
  {
    if d.unscaled == 0 then d.scale == 0 else d.unscaled % 10 != 0
  }

  lemma TenPowSucc(e: int)
    ensures TenPow(e + 1) == 10.0 * TenPow(e)
  {
  }

  lemma {:induction false} TenPowPositive(e: int)
    ensures TenPow(e) > 0.0
    decreases Abs(e)
  {
    if e > 0 {
      TenPowPositive(e - 1);
    } else if e < 0 {
      TenPowPositive(e + 1);
    }
  }

  lemma MulAssoc(a: real, b: real, c: real)
    ensures a * (b * c) == (a * b) * c
  {
  }

  lemma CastMul(i: int, j: int)
    ensures (i * j) as real == i as real * j as real
  {
  }

  lemma {:induction false} TenPowShift(e: int, n: nat)
    ensures TenPow(e + n) == Pow10(n) as real * TenPow(e)
  {
    if n > 0 {
      TenPowShift(e, n - 1);
      TenPowSucc(e + n - 1);
      MulAssoc(10.0, Pow10(n - 1) as real, TenPow(e));
      CastMul(10, Pow10(n - 1));
    }
  }

  /** Dropping one trailing zero (unscaled / 10, scale - 1) keeps the value. */
  lemma DropZeroKeepsValue(d: Decimal)
    requires d.unscaled % 10 == 0
    ensures Value(Decimal(d.unscaled / 10, d.scale - 1)) == Value(d)
  {
    var q := d.unscaled / 10;
    TenPowSucc(-d.scale);
    assert q as real * 10.0 == d.unscaled as real;
    calc {
      Value(Decimal(q, d.scale - 1));
      q as real * TenPow(-d.scale + 1);
      q as real * (10.0 * TenPow(-d.scale));
      (q as real * 10.0) * TenPow(-d.scale);
      Value(d);
    }
  }

  /** BigDecimal.stripTrailingZeros (Java 8 and later): removes trailing zeros
      from the unscaled value, lowering the scale once per zero, which may make
      the scale negative; a zero value becomes BigDecimal.ZERO, whose scale is 0. */
  function StripTrailingZeros(d: Decimal): (r: Decimal)
    ensures IsStripped(r)
    ensures Value(r) == Value(d)
    ensures d.unscaled != 0 ==> r.scale <= d.scale && r.unscaled != 0
    decreases Abs(d.unscaled)
  {
    if d.unscaled == 0 then Decimal(0, 0)
    else if d.unscaled % 10 == 0 then
      DropZeroKeepsValue(d);
      StripTrailingZeros(Decimal(d.unscaled / 10, d.scale - 1))
    else d
  }

  /** Cancelling a positive factor on both sides of an equation between reals. */
  lemma CancelPositive(a: real, b: real, t: real)
    requires t > 0.0 && a * t == b * t
    ensures a == b
  {
  }

  lemma ShiftedHasTrailingZero(u: int, n: nat)
    requires n > 0
    ensures (u * Pow10(n)) % 10 == 0
  {
    var p := Pow10(n - 1);
    var k := u * p;
    assert u * Pow10(n) == u * (10 * p) == k * 10;
  }

  lemma ShiftOfZero(u: int, n: nat)
    ensures u * Pow10(n) == 0 ==> u == 0
  {
  }

  /** x brought to a scale s at least as large as its own keeps its value. */
  lemma ValueAtScale(x: Decimal, s: int)
    requires x.scale <= s
    ensures Value(Decimal(x.unscaled * Pow10(s - x.scale), s)) == Value(x)
  {
    var n: nat := s - x.scale;
    var t := TenPow(-s);
    TenPowShift(-s, n);
    assert -s + n == -x.scale;
    MulAssoc(x.unscaled as real, Pow10(n) as real, t);
    CastMul(x.unscaled, Pow10(n));
  }

  /** At one scale, equal values mean equal unscaled values. */
  lemma SameScaleSameValue(a: Decimal, b: Decimal)
    requires a.scale == b.scale && Value(a) == Value(b)
    ensures a.unscaled == b.unscaled
  {
    TenPowPositive(-a.scale);
    CancelPositive(a.unscaled as real, b.unscaled as real, TenPow(-a.scale));
  }

  /** Two decimals of equal value agree once the one of smaller scale is
      brought to the larger scale. */
  lemma SameValueAtScale(x: Decimal, y: Decimal)
    requires Value(x) == Value(y) && x.scale <= y.scale
    ensures x.unscaled * Pow10(y.scale - x.scale) == y.unscaled
  {
    ValueAtScale(x, y.scale);
    SameScaleSameValue(Decimal(x.unscaled * Pow10(y.scale - x.scale), y.scale), y);
  }

  lemma StrippedUniqueOrdered(x: Decimal, y: Decimal)
    requires IsStripped(x) && IsStripped(y) && Value(x) == Value(y)
    requires x.scale <= y.scale
    ensures x == y
  {
    var n: nat := y.scale - x.scale;
    SameValueAtScale(x, y);
    if n > 0 {
      ShiftedHasTrailingZero(x.unscaled, n);
      ShiftOfZero(x.unscaled, n);
    }
  }

  /** Two stripped decimals with the same value are the same decimal: the stripped
      form is canonical. */
  lemma StrippedUnique(x: Decimal, y: Decimal)
    requires IsStripped(x) && IsStripped(y) && Value(x) == Value(y)
    ensures x == y
  {
    if x.scale <= y.scale {
      StrippedUniqueOrdered(x, y);
    } else {
      StrippedUniqueOrdered(y, x);
    }
  }

  /** `oldValue.stripTrailingZeros().equals(newValue)` holds exactly when the two
      decimals denote the same number AND the new one carries no trailing zero:
      only the stored side is normalised. */
  lemma StripEqualsIff(oldValue: Decimal, newValue: Decimal)
    ensures StripTrailingZeros(oldValue) == newValue
        <==> Value(oldValue) == Value(newValue) && IsStripped(newValue)
  {
    if Value(oldValue) == Value(newValue) && IsStripped(newValue) {
      StrippedUnique(StripTrailingZeros(oldValue), newValue);
    }
  }

  /** Stripping is idempotent. */
  lemma StripIdempotent(d: Decimal)
    ensures StripTrailingZeros(StripTrailingZeros(d)) == StripTrailingZeros(d)
  {
  }
}
