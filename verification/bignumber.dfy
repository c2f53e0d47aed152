/** The decimal type itself: a BigNumber denotes m × 10^(−e), with an unbounded mantissa `m`
    and an i32 scale `e`. The source also caches the digit count of `m` (its "precision");
    every constructor stores either the true count or a non-positive "unknown" marker, so the
    model drops the cache and computes the count when asked. */
module BigNumbers {
  import opened Int32
  import opened Powers

  datatype BigNumber = BigNumber(m: int, e: int)

  /** The scale is an i32. */
  predicate Valid(x: BigNumber) {
    IsI32(x.e)
  }

  /** The exact rational a BigNumber denotes. */
  ghost function Value(x: BigNumber): real {
    x.m as real * Exp10(-x.e)
  }

  /** Number of decimal digits of |b|, 1 for zero. */
  function IntLength(b: int): (r: nat)
    ensures r >= 1
    ensures Mag(b) < Pow10(r)
    ensures b == 0 || Pow10(r - 1) <= Mag(b)
    ensures b == 0 ==> r == 1
  {
    NumDigits(Mag(b))
  }

  /** The `precision` getter: the digit count of the mantissa. */
  function Precision(x: BigNumber): (r: nat)
    ensures r >= 1
    ensures Mag(x.m) < Pow10(r)
    ensures x.m == 0 || Pow10(r - 1) <= Mag(x.m)
  {
    IntLength(x.m)
  }

  predicate IsNegative(x: BigNumber)
  {
    x.m < 0
  }

  predicate IsZero(x: BigNumber)
  {
    x.m == 0
  }

  function Copy(x: BigNumber): (r: BigNumber)
    ensures r.e == x.e && Value(r) == Value(x)
  {
    BigNumber(x.m, x.e)
  }

  function Opposite(x: BigNumber): (r: BigNumber)
    ensures r.e == x.e && Value(r) == -Value(x)
    ensures IsNegative(r) <==> x.m > 0
  {
    BigNumber(-x.m, x.e)
  }

  function Abs(x: BigNumber): (r: BigNumber)
    ensures r.e == x.e && !IsNegative(r)
    ensures Value(r) == if Value(x) < 0.0 then -Value(x) else Value(x)
  {
    SignOfValue(x);
    BigNumber(Mag(x.m), x.e)
  }

  /** The sign of the value is the sign of the mantissa. */
  lemma SignOfValue(x: BigNumber)
    ensures IsNegative(x) <==> Value(x) < 0.0
    ensures IsZero(x) <==> Value(x) == 0.0
  {
    var s := Exp10(-x.e);
    Exp10Positive(-x.e);
    if x.m < 0 {
      assert x.m as real < 0.0;
      NegTimesPos(x.m as real, s);
    } else if x.m > 0 {
      PosTimesPos(x.m as real, s);
    }
  }

  lemma NegTimesPos(a: real, b: real)
    requires a < 0.0 && b > 0.0
    ensures a * b < 0.0
  {
  }

  lemma PosTimesPos(a: real, b: real)
    requires a > 0.0 && b > 0.0
    ensures a * b > 0.0
  {
  }

  lemma TimesTenReal(q: real, a: real, b: real)
    requires a == 10.0 * b
    ensures (10.0 * q) * b == q * a
  {
  }

  /** Raising the scale by one while multiplying the mantissa by ten keeps the value. */
  lemma ValueTimesTen(q: int, e: int)
    ensures Value(BigNumber(q * 10, e)) == Value(BigNumber(q, e - 1))
  {
    Exp10Step(-e);
    assert -(e - 1) == -e + 1;
    assert (q * 10) as real == 10.0 * q as real;
    TimesTenReal(q as real, Exp10(-(e - 1)), Exp10(-e));
    assert Value(BigNumber(q * 10, e)) == (q * 10) as real * Exp10(-e);
    assert Value(BigNumber(q, e - 1)) == q as real * Exp10(-(e - 1));
  }

  /** Raising the scale by k while multiplying the mantissa by 10^k keeps the value. */
  lemma {:induction false} ValueRescale(q: int, k: nat, e: int)
    ensures Value(BigNumber(q * Pow10(k), e)) == Value(BigNumber(q, e - k))
    decreases k
  {
    if k > 0 {
      var r := q * Pow10(k - 1);
      assert q * Pow10(k) == r * 10;
      ValueTimesTen(r, e);
      ValueRescale(q, k - 1, e - 1);
      assert e - 1 - (k - 1) == e - k;
    }
  }
}
