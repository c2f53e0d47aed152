/** `compareTo`, `magCompareTo` and the six relational operators built on them. Values of
    opposite sign are told apart by sign; values of one sign by the digit counts of their
    integer parts first, and only when those tie by rescaling one mantissa to the other's
    scale. A zero mantissa has a digit count of one, which the integer-part shortcut takes at
    face value. */
module Comparison {
  import opened Int32
  import opened Powers
  import opened TenTable
  import opened RoundingEngine
  import opened BigNumbers

  /** `magCompareTo`: the three-way comparison of |x| and |y|. The scale difference is an i64;
      a rescale happens only when it fits an i32 (excluding i32's minimum for the negation). */
  function MagCompareTo(x: BigNumber, y: BigNumber): (r: int)
    requires Valid(x) && Valid(y)
    ensures x.e == y.e ==> r == Compare(Mag(x.m), Mag(y.m))
    ensures x.e != y.e && Precision(x) - x.e < Precision(y) - y.e ==> r == -1
    ensures x.e != y.e && Precision(x) - x.e > Precision(y) - y.e ==> r == 1
  {
    var eDiff := x.e - y.e;
    if eDiff == 0 then Compare(Mag(x.m), Mag(y.m))
    else
      var leftIntLen := Precision(x) - x.e;
      var rightIntLen := Precision(y) - y.e;
      if leftIntLen < rightIntLen then -1
      else if leftIntLen > rightIntLen then 1
      else
        RescaledCompare(x.m, y.m, eDiff)
  }

  /** The last step of `magCompareTo`: scale the mantissa with the smaller scale up by the
      difference, when that fits an i32, and compare magnitudes. */
  function RescaledCompare(xm: int, ym: int, eDiff: int): int {
    var left := if eDiff < 0 && eDiff > I32_MIN then MulPowTen(xm, -eDiff) else xm;
    var right := if eDiff > 0 && eDiff <= I32_MAX then MulPowTen(ym, eDiff) else ym;
    Compare(Mag(left), Mag(right))
  }

  /** `compareTo`: a negative operand is below a non-negative one; two negative operands
      compare by magnitude in reverse. */
  function CompareTo(x: BigNumber, y: BigNumber): (r: int)
    requires Valid(x) && Valid(y)
    ensures IsNegative(x) && !IsNegative(y) ==> r == -1
    ensures !IsNegative(x) && IsNegative(y) ==> r == 1
    ensures IsNegative(x) && IsNegative(y) ==> r == MagCompareTo(y, x)
    ensures !IsNegative(x) && !IsNegative(y) ==> r == MagCompareTo(x, y)
  {
    if IsNegative(x) && !IsNegative(y) then -1
    else if !IsNegative(x) && IsNegative(y) then 1
    else if IsNegative(x) then MagCompareTo(y, x)
    else MagCompareTo(x, y)
  }

  /** The operators read the sign of `compareTo`. For operands whose order `compareTo` gets
      right (`Ordered`), each one is the matching test on the exact values. */
  function Eq(x: BigNumber, y: BigNumber): (r: bool)
    requires Valid(x) && Valid(y)
    ensures Ordered(x, y) ==> (r <==> Value(x) == Value(y))
    ensures r <==> CompareTo(x, y) == 0
  {
    CompareToValue(x, y);
    CompareTo(x, y) == 0
  }

  function Ne(x: BigNumber, y: BigNumber): (r: bool)
    requires Valid(x) && Valid(y)
    ensures Ordered(x, y) ==> (r <==> Value(x) != Value(y))
    ensures r <==> !Eq(x, y)
  {
    !Eq(x, y)
  }

  function Lt(x: BigNumber, y: BigNumber): (r: bool)
    requires Valid(x) && Valid(y)
    ensures Ordered(x, y) ==> (r <==> Value(x) < Value(y))
    ensures r <==> CompareTo(x, y) < 0
  {
    CompareToValue(x, y);
    CompareTo(x, y) < 0
  }

  function Lte(x: BigNumber, y: BigNumber): (r: bool)
    requires Valid(x) && Valid(y)
    ensures Ordered(x, y) ==> (r <==> Value(x) <= Value(y))
    ensures r <==> CompareTo(x, y) <= 0
  {
    CompareToValue(x, y);
    CompareTo(x, y) <= 0
  }

  function Gt(x: BigNumber, y: BigNumber): (r: bool)
    requires Valid(x) && Valid(y)
    ensures Ordered(x, y) ==> (r <==> Value(x) > Value(y))
    ensures r <==> CompareTo(x, y) > 0
  {
    CompareToValue(x, y);
    CompareTo(x, y) > 0
  }

  function Gte(x: BigNumber, y: BigNumber): (r: bool)
    requires Valid(x) && Valid(y)
    ensures Ordered(x, y) ==> (r <==> Value(x) >= Value(y))
    ensures r <==> CompareTo(x, y) >= 0
  {
    CompareToValue(x, y);
    CompareTo(x, y) >= 0
  }

  /** The pairs `compareTo` orders correctly: opposite signs, or two nonzero mantissas whose
      digit counts fit an i32 (so that any rescale distance it needs fits one too). */
  predicate Ordered(x: BigNumber, y: BigNumber) {
    IsNegative(x) != IsNegative(y)
    || (x.m != 0 && y.m != 0 && Precision(x) <= I32_MAX && Precision(y) <= I32_MAX)
  }

  /** The mantissas of x and y brought to their common (larger) scale. */
  function Common(x: BigNumber, y: BigNumber): int {
    if x.e >= y.e then x.e else y.e
  }

  /** The order of the exact values, computed on integers: both mantissas scaled to the larger
      of the two scales, then compared. */
  function ValueCompare(x: BigNumber, y: BigNumber): int {
    var c := Common(x, y);
    Compare(x.m * Pow10(c - x.e), y.m * Pow10(c - y.e))
  }

  /** `compareTo` is the sign of x - y on every pair it orders. */
  lemma CompareToCorrect(x: BigNumber, y: BigNumber)
    requires Valid(x) && Valid(y) && Ordered(x, y)
    ensures CompareTo(x, y) == ValueCompare(x, y)
  {
    var c := Common(x, y);
    var X, Y := x.m * Pow10(c - x.e), y.m * Pow10(c - y.e);
    if IsNegative(x) != IsNegative(y) {
      SignScaled(x.m, c - x.e);
      SignScaled(y.m, c - y.e);
    } else if IsNegative(x) {
      MagCompareToCorrect(y, x);
      NegScaled(x.m, c - x.e);
      NegScaled(y.m, c - y.e);
    } else {
      MagCompareToCorrect(x, y);
      MagScaledNonNeg(x.m, c - x.e);
      MagScaledNonNeg(y.m, c - y.e);
    }
  }

  /** `compareTo` agrees with the order of the exact values. */
  lemma CompareToValue(x: BigNumber, y: BigNumber)
    requires Valid(x) && Valid(y)
    ensures Ordered(x, y) ==> (CompareTo(x, y) == 0 <==> Value(x) == Value(y))
    ensures Ordered(x, y) ==> (CompareTo(x, y) < 0 <==> Value(x) < Value(y))
    ensures Ordered(x, y) ==> (CompareTo(x, y) > 0 <==> Value(x) > Value(y))
  {
    if Ordered(x, y) {
      CompareToCorrect(x, y);
      var c := Common(x, y);
      ValueRescale(x.m, c - x.e, c);
      ValueRescale(y.m, c - y.e, c);
      SameScaleOrder(x.m * Pow10(c - x.e), y.m * Pow10(c - y.e), c);
    }
  }

  /** `compareTo` is antisymmetric on the pairs it orders. */
  lemma CompareToAntisymmetric(x: BigNumber, y: BigNumber)
    requires Valid(x) && Valid(y) && Ordered(x, y)
    ensures CompareTo(x, y) == -CompareTo(y, x)
  {
    assert Ordered(y, x);
    CompareToValue(x, y);
    CompareToValue(y, x);
    CompareToRange(x, y);
    CompareToRange(y, x);
  }

  /** `compareTo` is transitive on values it orders. */
  lemma CompareToTransitive(x: BigNumber, y: BigNumber, z: BigNumber)
    requires Valid(x) && Valid(y) && Valid(z) && Ordered(x, y) && Ordered(y, z) && Ordered(x, z)
    requires CompareTo(x, y) < 0 && CompareTo(y, z) < 0
    ensures CompareTo(x, z) < 0
  {
    CompareToValue(x, y);
    CompareToValue(y, z);
    CompareToValue(x, z);
  }

  lemma CompareToRange(x: BigNumber, y: BigNumber)
    requires Valid(x) && Valid(y)
    ensures CompareTo(x, y) in {-1, 0, 1}
  {
  }

  /** `magCompareTo` on two nonzero mantissas compares |x| with |y|. */
  lemma MagCompareToCorrect(x: BigNumber, y: BigNumber)
    requires Valid(x) && Valid(y) && x.m != 0 && y.m != 0
    requires Precision(x) <= I32_MAX && Precision(y) <= I32_MAX
    ensures var c := Common(x, y);
      MagCompareTo(x, y) == Compare(Mag(x.m) * Pow10(c - x.e), Mag(y.m) * Pow10(c - y.e))
  {
    var c := Common(x, y);
    var px, py := Precision(x), Precision(y);
    if x.e == y.e {
      assert Mag(x.m) * Pow10(0) == Mag(x.m) && Mag(y.m) * Pow10(0) == Mag(y.m);
    } else if px - x.e < py - y.e {
      IntLenOrder(x, y);
    } else if px - x.e > py - y.e {
      IntLenOrder(y, x);
    } else if x.e < y.e {
      assert Mag(y.m) * Pow10(0) == Mag(y.m);
      MagTimesPow(x.m, y.e - x.e);
    } else {
      assert Mag(x.m) * Pow10(0) == Mag(x.m);
      MagTimesPow(y.m, x.e - y.e);
    }
  }

  /** A shorter integer part means a smaller magnitude. */
  lemma IntLenOrder(x: BigNumber, y: BigNumber)
    requires x.m != 0 && y.m != 0 && Precision(x) - x.e < Precision(y) - y.e
    ensures var c := Common(x, y);
      Mag(x.m) * Pow10(c - x.e) < Mag(y.m) * Pow10(c - y.e)
  {
    var c := Common(x, y);
    var px, py := Precision(x), Precision(y);
    var i, j := c - x.e, c - y.e;
    assert py >= 1 && px + i <= py - 1 + j;
    BelowPow(Mag(x.m), px, i);
    Pow10Monotone(px + i, py - 1 + j);
    AbovePow(Mag(y.m), py - 1, j);
  }

  /** A number below 10^p, scaled by 10^i, stays below 10^(p + i). */
  lemma BelowPow(a: nat, p: nat, i: nat)
    requires a < Pow10(p)
    ensures a * Pow10(i) < Pow10(p + i)
  {
    MulStrict(a, Pow10(p), Pow10(i));
    Pow10Add(p, i);
  }

  /** A number at least 10^p, scaled by 10^j, is at least 10^(p + j). */
  lemma AbovePow(b: nat, p: nat, j: nat)
    requires Pow10(p) <= b
    ensures Pow10(p + j) <= b * Pow10(j)
  {
    MulWeak(Pow10(p), b, Pow10(j));
    Pow10Add(p, j);
  }

  lemma MulStrict(a: int, b: int, c: int)
    requires 0 <= a < b && c > 0
    ensures a * c < b * c
  {
  }

  lemma MulWeak(a: int, b: int, c: int)
    requires a <= b && c >= 0
    ensures a * c <= b * c
  {
  }

  lemma MagTimesPow(m: int, k: nat)
    ensures Mag(m * Pow10(k)) == Mag(m) * Pow10(k)
  {
    if m < 0 {
      assert m * Pow10(k) == -(Mag(m) * Pow10(k));
    }
  }

  /** Scaling by a power of ten keeps the sign. */
  lemma SignScaled(m: int, k: nat)
    ensures m < 0 ==> m * Pow10(k) < 0
    ensures m >= 0 ==> m * Pow10(k) >= 0
  {
  }

  /** For a negative mantissa, the scaled value is minus the scaled magnitude. */
  lemma NegScaled(m: int, k: nat)
    requires m < 0
    ensures m * Pow10(k) == -(Mag(m) * Pow10(k))
  {
  }

  lemma MagScaledNonNeg(m: int, k: nat)
    requires m >= 0
    ensures m * Pow10(k) == Mag(m) * Pow10(k)
  {
  }

  /** At one scale, the order of the values is the order of the mantissas. */
  lemma SameScaleOrder(a: int, b: int, e: int)
    ensures Value(BigNumber(a, e)) < Value(BigNumber(b, e)) <==> a < b
    ensures Value(BigNumber(a, e)) == Value(BigNumber(b, e)) <==> a == b
  {
    var f := Exp10(-e);
    Exp10Positive(-e);
    assert Value(BigNumber(a, e)) == a as real * f;
    assert Value(BigNumber(b, e)) == b as real * f;
    if a < b {
      ScaleLess(a, b, f);
    } else if a > b {
      ScaleLess(b, a, f);
    } else {
      assert a as real * f == b as real * f;
    }
  }

  lemma ScaleLess(a: int, b: int, f: real)
    requires a < b && f > 0.0
    ensures a as real * f < b as real * f
  {
    PositiveGap(b as real - a as real, f);
    assert b as real * f - a as real * f == (b as real - a as real) * f;
  }

  lemma PositiveGap(g: real, f: real)
    requires g > 0.0 && f > 0.0
    ensures g * f > 0.0
  {
  }

  /** Zero reports one digit, so its integer part is taken to be 1 - e digits long: zero at
      scale 0 compares above 0.5, and zero at scale 0 is not equal to zero at scale 1. */
  lemma ZeroMisordered()
    ensures CompareTo(BigNumber(0, 0), BigNumber(5, 1)) == 1
    ensures ValueCompare(BigNumber(0, 0), BigNumber(5, 1)) == -1
    ensures !Eq(BigNumber(0, 0), BigNumber(0, 1))
  {
    assert Precision(BigNumber(5, 1)) == 1;
    assert Precision(BigNumber(0, 0)) == 1 && Precision(BigNumber(0, 1)) == 1;
    assert Pow10(1) == 10;
  }
}
