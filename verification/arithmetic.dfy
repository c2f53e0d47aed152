/** `add`, `sub` and `mul`. Addition is exact at the larger of the two scales; multiplication
    rounds the exact product to a number of significant digits. */
module Arithmetic {
  import opened Results
  import opened Int32
  import opened Powers
  import opened TenTable
  import opened RoundingEngine
  import opened BigNumbers
  import opened Scaling

  function Max(a: int, b: int): int {
    if a >= b then a else b
  }

  /** `add`: bring both mantissas to the larger scale and add them. The rescale distance is
      narrowed to i32; it may only saturate when the mantissa it scales is zero. */
  function Add(a: BigNumber, b: BigNumber): (r: Result<BigNumber>)
    requires Valid(a) && Valid(b)
    ensures r.Err? <==> (if a.e >= b.e then a.e - b.e > I32_MAX && b.m != 0 else b.e - a.e > I32_MAX && a.m != 0)
    ensures r.Err? ==> r.error == IntegerOverflow
    ensures r.Ok? ==> Valid(r.value) && r.value.e == Max(a.e, b.e)
  {
    if a.e >= b.e then
      var rescale :- OverflowGuard(a.e - b.e, b.m == 0);
      Ok(BigNumber(a.m + MulPowTen(b.m, rescale), a.e))
    else
      var rescale :- OverflowGuard(b.e - a.e, a.m == 0);
      Ok(BigNumber(MulPowTen(a.m, rescale) + b.m, b.e))
  }

  /** Adding mantissas at one scale adds the values. */
  lemma ValueSum(x: int, y: int, e: int)
    ensures Value(BigNumber(x + y, e)) == Value(BigNumber(x, e)) + Value(BigNumber(y, e))
  {
    var f := Exp10(-e);
    assert (x + y) as real * f == x as real * f + y as real * f;
  }

  /** `add` is exact. */
  lemma AddExact(a: BigNumber, b: BigNumber)
    requires Valid(a) && Valid(b) && Add(a, b).Ok?
    ensures Value(Add(a, b).value) == Value(a) + Value(b)
  {
    if a.e >= b.e {
      RescaledValue(b, a.e);
      ValueSum(a.m, MulPowTen(b.m, OverflowGuard(a.e - b.e, b.m == 0).value), a.e);
    } else {
      RescaledValue(a, b.e);
      ValueSum(MulPowTen(a.m, OverflowGuard(b.e - a.e, a.m == 0).value), b.m, b.e);
    }
  }

  /** Rescaling a mantissa to a larger scale as `add` does keeps its value, including the
      saturated distance of a zero mantissa. */
  lemma RescaledValue(x: BigNumber, e: int)
    requires Valid(x) && x.e <= e && OverflowGuard(e - x.e, x.m == 0).Ok?
    ensures Value(BigNumber(MulPowTen(x.m, OverflowGuard(e - x.e, x.m == 0).value), e)) == Value(x)
  {
    if x.m == 0 {
      RescaledZero(x, e, OverflowGuard(e - x.e, true).value);
    } else {
      RescaledNonzero(x, e);
    }
  }

  lemma RescaledZero(x: BigNumber, e: int, k: int)
    requires x.m == 0
    ensures Value(BigNumber(MulPowTen(x.m, k), e)) == Value(x)
  {
    assert MulPowTen(x.m, k) == 0;
  }

  lemma RescaledNonzero(x: BigNumber, e: int)
    requires Valid(x) && x.e <= e && x.m != 0 && IsI32(e - x.e)
    ensures Value(BigNumber(MulPowTen(x.m, e - x.e), e)) == Value(x)
  {
    var k := e - x.e;
    ValueRescale(x.m, k, e);
    if k == 0 {
      assert x.m * Pow10(0) == x.m;
    }
  }

  /** Adding is symmetric. */
  lemma AddCommutative(a: BigNumber, b: BigNumber)
    requires Valid(a) && Valid(b)
    ensures Add(a, b) == Add(b, a)
  {
    if a.e == b.e {
      assert MulPowTen(a.m, 0) == a.m && MulPowTen(b.m, 0) == b.m;
    }
  }

  /** `sub`: add the opposite. */
  function Sub(a: BigNumber, b: BigNumber): (r: Result<BigNumber>)
    requires Valid(a) && Valid(b)
    ensures r == Add(a, Opposite(b))
  {
    Add(a, Opposite(b))
  }

  lemma SubExact(a: BigNumber, b: BigNumber)
    requires Valid(a) && Valid(b) && Sub(a, b).Ok?
    ensures Value(Sub(a, b).value) == Value(a) - Value(b)
  {
    AddExact(a, Opposite(b));
  }

  /** `mul`: multiply the mantissas, add the scales, then round to `precision` digits. The
      scale sum may saturate only when the left mantissa is zero. */
  function Mul(a: BigNumber, b: BigNumber, precision: int, mode: Rounding): (r: Result<BigNumber>)
    requires Valid(a) && Valid(b)
    ensures !IsI32(a.e + b.e) && a.m != 0 ==> r == Err(IntegerOverflow)
    ensures IsI32(a.e + b.e) ==> r == DoRound(BigNumber(a.m * b.m, a.e + b.e), precision, mode)
    ensures r.Ok? ==> Valid(r.value) && (precision > 0 ==> Precision(r.value) <= precision)
    ensures r.Err? ==> r.error == IntegerOverflow || (r.error == RoundingNecessary && mode == NoRounding)
  {
    var e :- OverflowGuard(a.e + b.e, a.m == 0);
    DoRound(BigNumber(a.m * b.m, e), precision, mode)
  }

  /** The unrounded product has the product of the values. */
  lemma ProductValue(a: BigNumber, b: BigNumber)
    ensures Value(BigNumber(a.m * b.m, a.e + b.e)) == Value(a) * Value(b)
  {
    CastProduct(a.m, b.m);
    ValueProduct(a.m, b.m, a.m * b.m, a.e, b.e);
  }

  lemma ValueProduct(ma: int, mb: int, m: int, ea: int, eb: int)
    requires m as real == ma as real * mb as real
    ensures Value(BigNumber(m, ea + eb)) == Value(BigNumber(ma, ea)) * Value(BigNumber(mb, eb))
  {
    Exp10Sum(ea, eb);
    Regroup(Value(BigNumber(m, ea + eb)), Value(BigNumber(ma, ea)), Value(BigNumber(mb, eb)),
            m as real, ma as real, mb as real, Exp10(-ea), Exp10(-eb), Exp10(-(ea + eb)));
  }

  lemma Exp10Sum(x: int, y: int)
    ensures Exp10(-(x + y)) == Exp10(-x) * Exp10(-y)
  {
    Exp10At(-x, -y, -(x + y));
  }

  lemma Exp10At(u: int, v: int, w: int)
    requires w == u + v
    ensures Exp10(w) == Exp10(u) * Exp10(v)
  {
    Exp10Add(u, v);
  }

  lemma CastProduct(x: int, y: int)
    ensures (x * y) as real == x as real * y as real
  {
  }

  /** Pure real regrouping, kept free of `Exp10` so that the solver sees only variables. */
  lemma Regroup(v: real, va: real, vb: real, m: real, x: real, y: real, f: real, g: real, h: real)
    requires v == m * h && m == x * y && va == x * f && vb == y * g && h == f * g
    ensures v == va * vb
  {
  }

  /** `mul` returns the exact product rounded to at most `precision` digits: the scale drops
      only as far as needed and the mantissa is the exact one correctly rounded. */
  lemma MulRounded(a: BigNumber, b: BigNumber, precision: int, mode: Rounding)
    requires Valid(a) && Valid(b) && IsI32(a.e + b.e) && Mul(a, b, precision, mode).Ok?
    ensures var r := Mul(a, b, precision, mode).value;
      RoundedAt(a.m * b.m, a.e + b.e, r, mode)
      && Value(BigNumber(a.m * b.m, a.e + b.e)) == Value(a) * Value(b)
  {
    ProductValue(a, b);
  }

  /** When the exact product has more digits than `precision`, the rounded product keeps
      exactly `precision` of them, rounded at the scale that leaves that many. */
  lemma MulPinned(a: BigNumber, b: BigNumber, precision: int, mode: Rounding)
    requires Valid(a) && Valid(b) && IsI32(a.e + b.e) && Mul(a, b, precision, mode).Ok?
    requires 0 < precision < Precision(BigNumber(a.m * b.m, a.e + b.e))
    ensures var r := Mul(a, b, precision, mode).value;
      var x := BigNumber(a.m * b.m, a.e + b.e);
      Precision(r) == precision && RoundedAtScale(x.m, x.e, x.e - (Precision(x) - precision), r, mode)
  {
  }
}
