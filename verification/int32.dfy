/** The scale of a BigNumber is an i32. Scale computations are carried out in i64 (which the
    model treats as unbounded: they add at most three i32 values) and narrowed back here. */
module Int32 {
  import opened Results

  const I32_MIN: int := -0x8000_0000
  const I32_MAX: int := 0x7fff_ffff
  const TWO_32: int := 0x1_0000_0000

  predicate IsI32(x: int) {
    I32_MIN <= x <= I32_MAX
  }

  /** Two's-complement wrap-around of an i32 subtraction or addition: the unique i32 value
      congruent to `x` modulo 2^32. */
  function Wrap32(x: int): (r: int)
    ensures IsI32(r)
    ensures (x - r) % TWO_32 == 0
    ensures IsI32(x) ==> r == x
  {
    (x - I32_MIN) % TWO_32 + I32_MIN
  }

  /** Narrows an i64 scale to i32. Out of range it fails, unless the caller knows the value
      it scales is zero, in which case it saturates to the nearest i32. */
  function OverflowGuard(k: int, isZero: bool): (r: Result<int>)
    ensures r.Ok? ==> IsI32(r.value)
    ensures IsI32(k) ==> r == Ok(k)
    ensures r.Err? <==> !IsI32(k) && !isZero
    ensures r.Err? ==> r.error == IntegerOverflow
  {
    if IsI32(k) then Ok(k)
    else if !isZero then Err(IntegerOverflow)
    else Ok(if k > I32_MAX then I32_MAX else I32_MIN)
  }

  /** When the guard saturates, it picks the i32 nearest to `k`. */
  lemma OverflowGuardNearest(k: int, isZero: bool, y: int)
    requires OverflowGuard(k, isZero).Ok? && IsI32(y)
    ensures Dist(OverflowGuard(k, isZero).value, k) <= Dist(y, k)
  {
  }

  function Dist(a: int, b: int): nat {
    if a <= b then b - a else a - b
  }

  /** Applies a parsed exponent to a scale: the new scale is `scale - exp`. */
  function AdjustScale(scale: int, exp: int): (r: Result<int>)
    ensures r.Ok? <==> IsI32(scale - exp)
    ensures r.Ok? ==> r.value + exp == scale
    ensures r.Err? ==> r.error == ScaleOutOfRange
  {
    var adjusted := scale - exp;
    if adjusted > I32_MAX || adjusted < I32_MIN then Err(ScaleOutOfRange) else Ok(adjusted)
  }
}
