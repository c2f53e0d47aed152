/** `setScale`, `floor`, `ceil` and `toBigInt`: moving a BigNumber to another scale, and
    rounding it to an integer. */
module ScaleAdjust {
  import opened Results
  import opened Int32
  import opened Powers
  import opened TenTable
  import opened RoundingEngine
  import opened BigNumbers
  import opened Scaling

  /** `setScale`: the same scale is a copy and a zero is relabelled. A larger scale multiplies
      the mantissa by 10^k exactly; a smaller one divides it by 10^k with rounding. The distance
      k is narrowed to i32. */
  function SetScale(x: BigNumber, e: int, mode: Rounding): (r: Result<BigNumber>)
    requires Valid(x) && IsI32(e)
    ensures e == x.e ==> r == Ok(x)
    ensures e != x.e && x.m == 0 ==> r == Ok(BigNumber(0, e))
    ensures r.Ok? ==> r.value.e == e
    ensures e > x.e && x.m != 0 ==> (r.Err? <==> e - x.e > I32_MAX)
    ensures e < x.e && x.m != 0 ==>
      (r.Err? <==> x.e - e > I32_MAX || (mode == NoRounding && TRem(x.m, Pow10(x.e - e)) != 0))
    ensures r.Err? ==> (r.error == IntegerOverflow || (r.error == RoundingNecessary && mode == NoRounding))
  {
    if e == x.e then Ok(x)
    else if x.m == 0 then Ok(BigNumber(0, e))
    else if e > x.e then
      var rescale :- OverflowGuard(e - x.e, false);
      Ok(BigNumber(MulPowTen(x.m, rescale), e))
    else
      var rescale :- OverflowGuard(x.e - e, false);
      var m :- DivideAndRound(x.m, Pow10(rescale), mode);
      Ok(BigNumber(m, e))
  }

  /** Raising the scale keeps the value. */
  lemma SetScaleExact(x: BigNumber, e: int, mode: Rounding)
    requires Valid(x) && IsI32(e) && e >= x.e && SetScale(x, e, mode).Ok?
    ensures Value(SetScale(x, e, mode).value) == Value(x)
  {
    if e == x.e || x.m == 0 {
      assert Value(BigNumber(0, e)) == 0.0;
    } else {
      ValueRescale(x.m, e - x.e, e);
    }
  }

  /** Lowering the scale rounds the value per `mode` at the new scale, unless the truncated
      quotient is zero for a negative mantissa (the rounding engine then reads the quotient as
      positive). */
  lemma SetScaleRounded(x: BigNumber, e: int, mode: Rounding)
    requires Valid(x) && IsI32(e) && e < x.e && SetScale(x, e, mode).Ok?
    requires x.m > 0 || Mag(x.m) >= Pow10(x.e - e)
    ensures RoundedAt(x.m, x.e, SetScale(x, e, mode).value, mode)
  {
    PlacesRounded(x.m, x.e, SetScale(x, e, mode).value.m, e, mode);
  }

  /** The digit count `floor` and `ceil` round to: the length of the integer part, or 0 when
      there is none, narrowed to i32. */
  function IntegerDigits(x: BigNumber): (r: Result<int>)
    ensures Precision(x) - x.e <= 0 ==> r == Ok(0)
    ensures r.Err? <==> Precision(x) - x.e > I32_MAX
    ensures 0 < Precision(x) - x.e <= I32_MAX ==> r == Ok(Precision(x) - x.e)
  {
    var intLen := Precision(x) - x.e;
    OverflowGuard(if intLen > 0 then intLen else 0, false)
  }

  /** `floor`: round to the digits of the integer part toward -infinity. Without an integer
      part the digit count is 0, which `doRound` reads as "no limit", so the value comes back
      unchanged. */
  function FloorOf(x: BigNumber): (r: Result<BigNumber>)
    requires Valid(x)
    ensures Precision(x) - x.e <= 0 ==> r == Ok(x)
    ensures r.Err? <==> Precision(x) - x.e > I32_MAX
    ensures x.e <= 0 && r.Ok? ==> r == Ok(x)
    ensures 0 < x.e < Precision(x) && r.Ok? ==>
      r.value.e <= 0 && r.value.m * Pow10(-r.value.e) == x.m / Pow10(x.e)
  {
    var precision :- IntegerDigits(x);
    var r := DoRound(x, precision, Floor);
    assert r.Ok?;
    FloorResult(x, precision, r.value);
    r
  }

  /** `ceil`: as `floor`, toward +infinity. */
  function CeilOf(x: BigNumber): (r: Result<BigNumber>)
    requires Valid(x)
    ensures Precision(x) - x.e <= 0 ==> r == Ok(x)
    ensures r.Err? <==> Precision(x) - x.e > I32_MAX
    ensures x.e <= 0 && r.Ok? ==> r == Ok(x)
    ensures 0 < x.e < Precision(x) && r.Ok? ==>
      r.value.e <= 0 && r.value.m * Pow10(-r.value.e) == -((-x.m) / Pow10(x.e))
  {
    var precision :- IntegerDigits(x);
    var r := DoRound(x, precision, Ceil);
    assert r.Ok?;
    CeilResult(x, precision, r.value);
    r
  }

  /** `toBigInt`: the mantissa of `floor`, read without its scale. */
  function ToBigInt(x: BigNumber): (r: Result<int>)
    requires Valid(x)
    ensures r.Err? <==> Precision(x) - x.e > I32_MAX
    ensures Precision(x) - x.e <= I32_MAX && (x.e <= 0 || Precision(x) <= x.e) ==> r == Ok(x.m)
    ensures 0 < x.e < Precision(x) && r.Ok? ==>
      r.value == x.m / Pow10(x.e) || r.value * 10 == x.m / Pow10(x.e)
  {
    var f :- FloorOf(x);
    FloorScale(x, f);
    Ok(f.m)
  }

  /** `floor` as its tests describe it: the largest integer not above x, at scale 0 when x has
      a fraction, so that a value below one floors to 0 or -1. */
  function FloorCorrected(x: BigNumber): (r: BigNumber)
    ensures x.e <= 0 ==> r == x
    ensures x.e > 0 ==> r.e == 0 && r.m * Pow10(x.e) <= x.m < (r.m + 1) * Pow10(x.e)
  {
    if x.e <= 0 then x
    else
      DivBounds(Mag(x.m), Pow10(x.e));
      BigNumber(x.m / Pow10(x.e), 0)
  }

  /** `ceil` likewise: the smallest integer not below x. */
  function CeilCorrected(x: BigNumber): (r: BigNumber)
    ensures x.e <= 0 ==> r == x
    ensures x.e > 0 ==> r.e == 0 && (r.m - 1) * Pow10(x.e) < x.m <= r.m * Pow10(x.e)
  {
    if x.e <= 0 then x
    else
      var f := FloorCorrected(BigNumber(-x.m, x.e));
      BigNumber(-f.m, 0)
  }

  /** Wherever `floor` has integer digits to round to, it agrees in value with the corrected one. */
  lemma FloorAgrees(x: BigNumber)
    requires Valid(x) && 0 < x.e < Precision(x) && FloorOf(x).Ok?
    ensures Value(FloorOf(x).value) == Value(FloorCorrected(x))
  {
    var f := FloorOf(x).value;
    var k := f.m * Pow10(-f.e);
    ValueRescale(f.m, -f.e, 0);
    assert 0 - -f.e == f.e;
    assert FloorCorrected(x) == BigNumber(k, 0);
  }

  /** The same for `ceil`. */
  lemma CeilAgrees(x: BigNumber)
    requires Valid(x) && 0 < x.e < Precision(x) && CeilOf(x).Ok?
    ensures Value(CeilOf(x).value) == Value(CeilCorrected(x))
  {
    var c := CeilOf(x).value;
    var k := c.m * Pow10(-c.e);
    ValueRescale(c.m, -c.e, 0);
    assert 0 - -c.e == c.e;
    assert CeilCorrected(x) == BigNumber(k, 0);
  }

  /** `toBigInt` as its callers expect it: the integer part, the value with its fraction cut off
      toward zero. An integer comes out whole, whatever its scale. */
  function ToBigIntCorrected(x: BigNumber): (r: int)
    ensures x.e <= 0 ==> Value(BigNumber(r, 0)) == Value(x)
    ensures x.e > 0 ==> Mag(r) * Pow10(x.e) <= Mag(x.m) < (Mag(r) + 1) * Pow10(x.e)
    ensures r == 0 || ((r < 0) <==> (x.m < 0))
  {
    if x.e <= 0 then
      ValueRescale(x.m, -x.e, 0);
      x.m * Pow10(-x.e)
    else
      TDiv(x.m, Pow10(x.e))
  }

  /** Rounding to the digits of the integer part lands at scale 0, or at -1 after a carry
      (-9.5 -> -10 kept as -1 at scale -1), so the mantissa is the integer or a tenth of it. */
  lemma FloorScale(x: BigNumber, f: BigNumber)
    requires Valid(x) && FloorOf(x) == Ok(f)
    ensures 0 < x.e < Precision(x) ==>
      f.m == x.m / Pow10(x.e) || f.m * 10 == x.m / Pow10(x.e)
  {
    if 0 < x.e < Precision(x) {
      assert f.e == 0 || f.e == -1;
      assert Pow10(1) == 10 && f.m * Pow10(0) == f.m;
    }
  }

  lemma FloorResult(x: BigNumber, p: int, r: BigNumber)
    requires Valid(x) && IntegerDigits(x) == Ok(p) && DoRound(x, p, Floor) == Ok(r)
    ensures 0 < x.e < Precision(x) ==> r.e <= 0 && r.m * Pow10(-r.e) == x.m / Pow10(x.e)
  {
    if 0 < x.e < Precision(x) {
      var q := ToInteger(x, p, Floor, r);
      FloorQuotient(x.m, Pow10(x.e), q);
    }
  }

  lemma CeilResult(x: BigNumber, p: int, r: BigNumber)
    requires Valid(x) && IntegerDigits(x) == Ok(p) && DoRound(x, p, Ceil) == Ok(r)
    ensures 0 < x.e < Precision(x) ==> r.e <= 0 && r.m * Pow10(-r.e) == -((-x.m) / Pow10(x.e))
  {
    if 0 < x.e < Precision(x) {
      var q := ToInteger(x, p, Ceil, r);
      CeilQuotient(x.m, Pow10(x.e), q);
    }
  }

  /** `doRound` to the digits of the integer part: the result, read as an integer, is x / 10^e
      rounded per `mode`. The first pass of the rounding loop divides by 10^e and lands at scale
      0; a carry makes that a power of ten, which the second pass divides exactly by 10. */
  lemma ToInteger(x: BigNumber, p: int, mode: Rounding, r: BigNumber) returns (q: int)
    requires Valid(x) && 0 < x.e < Precision(x) && p == Precision(x) - x.e
    requires DoRound(x, p, mode) == Ok(r)
    ensures r.e <= 0 && q == r.m * Pow10(-r.e) && RoundedPos(x.m, Pow10(x.e), q, mode)
  {
    DoRoundLoop(x, p, mode, r);
    var s := FirstPass(x.m, x.e, p, mode, r);
    assert s.e == 0 && x.e - s.e == x.e && s.e - r.e == -r.e;
    RestExact(s, p, mode, r);
    q := s.m;
  }

  /** `doRound` with work to do is the rounding loop. */
  lemma DoRoundLoop(x: BigNumber, p: int, mode: Rounding, r: BigNumber)
    requires Valid(x) && 1 <= p < Precision(x) && DoRound(x, p, mode) == Ok(r)
    ensures RoundDigits(x.m, x.e, p, mode) == Ok(r) && NumDigits(Mag(x.m)) == Precision(x)
  {
  }

  /** A rounding loop that has work to do makes one pass, then runs on the pass's result. */
  lemma FirstPass(m: int, e: int, p: nat, mode: Rounding, r: BigNumber) returns (s: BigNumber)
    requires p >= 1 && IsI32(e) && NumDigits(Mag(m)) > p
    requires RoundDigits(m, e, p, mode) == Ok(r)
    ensures s.e == e - (NumDigits(Mag(m)) - p) && Valid(s) && RoundedPos(m, Pow10(e - s.e), s.m, mode)
    ensures p <= NumDigits(Mag(s.m)) <= p + 1 && (NumDigits(Mag(s.m)) == p + 1 ==> Mag(s.m) == Pow10(p))
    ensures RoundDigits(s.m, s.e, p, mode) == Ok(r)
  {
    s := LoopUnfold(m, e, p, mode, r);
    PassFacts(m, e, p, mode, s);
  }

  lemma LoopUnfold(m: int, e: int, p: nat, mode: Rounding, r: BigNumber) returns (s: BigNumber)
    requires p >= 1 && IsI32(e) && NumDigits(Mag(m)) > p
    requires RoundDigits(m, e, p, mode) == Ok(r)
    ensures RoundPass(m, e, p, mode) == Ok(s) && RoundDigits(s.m, s.e, p, mode) == Ok(r)
  {
    s := RoundPass(m, e, p, mode).value;
  }

  lemma PassFacts(m: int, e: int, p: nat, mode: Rounding, s: BigNumber)
    requires p >= 1 && IsI32(e) && NumDigits(Mag(m)) > p
    requires RoundPass(m, e, p, mode) == Ok(s)
    ensures s.e == e - (NumDigits(Mag(m)) - p) && Valid(s) && RoundedPos(m, Pow10(e - s.e), s.m, mode)
    ensures p <= NumDigits(Mag(s.m)) <= p + 1 && (NumDigits(Mag(s.m)) == p + 1 ==> Mag(s.m) == Pow10(p))
  {
  }

  /** After the first pass the rest of the loop only drops zeros: either nothing is left to do,
      or the pass carried to exactly 10^p and one more pass divides it by ten. */
  lemma RestExact(s: BigNumber, p: nat, mode: Rounding, r: BigNumber)
    requires p >= 1 && Valid(s) && p <= NumDigits(Mag(s.m)) <= p + 1
    requires NumDigits(Mag(s.m)) == p + 1 ==> Mag(s.m) == Pow10(p)
    requires RoundDigits(s.m, s.e, p, mode) == Ok(r)
    ensures r.e <= s.e && r.m * Pow10(s.e - r.e) == s.m
  {
    CarryIsPow10(s.m, p);
    if NumDigits(Mag(s.m)) <= p {
      assert r == s;
      assert r.m * Pow10(0) == r.m;
    }
  }

  /** Rounding toward -infinity by a positive divisor is floor division. */
  lemma FloorQuotient(n: int, d: int, q: int)
    requires d > 0 && RoundedPos(n, d, q, Floor)
    ensures q == n / d
  {
    var f := n / d;
    assert n == f * d + n % d;
    if q < f {
      MulLe(q, f - 1, d);
    } else if q > f {
      MulLe(f + 1, q, d);
    }
  }

  /** Rounding toward +infinity by a positive divisor is minus the floor of the negation. */
  lemma CeilQuotient(n: int, d: int, q: int)
    requires d > 0 && RoundedPos(n, d, q, Ceil)
    ensures q == -((-n) / d)
  {
    var f := (-n) / d;
    assert -n == f * d + (-n) % d;
    if -q < f {
      MulLe(-q, f - 1, d);
    } else if -q > f {
      MulLe(f + 1, -q, d);
    }
  }
}
