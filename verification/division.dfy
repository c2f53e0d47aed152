/** `div` and `fromFraction`: the dividend is scaled so that the integer quotient has
    `precision` significant digits, divided with rounding, trimmed back toward the natural
    scale and rounded once more. */
module Division {
  import opened Results
  import opened Int32
  import opened Powers
  import opened TenTable
  import opened RoundingEngine
  import opened BigNumbers
  import opened Scaling

  /** `compareMagnitudeNormalized`: compares |left| / 10^leftE with |right| / 10^rightE by
      scaling the one with the smaller exponent. The exponent difference is an i32
      subtraction, and so is its negation. */
  function CompareMagnitudeNormalized(left: int, leftE: int, right: int, rightE: int): (r: int)
    ensures 0 <= leftE <= I32_MAX && 0 <= rightE <= I32_MAX ==>
      r == Compare(Mag(left) * Pow10(rightE), Mag(right) * Pow10(leftE))
  {
    var eDiff := Wrap32(leftE - rightE);
    if eDiff < 0 then
      NormalizedLeft(left, leftE, right, rightE);
      Compare(Mag(MulPowTen(left, Wrap32(-eDiff))), Mag(right))
    else
      NormalizedRight(left, leftE, right, rightE);
      Compare(Mag(left), Mag(MulPowTen(right, eDiff)))
  }

  /** `q` is n / d * 10^k correctly rounded per `mode`: the mantissa of the quotient of two
      values whose mantissas are n and d, read at a scale k above the difference of theirs. */
  predicate QuotientRounded(n: int, d: int, k: int, q: int, mode: Rounding)
    requires d != 0
  {
    NonzeroScaledDivisor(d, PosPart(-k));
    Rounded(n * Pow10(PosPart(k)), d * Pow10(PosPart(-k)), q, mode)
  }

  function PosPart(k: int): nat {
    if k >= 0 then k else 0
  }

  lemma NonzeroScaledDivisor(d: int, k: nat)
    requires d != 0
    ensures d * Pow10(k) != 0
  {
  }

  /** `div`: a zero divisor fails; a zero dividend comes back as zero at the difference of the
      scales, computed in 32 bits; otherwise the planned integer division is rounded, its
      trailing zeros trimmed down to the difference of the scales at most, and the result
      rounded to `precision` digits. */
  function Div(a: BigNumber, b: BigNumber, precision: int, mode: Rounding): (r: Result<BigNumber>)
    requires Valid(a) && Valid(b) && IsI32(precision)
    ensures r == Err(DivideByZero) <==> b.m == 0
    ensures b.m != 0 && a.m == 0 ==> r == Ok(BigNumber(0, Wrap32(a.e - b.e)))
    ensures r.Ok? ==> Valid(r.value) && (precision > 0 ==> Precision(r.value) <= precision)
    ensures r.Err? ==> r.error == DivideByZero || r.error == IntegerOverflow
                       || (r.error == RoundingNecessary && mode == NoRounding)
  {
    if b.m == 0 then Err(DivideByZero)
    else if a.m == 0 then
      // the guard here saturates instead of failing, and its argument is already an i32
      Ok(BigNumber(a.m, Wrap32(a.e - b.e)))
    else DivNonzero(a, b, precision, mode)
  }

  /** `div` of nonzero operands: plan, divide with rounding, trim toward the difference of
      the scales, and limit to `precision` digits. */
  function DivNonzero(a: BigNumber, b: BigNumber, precision: int, mode: Rounding): (r: Result<BigNumber>)
    requires Valid(a) && Valid(b) && b.m != 0
    ensures r.Ok? ==> Valid(r.value) && (precision > 0 ==> Precision(r.value) <= precision)
    ensures r.Err? ==> r.error == IntegerOverflow || (r.error == RoundingNecessary && mode == NoRounding)
    ensures r.Ok? ==> var plan := PlanDiv(a, b, Wrap32(a.e - b.e), precision);
      plan.Ok? && DivPlanned(a, b, Wrap32(a.e - b.e), plan.value, precision, mode) == r
  {
    var eDiff := Wrap32(a.e - b.e);
    var plan :- PlanDiv(a, b, eDiff, precision);
    DivPlanned(a, b, eDiff, plan, precision, mode)
  }

  /** The steps of `div` after its plan. */
  function DivPlanned(a: BigNumber, b: BigNumber, eDiff: int, plan: DivPlan, precision: int, mode: Rounding): (r: Result<BigNumber>)
    requires b.m != 0 && IsI32(eDiff) && IsI32(plan.e)
    requires ScaledOperands(a.m, b.m, plan.e - eDiff, plan.left, plan.right)
    ensures r.Ok? ==> Valid(r.value) && (precision > 0 ==> Precision(r.value) <= precision)
    ensures r.Err? ==> r.error == IntegerOverflow || (r.error == RoundingNecessary && mode == NoRounding)
  {
    NonzeroScaled(a.m, b.m, plan.e - eDiff, plan.left, plan.right);
    var q :- DivideAndRound(plan.left, plan.right, mode);
    DoRound(TrimZeros(q, plan.e, eDiff), precision, mode)
  }

  /** `fromFraction`: the numerator and denominator as BigNumbers at scale 0, divided. */
  function FromFraction(n: int, d: int, precision: int, mode: Rounding): (r: Result<BigNumber>)
    requires IsI32(precision)
    ensures r == Err(DivideByZero) <==> d == 0
    ensures d != 0 && n == 0 ==> r == Ok(BigNumber(0, 0))
    ensures r.Ok? && precision > 0 ==> Precision(r.value) <= precision
  {
    Div(BigNumber(n, 0), BigNumber(d, 0), precision, mode)
  }

  /** r is n / d correctly rounded to `precision` significant digits, trailing zeros then
      dropped, with scales read `eDiff` below r's: r·10^k, k being the digits r lacks, is the
      rounded quotient at the scale that gives it exactly `precision` digits, or, when the
      rounding carried up to 10^precision, one scale further. */
  predicate RoundedToDigits(n: int, d: int, eDiff: int, precision: int, r: BigNumber, mode: Rounding)
    requires d != 0
  {
    var k := precision - Precision(r);
    k >= 0
    && (QuotientRounded(n, d, r.e + k - eDiff, r.m * Pow10(k), mode)
        || (Mag(r.m) * Pow10(k + 1) == Pow10(precision)
            && QuotientRounded(n, d, r.e + k + 1 - eDiff, r.m * Pow10(k + 1), mode)))
  }

  /** The rounded plan quotient, having `precision` digits or being 10^precision, fixes the
      result's scale. */
  lemma DivScale(n: int, d: int, eDiff: int, precision: int, mode: Rounding, r: BigNumber, plan: DivPlan, q: int)
    requires d != 0 && plan.right != 0 && precision >= 1
    requires ScaledOperands(n, d, plan.e - eDiff, plan.left, plan.right)
    requires Rounded(plan.left, plan.right, q, mode)
    requires Pow10(precision - 1) <= Mag(q) <= Pow10(precision)
    requires r.e <= plan.e && q == r.m * Pow10(plan.e - r.e) && Precision(r) <= precision
    ensures RoundedToDigits(n, d, eDiff, precision, r, mode)
  {
    RescaledQuotient(n, d, plan.e - eDiff, plan.left, plan.right, q, 0, q, plan.e - eDiff, mode);
    var k := ShiftDigits(r.m, plan.e - r.e, precision);
    assert r.m * Pow10(plan.e - r.e) == q;
  }

  /** A mantissa that becomes a `p`-digit number (or 10^p) when shifted by j places lacks
      exactly j digits, or j - 1 in the carry case. */
  lemma ShiftDigits(m: int, j: nat, p: nat) returns (k: nat)
    requires p >= 1 && Pow10(p - 1) <= Mag(m * Pow10(j)) <= Pow10(p)
    requires Precision(BigNumber(m, 0)) <= p
    ensures k == p - Precision(BigNumber(m, 0))
    ensures j == k || (j == k + 1 && Mag(m) * Pow10(k + 1) == Pow10(p))
  {
    MagScaled(m, j);
    assert m != 0;
    NumDigitsShift(Mag(m), j);
    DigitsBetween(Mag(m * Pow10(j)), p);
    k := p - Precision(BigNumber(m, 0));
  }

  /** The result of `fromFraction` is n / d rounded at its own scale: its mantissa is
      n / d * 10^e rounded per `mode`, for the HALF modes when d is even; that scale gives
      `precision` significant digits before trailing zeros are dropped. */
  lemma FromFractionRounded(n: int, d: int, precision: int, mode: Rounding, r: BigNumber)
    requires IsI32(precision) && precision >= 1 && n != 0 && d != 0
    requires NumDigits(Mag(n)) <= I32_MAX && NumDigits(Mag(d)) <= I32_MAX
    requires IsHalf(mode) ==> d % 2 == 0
    requires FromFraction(n, d, precision, mode) == Ok(r)
    ensures QuotientRounded(n, d, r.e, r.m, mode)
    ensures RoundedToDigits(n, d, 0, precision, r, mode)
  {
    DivRounded(BigNumber(n, 0), BigNumber(d, 0), precision, mode, r);
  }

  /** What `div` promises for nonzero operands: the result's mantissa is a / b rounded at the
      result's scale, read against the (wrapped) difference of the operands' scales, and that
      scale is the one that leaves `precision` significant digits before trailing zeros are
      dropped. The rounding engine's half-way test is exact only for an even divisor, so the
      HALF modes are covered when the divisor's mantissa is even. */
  lemma DivRounded(a: BigNumber, b: BigNumber, precision: int, mode: Rounding, r: BigNumber)
    requires Valid(a) && Valid(b) && IsI32(precision) && precision >= 1
    requires a.m != 0 && b.m != 0
    requires Precision(a) <= I32_MAX && Precision(b) <= I32_MAX
    requires IsHalf(mode) ==> b.m % 2 == 0
    requires Div(a, b, precision, mode) == Ok(r)
    ensures QuotientRounded(a.m, b.m, r.e - Wrap32(a.e - b.e), r.m, mode)
    ensures RoundedToDigits(a.m, b.m, Wrap32(a.e - b.e), precision, r, mode)
  {
    DivQuotientRounded(a, b, precision, mode, r);
    DivScalePinned(a, b, precision, mode, r);
  }

  /** The first half of `DivRounded`: the rounded quotient. */
  lemma DivQuotientRounded(a: BigNumber, b: BigNumber, precision: int, mode: Rounding, r: BigNumber)
    requires Valid(a) && Valid(b) && IsI32(precision) && precision >= 1
    requires a.m != 0 && b.m != 0
    requires Precision(a) <= I32_MAX && Precision(b) <= I32_MAX
    requires IsHalf(mode) ==> b.m % 2 == 0
    requires Div(a, b, precision, mode) == Ok(r)
    ensures QuotientRounded(a.m, b.m, r.e - Wrap32(a.e - b.e), r.m, mode)
  {
    var plan, q := DivFacts(a, b, precision, mode, r);
    DivFinal(a, b, precision, mode, r, plan, q);
  }

  /** The second half of `DivRounded`: the scale that keeps `precision` digits. */
  lemma DivScalePinned(a: BigNumber, b: BigNumber, precision: int, mode: Rounding, r: BigNumber)
    requires Valid(a) && Valid(b) && IsI32(precision) && precision >= 1
    requires a.m != 0 && b.m != 0
    requires Precision(a) <= I32_MAX && Precision(b) <= I32_MAX
    requires IsHalf(mode) ==> b.m % 2 == 0
    requires Div(a, b, precision, mode) == Ok(r)
    ensures RoundedToDigits(a.m, b.m, Wrap32(a.e - b.e), precision, r, mode)
  {
    var plan, q := DivFacts(a, b, precision, mode, r);
    PinnedFromPlan(a.m, b.m, Wrap32(a.e - b.e), precision, mode, r, plan, q);
  }

  /** The scale argument for `div`, from the facts its steps establish. */
  lemma PinnedFromPlan(n: int, d: int, eDiff: int, precision: int, mode: Rounding, r: BigNumber, plan: DivPlan, q: int)
    requires d != 0 && plan.right != 0 && precision >= 1
    requires ScaledOperands(n, d, plan.e - eDiff, plan.left, plan.right)
    requires Mag(plan.right) * Pow10(precision - 1) <= Mag(plan.left) <= Mag(plan.right) * Pow10(precision)
    requires IsHalf(mode) ==> Mag(plan.right) % 2 == 0
    requires DivideAndRound(plan.left, plan.right, mode) == Ok(q)
    requires r.e <= plan.e && q == r.m * Pow10(plan.e - r.e) && Precision(r) <= precision
    ensures RoundedToDigits(n, d, eDiff, precision, r, mode)
  {
    QuotientRoundedStep(plan.left, plan.right, q, precision, mode);
    QuotientDigits(plan.left, plan.right, q, precision, mode);
    DivScale(n, d, eDiff, precision, mode, r, plan, q);
  }

  /** What the steps of a successful `div` of nonzero operands establish: the plan's
      operands are a / b scaled to a `precision`-digit quotient, and the result is the
      rounded quotient q with zeros dropped. */
  lemma DivFacts(a: BigNumber, b: BigNumber, precision: int, mode: Rounding, r: BigNumber)
      returns (plan: DivPlan, q: int)
    requires Valid(a) && Valid(b) && IsI32(precision) && precision >= 1
    requires a.m != 0 && b.m != 0
    requires Precision(a) <= I32_MAX && Precision(b) <= I32_MAX
    requires IsHalf(mode) ==> b.m % 2 == 0
    requires Div(a, b, precision, mode) == Ok(r)
    ensures plan.right != 0
    ensures ScaledOperands(a.m, b.m, plan.e - Wrap32(a.e - b.e), plan.left, plan.right)
    ensures Mag(plan.right) * Pow10(precision - 1) <= Mag(plan.left) <= Mag(plan.right) * Pow10(precision)
    ensures IsHalf(mode) ==> Mag(plan.right) % 2 == 0
    ensures DivideAndRound(plan.left, plan.right, mode) == Ok(q)
    ensures r.e <= plan.e && q == r.m * Pow10(plan.e - r.e) && Precision(r) <= precision
  {
    plan, q := DivSteps(a, b, precision, mode, r);
    PlanFacts(a, b, precision, plan);
    if IsHalf(mode) {
      EvenScaledDivisor(a.m, b.m, plan.e - Wrap32(a.e - b.e), plan.left, plan.right);
    }
    DivDigits(a, b, precision, mode, r, plan, q);
  }

  /** Trimming the quotient and limiting it to `precision` digits only drops zeros. */
  lemma DivDigits(a: BigNumber, b: BigNumber, precision: int, mode: Rounding, r: BigNumber, plan: DivPlan, q: int)
    requires IsI32(precision) && precision >= 1
    requires IsI32(plan.e) && plan.right != 0
    requires Mag(plan.right) * Pow10(precision - 1) <= Mag(plan.left) <= Mag(plan.right) * Pow10(precision)
    requires IsHalf(mode) ==> Mag(plan.right) % 2 == 0
    requires DivideAndRound(plan.left, plan.right, mode) == Ok(q)
    requires DoRound(TrimZeros(q, plan.e, Wrap32(a.e - b.e)), precision, mode) == Ok(r)
    ensures r.e <= plan.e && q == r.m * Pow10(plan.e - r.e)
  {
    QuotientDigits(plan.left, plan.right, q, precision, mode);
    TrimThenRound(q, plan.e, Wrap32(a.e - b.e), precision, TrimZeros(q, plan.e, Wrap32(a.e - b.e)), r, mode);
  }

  /** The rounding argument for `div`, from the facts its steps establish. */
  lemma DivFinal(a: BigNumber, b: BigNumber, precision: int, mode: Rounding, r: BigNumber, plan: DivPlan, q: int)
    requires a.m != 0 && b.m != 0 && plan.right != 0 && precision >= 1
    requires ScaledOperands(a.m, b.m, plan.e - Wrap32(a.e - b.e), plan.left, plan.right)
    requires Mag(plan.right) * Pow10(precision - 1) <= Mag(plan.left)
    requires IsHalf(mode) ==> Mag(plan.right) % 2 == 0
    requires DivideAndRound(plan.left, plan.right, mode) == Ok(q)
    requires r.e <= plan.e && q == r.m * Pow10(plan.e - r.e)
    ensures QuotientRounded(a.m, b.m, r.e - Wrap32(a.e - b.e), r.m, mode)
  {
    QuotientRoundedStep(plan.left, plan.right, q, precision, mode);
    RescaledQuotient(a.m, b.m, plan.e - Wrap32(a.e - b.e), plan.left, plan.right, q, plan.e - r.e, r.m,
                     r.e - Wrap32(a.e - b.e), mode);
  }

  /** A successful `div` of nonzero operands went through a plan, an integer division and a
      final digit limit. */
  lemma DivSteps(a: BigNumber, b: BigNumber, precision: int, mode: Rounding, r: BigNumber)
      returns (plan: DivPlan, q: int)
    requires Valid(a) && Valid(b) && IsI32(precision)
    requires a.m != 0 && b.m != 0
    requires Div(a, b, precision, mode) == Ok(r)
    ensures PlanDiv(a, b, Wrap32(a.e - b.e), precision) == Ok(plan) && plan.right != 0
    ensures DivideAndRound(plan.left, plan.right, mode) == Ok(q)
    ensures DoRound(TrimZeros(q, plan.e, Wrap32(a.e - b.e)), precision, mode) == Ok(r)
  {
    assert DivNonzero(a, b, precision, mode) == Ok(r);
    plan, q := NonzeroSteps(a, b, precision, mode, r);
  }

  lemma NonzeroSteps(a: BigNumber, b: BigNumber, precision: int, mode: Rounding, r: BigNumber)
      returns (plan: DivPlan, q: int)
    requires Valid(a) && Valid(b) && a.m != 0 && b.m != 0
    requires DivNonzero(a, b, precision, mode) == Ok(r)
    ensures PlanDiv(a, b, Wrap32(a.e - b.e), precision) == Ok(plan) && plan.right != 0
    ensures DivideAndRound(plan.left, plan.right, mode) == Ok(q)
    ensures DoRound(TrimZeros(q, plan.e, Wrap32(a.e - b.e)), precision, mode) == Ok(r)
  {
    var eDiff := Wrap32(a.e - b.e);
    plan := NonzeroPlan(a, b, eDiff, precision, mode, r);
    q := PlannedSteps(a, b, eDiff, plan, precision, mode, r);
  }

  /** A successful `div` of nonzero operands had a plan, and its steps after the plan succeeded. */
  lemma NonzeroPlan(a: BigNumber, b: BigNumber, eDiff: int, precision: int, mode: Rounding, r: BigNumber)
      returns (plan: DivPlan)
    requires Valid(a) && Valid(b) && b.m != 0 && eDiff == Wrap32(a.e - b.e)
    requires DivNonzero(a, b, precision, mode) == Ok(r)
    ensures PlanDiv(a, b, eDiff, precision) == Ok(plan)
    ensures IsI32(plan.e) && ScaledOperands(a.m, b.m, plan.e - eDiff, plan.left, plan.right)
    ensures DivPlanned(a, b, eDiff, plan, precision, mode) == Ok(r)
  {
    plan := PlanDiv(a, b, eDiff, precision).value;
  }

  lemma PlannedSteps(a: BigNumber, b: BigNumber, eDiff: int, plan: DivPlan, precision: int, mode: Rounding, r: BigNumber)
      returns (q: int)
    requires b.m != 0 && a.m != 0 && IsI32(eDiff) && IsI32(plan.e)
    requires ScaledOperands(a.m, b.m, plan.e - eDiff, plan.left, plan.right)
    requires DivPlanned(a, b, eDiff, plan, precision, mode) == Ok(r)
    ensures plan.right != 0
    ensures DivideAndRound(plan.left, plan.right, mode) == Ok(q)
    ensures DoRound(TrimZeros(q, plan.e, eDiff), precision, mode) == Ok(r)
  {
    NonzeroScaled(a.m, b.m, plan.e - eDiff, plan.left, plan.right);
    q := DivideAndRound(plan.left, plan.right, mode).value;
  }

  /** The plan's operands are a / b scaled to a `precision`-digit quotient. */
  lemma PlanFacts(a: BigNumber, b: BigNumber, precision: int, plan: DivPlan)
    requires Valid(a) && Valid(b) && IsI32(precision) && precision >= 1
    requires a.m != 0 && b.m != 0
    requires Precision(a) <= I32_MAX && Precision(b) <= I32_MAX
    requires PlanDiv(a, b, Wrap32(a.e - b.e), precision) == Ok(plan)
    ensures IsI32(plan.e)
    ensures ScaledOperands(a.m, b.m, plan.e - Wrap32(a.e - b.e), plan.left, plan.right)
    ensures Mag(plan.right) * Pow10(precision - 1) <= Mag(plan.left) <= Mag(plan.right) * Pow10(precision)
  {
  }

  /** The integer division of the planned operands rounds correctly: the dividend is at least
      the divisor, and an even divisor leaves no false tie. */
  lemma QuotientRoundedStep(left: int, right: int, q: int, p: int, mode: Rounding)
    requires right != 0 && p >= 1
    requires Mag(right) * Pow10(p - 1) <= Mag(left)
    requires IsHalf(mode) ==> Mag(right) % 2 == 0
    requires DivideAndRound(left, right, mode) == Ok(q)
    ensures Rounded(left, right, q, mode)
  {
    MulAtLeast(Mag(right), Pow10(p - 1));
    if IsHalf(mode) {
      NoTieAgainstEven(Mag(TRem(left, right)), Mag(right));
    }
    DivideAndRoundIsRounded(left, right, mode);
  }

  /** ... and lands on a quotient of `p` digits, or exactly 10^p. */
  lemma QuotientDigits(left: int, right: int, q: int, p: int, mode: Rounding)
    requires right != 0 && p >= 1
    requires Mag(right) * Pow10(p - 1) <= Mag(left) <= Mag(right) * Pow10(p)
    requires IsHalf(mode) ==> Mag(right) % 2 == 0
    requires DivideAndRound(left, right, mode) == Ok(q)
    ensures Pow10(p - 1) <= Mag(q) <= Pow10(p)
  {
    QuotientRoundedStep(left, right, q, p, mode);
    RoundedClose(left, right, q, mode);
    QuotientBounds(if right < 0 then -left else left, Mag(right), q, p);
  }

  /** A quotient within one divisor D of n, with n between D * 10^(p-1) and D * 10^p in
      magnitude, lies between 10^(p-1) and 10^p in magnitude. */
  lemma QuotientBounds(n: int, D: int, q: int, p: int)
    requires D > 0 && p >= 1
    requires D * Pow10(p - 1) <= Mag(n) <= D * Pow10(p)
    requires Mag(q * D - n) < D
    ensures Pow10(p - 1) <= Mag(q) <= Pow10(p)
  {
    if n >= 0 {
      BetweenBounds(n, D, q, Pow10(p - 1), Pow10(p));
    } else {
      assert (-q) * D - (-n) == -(q * D - n);
      BetweenBounds(-n, D, -q, Pow10(p - 1), Pow10(p));
    }
  }

  /** A correctly rounded quotient is within one divisor of the dividend. */
  lemma RoundedClose(n: int, d: int, q: int, mode: Rounding)
    requires d != 0 && Rounded(n, d, q, mode)
    ensures Mag(q * Mag(d) - (if d < 0 then -n else n)) < Mag(d)
  {
  }

  /** Within one divisor of n, q * D pins q between the bounds that bracket n. */
  lemma BetweenBounds(n: int, D: int, q: int, lo: int, hi: int)
    requires D > 0 && D * lo <= n <= D * hi && Mag(q * D - n) < D
    ensures lo <= q <= hi
  {
    if q < lo {
      MulLe(q, lo - 1, D);
    }
    if q > hi {
      MulLe(hi + 1, q, D);
    }
  }

  /** Trimming the quotient and then limiting it to p digits changes no digit: the quotient
      has p digits, or it is 10^p, which loses only zeros. */
  lemma TrimThenRound(q: int, e: int, eDiff: int, p: int, t: BigNumber, r: BigNumber, mode: Rounding)
    requires IsI32(e) && IsI32(eDiff) && p >= 1 && Pow10(p - 1) <= Mag(q) <= Pow10(p)
    requires t == TrimZeros(q, e, eDiff) && DoRound(t, p, mode) == Ok(r)
    ensures r.e <= e && r.m * Pow10(e - r.e) == q
  {
    var j := e - t.e;
    DigitsBetween(Mag(q), p);
    TrimmedDigits(q, e, t);
    if Precision(t) <= p {
      assert r == t && r.m * Pow10(0) == r.m;
    } else {
      if j > 0 {
        MagScaled(t.m, j);
        NumDigitsShift(Mag(t.m), j);
        assert false;
      }
      assert t.m * Pow10(0) == t.m;
      Pow10IsPow10(p);
    }
    ShiftTo(r.m, t.e - r.e, j, e - r.e);
  }

  /** A quotient of left / right rounded, then divided exactly by 10^J, is n / d rounded at
      scale k - J, when left / right is n / d * 10^k. */
  lemma RescaledQuotient(n: int, d: int, k: int, left: int, right: int, q: int, J: nat, q': int, k': int, mode: Rounding)
    requires d != 0 && right != 0 && ScaledOperands(n, d, k, left, right)
    requires Rounded(left, right, q, mode) && q == q' * Pow10(J) && k' == k - J
    ensures QuotientRounded(n, d, k', q', mode)
  {
    RoundedComposeSigned(left, right, q, J, q', mode);
    ScaledRounded(n, d, k, left, right, J, q', mode);
  }

  /** Dividing a correctly rounded quotient exactly by 10^J rounds against a divisor 10^J
      times larger; the divisor's sign may be either. */
  lemma RoundedComposeSigned(n: int, d: int, q1: int, J: nat, q2: int, mode: Rounding)
    requires d != 0 && Rounded(n, d, q1, mode) && q1 == q2 * Pow10(J)
    ensures d * Pow10(J) != 0 && Rounded(n, d * Pow10(J), q2, mode)
  {
    var n' := if d < 0 then -n else n;
    NonzeroScaledDivisor(d, J);
    MagScaled(d, J);
    assert (d * Pow10(J) < 0) == (d < 0);
    RoundedCompose(n', Mag(d), q1, Pow10(J), q2, mode);
  }

  /** Rounding left / (right * 10^J) is rounding n / d at scale k - J, when left / right is
      n / d * 10^k. */
  lemma ScaledRounded(n: int, d: int, k: int, left: int, right: int, J: nat, q: int, mode: Rounding)
    requires d != 0 && ScaledOperands(n, d, k, left, right) && right * Pow10(J) != 0
    requires Rounded(left, right * Pow10(J), q, mode)
    ensures QuotientRounded(n, d, k - J, q, mode)
  {
    if k >= 0 {
      QuotientRoundedNormal(n, d, k, J, q, mode);
    } else {
      ShiftTo(d, -k, J, J - k);
      TimesPow10Zero(n);
      QuotientRoundedNormal(n, d, 0, J - k, q, mode);
    }
  }

  lemma TimesPow10Zero(n: int)
    ensures n * Pow10(0) == n
  {
  }

  /** An even divisor stays even when scaled. */
  lemma EvenScaledDivisor(n: int, d: int, k: int, left: int, right: int)
    requires d % 2 == 0 && ScaledOperands(n, d, k, left, right)
    ensures Mag(right) % 2 == 0
  {
    var x := d / 2;
    assert d == 2 * x;
    var y := if k < 0 then x * Pow10(-k) else x;
    assert right == 2 * y by {
      if k < 0 {
        MulAssoc(2, Pow10(-k), x);
      }
    }
    EvenMag(y);
  }

  lemma EvenMag(y: int)
    ensures Mag(2 * y) % 2 == 0
  {
    if y < 0 {
      assert Mag(2 * y) == 2 * -y;
    }
  }

  lemma NoTieAgainstEven(x: int, D: int)
    requires D % 2 == 0
    ensures 2 * x + 1 != D
  {
  }

  lemma NonzeroScaled(n: int, d: int, k: int, left: int, right: int)
    requires d != 0 && ScaledOperands(n, d, k, left, right)
    ensures right != 0
  {
  }

  /** The decision `RoundedPos` makes, as a function of the comparisons it reads. */
  predicate Decide(mode: Rounding, inUnit: bool, atLeast: bool, atMost: bool, nonNeg: bool, nonPos: bool,
                   exact: bool, nearest: bool, tie: bool, above: bool, below: bool, even: bool)
  {
    inUnit &&
    match mode
    case Up => atLeast
    case Down => atMost
    case Ceil => nonNeg
    case Floor => nonPos
    case NoRounding => exact
    case HalfUp => nearest && (tie ==> above)
    case HalfDown => nearest && (tie ==> below)
    case HalfEven => nearest && (tie ==> even)
  }

  lemma RoundedPosDecide(n: int, d: int, q: int, mode: Rounding)
    requires d > 0
    ensures RoundedPos(n, d, q, mode) ==
      Decide(mode, Mag(q * d - n) < d, Mag(q * d) >= Mag(n), Mag(q * d) <= Mag(n), q * d - n >= 0,
             q * d - n <= 0, q * d - n == 0, 2 * Mag(q * d - n) <= d, 2 * Mag(q * d - n) == d,
             Mag(q * d) > Mag(n), Mag(q * d) < Mag(n), q % 2 == 0)
  {
  }

  /** A common positive factor of dividend and divisor does not change which quotients are
      correctly rounded: every test in `RoundedPos` compares quantities that all scale by it. */
  lemma RoundedPosScale(n: int, d: int, q: int, c: int, mode: Rounding)
    requires d > 0 && c > 0
    ensures RoundedPos(n * c, d * c, q, mode) <==> RoundedPos(n, d, q, mode)
  {
    var N, D := n * c, d * c;
    MulLtBoth(0, d, c);
    ErrScale(q, d, n, c);
    ErrorTestsScale(q * d - n, q * D - N, d, D, c);
    SizeTestsScale(q * d, n, q * D, N, c);
    RoundedPosDecide(N, D, q, mode);
    RoundedPosDecide(n, d, q, mode);
  }

  lemma ErrorTestsScale(err: int, err': int, d: int, D: int, c: int)
    requires c > 0 && err' == err * c && D == d * c
    ensures Mag(err') < D <==> Mag(err) < d
    ensures 2 * Mag(err') <= D <==> 2 * Mag(err) <= d
    ensures 2 * Mag(err') == D <==> 2 * Mag(err) == d
    ensures err' >= 0 <==> err >= 0
    ensures err' <= 0 <==> err <= 0
    ensures err' == 0 <==> err == 0
  {
    MagScale(err, c);
    CmpScale(Mag(err), d, c);
    CmpScale(2 * Mag(err), d, c);
    assert (2 * Mag(err)) * c == 2 * (Mag(err) * c);
    CmpScale(0, err, c);
  }

  lemma SizeTestsScale(u: int, v: int, U: int, V: int, c: int)
    requires c > 0 && U == u * c && V == v * c
    ensures Mag(U) >= Mag(V) <==> Mag(u) >= Mag(v)
    ensures Mag(U) <= Mag(V) <==> Mag(u) <= Mag(v)
    ensures Mag(U) > Mag(V) <==> Mag(u) > Mag(v)
    ensures Mag(U) < Mag(V) <==> Mag(u) < Mag(v)
  {
    MagScale(u, c);
    MagScale(v, c);
    CmpScale(Mag(v), Mag(u), c);
  }

  /** The same for `Rounded`, whose divisor may be negative. */
  lemma RoundedScale(n: int, d: int, q: int, c: int, N: int, D: int, mode: Rounding)
    requires d != 0 && c > 0 && N == n * c && D == d * c
    ensures D != 0
    ensures Rounded(N, D, q, mode) <==> Rounded(n, d, q, mode)
  {
    var n' := if d < 0 then -n else n;
    MagScale(d, c);
    assert (D < 0) == (d < 0);
    assert (if D < 0 then -N else N) == n' * c;
    RoundedPosScale(n', Mag(d), q, c, mode);
  }

  /** Rounding n * 10^X / (d * 10^Y) is rounding n / d at scale X - Y. */
  lemma QuotientRoundedNormal(n: int, d: int, X: nat, Y: nat, q: int, mode: Rounding)
    requires d != 0
    ensures d * Pow10(Y) != 0
    ensures Rounded(n * Pow10(X), d * Pow10(Y), q, mode) <==> QuotientRounded(n, d, X - Y, q, mode)
  {
    var i, j := PosPart(X - Y), PosPart(-(X - Y));
    var c := if X >= Y then Y else X;
    assert i + c == X && j + c == Y;
    NonzeroScaledDivisor(d, j);
    ShiftTo(n, i, c, X);
    ShiftTo(d, j, c, Y);
    RoundedScale(n * Pow10(i), d * Pow10(j), q, Pow10(c), n * Pow10(X), d * Pow10(Y), mode);
    QuotientRoundedUnfold(n, d, X - Y, i, j, q, mode);
  }

  lemma QuotientRoundedUnfold(n: int, d: int, k: int, i: nat, j: nat, q: int, mode: Rounding)
    requires d != 0 && i == PosPart(k) && j == PosPart(-k)
    ensures d * Pow10(j) != 0
    ensures QuotientRounded(n, d, k, q, mode) == Rounded(n * Pow10(i), d * Pow10(j), q, mode)
  {
    NonzeroScaledDivisor(d, j);
  }

  lemma ErrScale(q: int, d: int, n: int, c: int)
    ensures q * (d * c) - n * c == (q * d - n) * c
    ensures q * (d * c) == (q * d) * c
  {
  }

  lemma MagScale(x: int, c: int)
    requires c > 0
    ensures Mag(x * c) == Mag(x) * c
  {
    if x < 0 {
      assert x * c == -(Mag(x) * c);
    }
  }

  lemma CmpScale(x: int, y: int, c: int)
    requires c > 0
    ensures x < y <==> x * c < y * c
    ensures x == y <==> x * c == y * c
  {
    if x < y {
      MulLtBoth(x, y, c);
    } else if y < x {
      MulLtBoth(y, x, c);
    }
  }

  /** The integer division `div` performs: `left / right`, whose quotient is read at scale
      `e`. */
  datatype DivPlan = DivPlan(left: int, right: int, e: int)

  /** left / right is n / d * 10^k, written without negative powers of ten. */
  predicate ScaledOperands(n: int, d: int, k: int, left: int, right: int) {
    if k >= 0 then left == n * Pow10(k) && right == d
    else left == n && right == d * Pow10(-k)
  }

  /** The normalization and rescaling steps of `div` for nonzero operands: with both mantissas
      read as fractions in [0.1, 1), the divisor's digit count drops by one when the dividend's
      fraction is the larger, and the dividend (or else the divisor) is scaled so that the
      integer quotient has `precision` digits. Every scale sum is an i64 narrowed to i32. */
  function PlanDiv(a: BigNumber, b: BigNumber, eDiff: int, precision: int): (r: Result<DivPlan>)
    requires IsI32(eDiff)
    ensures r.Ok? ==> IsI32(r.value.e) && ScaledOperands(a.m, b.m, r.value.e - eDiff, r.value.left, r.value.right)
    ensures r.Ok? && a.m != 0 && b.m != 0 && precision >= 1 && Precision(a) <= I32_MAX && Precision(b) <= I32_MAX ==>
      Mag(r.value.right) * Pow10(precision - 1) <= Mag(r.value.left) <= Mag(r.value.right) * Pow10(precision)
    ensures r.Err? ==> r.error == IntegerOverflow
  {
    var leftP := Precision(a);
    var rightP0 := Precision(b);
    var cmp := CompareMagnitudeNormalized(a.m, leftP, b.m, rightP0);
    var rightP := if cmp > 0 then rightP0 - 1 else rightP0;
    var e :- OverflowGuard(eDiff + rightP - leftP + precision, false);
    var s :- OverflowGuard(precision + rightP - leftP, false);
    if s > 0 then
      var r := DivPlan(MulPowTen(a.m, s), b.m, e);
      PlanBounds(a.m, b.m, precision, rightP, s, r);
      Ok(r)
    else ScaleDivisor(a, b, precision, leftP, rightP, s, e)
  }

  /** The branch of `PlanDiv` that scales the divisor up instead of the dividend. */
  function ScaleDivisor(a: BigNumber, b: BigNumber, precision: int, leftP: int, rightP: int, s: int, e: int)
    : (r: Result<DivPlan>)
    requires leftP == Precision(a) && IsI32(e) && s <= 0 && IsI32(s) && s == precision + rightP - leftP
    requires rightP == if CompareMagnitudeNormalized(a.m, leftP, b.m, Precision(b)) > 0
                       then Precision(b) - 1 else Precision(b)
    ensures r.Ok? ==> r.value.e == e && ScaledOperands(a.m, b.m, s, r.value.left, r.value.right)
    ensures r.Ok? && a.m != 0 && b.m != 0 && precision >= 1 && Precision(a) <= I32_MAX && Precision(b) <= I32_MAX ==>
      Mag(r.value.right) * Pow10(precision - 1) <= Mag(r.value.left) <= Mag(r.value.right) * Pow10(precision)
    ensures r.Err? ==> r.error == IntegerOverflow
  {
    var newScale :- OverflowGuard(leftP - precision, false);
    // newScale - rightP is -s, which lies in [0, newScale]: this guard never fires
    var rescale := OverflowGuard(newScale - rightP, false);
    assert rescale == Ok(-s);
    var r := DivPlan(a.m, MulPowTen(b.m, rescale.value), e);
    assert a.m * Pow10(0) == a.m;
    PlanBounds(a.m, b.m, precision, rightP, s, r);
    Ok(r)
  }

  /** The plan's operands have a quotient with `precision` digits, or exactly 10^precision. */
  lemma PlanBounds(n: int, d: int, p: int, rp: int, s: int, r: DivPlan)
    requires s == p + rp - NumDigits(Mag(n))
    requires ScaledOperands(n, d, s, r.left, r.right)
    requires rp == if CompareMagnitudeNormalized(n, NumDigits(Mag(n)), d, NumDigits(Mag(d))) > 0
                   then NumDigits(Mag(d)) - 1 else NumDigits(Mag(d))
    ensures n != 0 && d != 0 && p >= 1 && NumDigits(Mag(n)) <= I32_MAX && NumDigits(Mag(d)) <= I32_MAX ==>
      Mag(r.right) * Pow10(p - 1) <= Mag(r.left) <= Mag(r.right) * Pow10(p)
  {
    if n != 0 && d != 0 && p >= 1 && NumDigits(Mag(n)) <= I32_MAX && NumDigits(Mag(d)) <= I32_MAX {
      var A, B := Mag(n), Mag(d);
      NormalizedBounds(A, B, p, rp);
      if s >= 0 {
        assert r.right == d && r.left == n * Pow10(s);
        MagScaled(n, s);
        PositiveScaleBounds(A, B, p, rp, s);
      } else {
        assert r.left == n && r.right == d * Pow10(-s);
        MagScaled(d, -s);
        NegativeScaleBounds(A, B, p, rp, -s);
      }
    }
  }

  lemma MagScaled(n: int, k: nat)
    ensures Mag(n * Pow10(k)) == Mag(n) * Pow10(k)
  {
    if n < 0 {
      assert n * Pow10(k) == -(Mag(n) * Pow10(k));
    }
  }

  /** The heart of the normalization, with every power of ten non-negative: B * 10^(p-1+lp)
      <= A * 10^(p+rp) <= B * 10^(p+lp), where lp is the dividend's digit count. */
  lemma NormalizedBounds(A: int, B: int, p: int, rp: int)
    requires A >= 1 && B >= 1 && p >= 1
    requires rp == if Compare(A * Pow10(NumDigits(B)), B * Pow10(NumDigits(A))) > 0
                   then NumDigits(B) - 1 else NumDigits(B)
    ensures rp >= 0
    ensures B * Pow10(p - 1 + NumDigits(A)) <= A * Pow10(p + rp) <= B * Pow10(p + NumDigits(A))
  {
    var lp, rp0 := NumDigits(A), NumDigits(B);
    if rp == rp0 - 1 {
      // the dividend's fraction is the larger one
      assert A * Pow10(rp) < B * Pow10(lp) by {
        MulLtBoth(A, Pow10(lp), Pow10(rp));
        MulLeBoth(Pow10(rp), B, Pow10(lp));
      }
      ScaleLe(A * Pow10(rp), B * Pow10(lp), p, A, rp, p + rp, B, lp, p + lp);
      assert B * Pow10(lp) <= A * Pow10(rp0);
      ScaleLe(B * Pow10(lp), A * Pow10(rp0), p - 1, B, lp, p - 1 + lp, A, rp0, p + rp);
    } else {
      ScaleLe(A * Pow10(rp0), B * Pow10(lp), p, A, rp0, p + rp, B, lp, p + lp);
      assert B * Pow10(lp - 1) <= A * Pow10(rp0) by {
        MulLtBoth(B, Pow10(rp0), Pow10(lp - 1));
        MulLeBoth(Pow10(lp - 1), A, Pow10(rp0));
      }
      ScaleLe(B * Pow10(lp - 1), A * Pow10(rp0), p, B, lp - 1, p - 1 + lp, A, rp0, p + rp);
    }
  }

  /** x * 10^i <= y * 10^j carries over to one more factor 10^k. */
  lemma ScaleLe(u: int, v: int, k: nat, x: int, i: nat, i': nat, y: int, j: nat, j': nat)
    requires u == x * Pow10(i) && v == y * Pow10(j) && u <= v && i' == i + k && j' == j + k
    ensures x * Pow10(i') <= y * Pow10(j')
  {
    MulLeBoth(u, v, Pow10(k));
    ShiftTo(x, i, k, i');
    ShiftTo(y, j, k, j');
  }

  lemma ShiftTo(x: int, i: nat, k: nat, n: nat)
    requires n == i + k
    ensures (x * Pow10(i)) * Pow10(k) == x * Pow10(n)
  {
    Pow10At(i, k, n);
    ProductAssoc(x, Pow10(i), Pow10(k));
  }

  /** The normalized bounds read back with the dividend scaled by 10^s. */
  lemma PositiveScaleBounds(A: int, B: int, p: int, rp: int, s: nat)
    requires A >= 1 && p >= 1 && rp >= 0 && s == p + rp - NumDigits(A)
    requires B * Pow10(p - 1 + NumDigits(A)) <= A * Pow10(p + rp) <= B * Pow10(p + NumDigits(A))
    ensures B * Pow10(p - 1) <= A * Pow10(s) <= B * Pow10(p)
  {
    var lp := NumDigits(A);
    var c := Pow10(lp);
    ShiftTo(B, p - 1, lp, p - 1 + lp);
    ShiftTo(A, s, lp, p + rp);
    ShiftTo(B, p, lp, p + lp);
    CancelLe(B * Pow10(p - 1), A * Pow10(s), c);
    CancelLe(A * Pow10(s), B * Pow10(p), c);
  }

  /** The normalized bounds read back with the divisor scaled by 10^t. */
  lemma NegativeScaleBounds(A: int, B: int, p: int, rp: int, t: nat)
    requires A >= 1 && p >= 1 && rp >= 0 && t == NumDigits(A) - p - rp
    requires B * Pow10(p - 1 + NumDigits(A)) <= A * Pow10(p + rp) <= B * Pow10(p + NumDigits(A))
    ensures (B * Pow10(t)) * Pow10(p - 1) <= A <= (B * Pow10(t)) * Pow10(p)
  {
    var lp := NumDigits(A);
    var c := Pow10(p + rp);
    ShiftTo(B, t, p - 1, t + p - 1);
    ShiftTo(B, t + p - 1, p + rp, p - 1 + lp);
    ShiftTo(B, t, p, t + p);
    ShiftTo(B, t + p, p + rp, p + lp);
    assert A * 1 == A;
    CancelLe((B * Pow10(t)) * Pow10(p - 1), A, c);
    CancelLe(A, (B * Pow10(t)) * Pow10(p), c);
  }

  lemma CancelLe(x: int, y: int, c: int)
    requires c > 0 && x * c <= y * c
    ensures x <= y
  {
    if y < x {
      MulLtBoth(y, x, c);
    }
  }

  lemma MulLeBoth(a: int, b: int, c: int)
    requires a <= b && c >= 0
    ensures a * c <= b * c
  {
  }

  lemma NormalizedLeft(left: int, leftE: int, right: int, rightE: int)
    ensures 0 <= leftE <= I32_MAX && 0 <= rightE <= I32_MAX && leftE < rightE ==>
      Compare(Mag(MulPowTen(left, Wrap32(-Wrap32(leftE - rightE)))), Mag(right))
      == Compare(Mag(left) * Pow10(rightE), Mag(right) * Pow10(leftE))
  {
    if 0 <= leftE <= I32_MAX && 0 <= rightE <= I32_MAX && leftE < rightE {
      var d := rightE - leftE;
      assert Wrap32(-Wrap32(leftE - rightE)) == d;
      MagTimesPow10(left, d);
      CompareScaled(Mag(left) * Pow10(d), Mag(right), Pow10(leftE));
      Pow10At(d, leftE, rightE);
      ProductAssoc(Mag(left), Pow10(d), Pow10(leftE));
    }
  }

  lemma NormalizedRight(left: int, leftE: int, right: int, rightE: int)
    ensures 0 <= leftE <= I32_MAX && 0 <= rightE <= I32_MAX && leftE >= rightE ==>
      Compare(Mag(left), Mag(MulPowTen(right, Wrap32(leftE - rightE))))
      == Compare(Mag(left) * Pow10(rightE), Mag(right) * Pow10(leftE))
  {
    if 0 <= leftE <= I32_MAX && 0 <= rightE <= I32_MAX && leftE >= rightE {
      var d := leftE - rightE;
      assert Wrap32(leftE - rightE) == d;
      MagTimesPow10(right, d);
      CompareScaled(Mag(left), Mag(right) * Pow10(d), Pow10(rightE));
      Pow10At(d, rightE, leftE);
      ProductAssoc(Mag(right), Pow10(d), Pow10(rightE));
    }
  }

  /** Scaling a mantissa by a power of ten scales its magnitude. */
  lemma MagTimesPow10(m: int, k: int)
    ensures k >= 0 ==> Mag(MulPowTen(m, k)) == Mag(m) * Pow10(k)
  {
    if k >= 0 {
      var p := Pow10(k);
      if m < 0 {
        assert MulPowTen(m, k) == -(Mag(m) * p);
      }
    }
  }

  /** A common positive factor does not change a comparison. */
  lemma CompareScaled(x: int, y: int, c: int)
    requires c > 0
    ensures Compare(x * c, y * c) == Compare(x, y)
  {
    if x < y {
      MulLtBoth(x, y, c);
    } else if y < x {
      MulLtBoth(y, x, c);
    }
  }

  lemma MulLtBoth(a: int, b: int, c: int)
    requires a < b && c > 0
    ensures a * c < b * c
  {
  }

  lemma ProductAssoc(a: int, b: int, c: int)
    ensures (a * b) * c == a * (b * c)
  {
  }

  lemma Pow10At(a: nat, b: nat, c: nat)
    requires c == a + b
    ensures Pow10(c) == Pow10(a) * Pow10(b)
  {
    Pow10Add(a, b);
  }
}
