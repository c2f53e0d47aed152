/** Worked cases: the behaviour the library's own test suite checks, and the places where the
    code does something other than exact decimal arithmetic would. */
module Examples {
  import opened Results
  import opened Int32
  import opened Powers
  import opened DigitStrings
  import opened RoundingEngine
  import opened BigNumbers
  import opened Scaling
  import opened Parser
  import opened Formatter
  import opened Division
  import opened Comparison
  import opened ScaleAdjust
  import opened RoundTrip
  import opened Reading

  /** Magnitude and sign of a product. */
  lemma MagProduct(q: int, d: int)
    ensures Mag(q * d) == Mag(q) * Mag(d)
    ensures q != 0 && d != 0 ==> (q * d < 0 <==> (q < 0) != (d < 0))
  {
    if q < 0 && d < 0 { assert q * d == Mag(q) * Mag(d); }
    else if q < 0 { assert q * d == -(Mag(q) * Mag(d)); }
    else if d < 0 { assert q * d == -(Mag(q) * Mag(d)); }
    else { assert q * d == Mag(q) * Mag(d); }
  }

  /** Truncating division of an exact multiple gives the factor back, with no remainder. */
  lemma ExactTDiv(q: int, d: int)
    requires d != 0
    ensures TDiv(q * d, d) == q && TRem(q * d, d) == 0
  {
    var n := q * d;
    var t := TDiv(n, d);
    MagProduct(q, d);
    MulPinned(Mag(t), Mag(q), Mag(d));
    assert t == q;
  }

  /** 1/3 to five digits, rounded down and up. */
  lemma ThirdPlan()
    ensures PlanDiv(BigNumber(1, 0), BigNumber(3, 0), 0, 5) == Ok(DivPlan(100000, 3, 5))
  {
    assert NumDigits(1) == 1 && NumDigits(3) == 1;
    assert Pow10(5) == 100000;
  }

  lemma OneThirdDown()
    ensures FromFraction(1, 3, 5, Down) == Ok(BigNumber(33333, 5))
  {
    ThirdPlan();
    assert DivideAndRound(100000, 3, Down) == Ok(33333);
    TrimFixed(33333, 5, 0);
    assert NumDigits(33333) == 5;
    FractionUnfold(1, 3, 5, Down, DivPlan(100000, 3, 5), 33333, BigNumber(33333, 5));
  }

  lemma OneThirdUp()
    ensures FromFraction(1, 3, 5, Up) == Ok(BigNumber(33334, 5))
  {
    ThirdPlan();
    assert DivideAndRound(100000, 3, Up) == Ok(33334);
    TrimFixed(33334, 5, 0);
    assert NumDigits(33334) == 5;
    FractionUnfold(1, 3, 5, Up, DivPlan(100000, 3, 5), 33334, BigNumber(33334, 5));
  }

  lemma OneThirdText()
    ensures ToString(BigNumber(33333, 5)) == Ok("0.33333")
    ensures ToString(BigNumber(33334, 5)) == Ok("0.33334")
  {
    assert NatToString(3) == "3";
    assert NatToString(33) == "33";
    assert NatToString(333) == "333";
    assert NatToString(3333) == "3333";
    assert NatToString(33333) == "33333";
    assert NatToString(33334) == "33334";
    FractionText(33333);
    FractionText(33334);
    assert "0." + "33333" == "0.33333" && "0." + "33334" == "0.33334";
  }

  /** A five-digit mantissa at scale 5 prints as "0." and its digits. */
  lemma FractionText(m: nat)
    requires 10000 <= m < 100000 && m % 10 != 0
    ensures ToString(BigNumber(m, 5)) == Ok("0." + NatToString(m))
  {
    TrimFixed(m, 5, I32_MIN);
    assert Pow10(4) == 10000 && Pow10(5) == 100000;
    NumDigitsUnique(m, 5);
  }

  /** Odd divisors and the HALF modes: 1/3 to one digit comes out as 0.4, which is not 1/3
      rounded to the nearest tenth. */
  lemma OddDivisorHalfUp()
    ensures FromFraction(1, 3, 1, HalfUp) == Ok(BigNumber(4, 1))
    ensures !QuotientRounded(1, 3, 1, 4, HalfUp)
  {
    assert NumDigits(1) == 1 && NumDigits(3) == 1;
    assert PlanDiv(BigNumber(1, 0), BigNumber(3, 0), 0, 1) == Ok(DivPlan(10, 3, 1));
    assert DivideAndRound(10, 3, HalfUp) == Ok(4);
    TrimFixed(4, 1, 0);
  }

  /** The sign of 123456789 / 1234567890 follows the signs of numerator and denominator, at
      every precision: the quotient 10^p has all its zeros trimmed down to 0.1. */
  lemma SignRule(p: int, n: int, d: int)
    requires 1 <= p <= 1000 && Mag(n) == 123456789 && Mag(d) == 1234567890
    ensures FromFraction(n, d, p, HalfUp) == Ok(BigNumber(if (n < 0) == (d < 0) then 1 else -1, 1))
  {
    var s := if (n < 0) == (d < 0) then 1 else -1;
    var plan := DivPlan(n * Pow10(p + 1), d, p + 1);
    SignPlan(p, n, d);
    SignQuotient(p, n, d, s);
    TrimExact(s, p, p + 1, 0);
    FractionUnfold(n, d, p, HalfUp, plan, s * Pow10(p), BigNumber(s, 1));
  }

  /** `fromFraction` of two nonzero integers, once the plan and the integer quotient are known,
      when trimming leaves few enough digits. */
  lemma FractionUnfold(n: int, d: int, p: int, mode: Rounding, plan: DivPlan, q: int, t: BigNumber)
    requires 1 <= p <= I32_MAX && n != 0 && d != 0 && plan.right != 0
    requires PlanDiv(BigNumber(n, 0), BigNumber(d, 0), 0, p) == Ok(plan)
    requires DivideAndRound(plan.left, plan.right, mode) == Ok(q)
    requires IsI32(plan.e) && TrimZeros(q, plan.e, 0) == t && Precision(t) <= p
    ensures FromFraction(n, d, p, mode) == Ok(t)
  {
    assert Wrap32(0 - 0) == 0;
    DivUnfold(BigNumber(n, 0), BigNumber(d, 0), p, mode, plan, q, t);
  }

  /** `div` of two nonzero values, once the plan and the integer quotient are known. */
  lemma DivUnfold(a: BigNumber, b: BigNumber, p: int, mode: Rounding, plan: DivPlan, q: int, r: BigNumber)
    requires Valid(a) && Valid(b) && IsI32(p) && a.m != 0 && b.m != 0 && plan.right != 0
    requires PlanDiv(a, b, Wrap32(a.e - b.e), p) == Ok(plan)
    requires DivideAndRound(plan.left, plan.right, mode) == Ok(q)
    requires IsI32(plan.e) && DoRound(TrimZeros(q, plan.e, Wrap32(a.e - b.e)), p, mode) == Ok(r)
    ensures Div(a, b, p, mode) == Ok(r)
  {
    var eDiff := Wrap32(a.e - b.e);
    DivIsPlanned(a, b, p, mode, plan);
    PlannedUnfold(a, b, eDiff, plan, p, mode, q, r);
  }

  /** `div` of two nonzero values is the planned division under the plan `PlanDiv` returns. */
  lemma DivIsPlanned(a: BigNumber, b: BigNumber, p: int, mode: Rounding, plan: DivPlan)
    requires Valid(a) && Valid(b) && IsI32(p) && a.m != 0 && b.m != 0
    requires PlanDiv(a, b, Wrap32(a.e - b.e), p) == Ok(plan)
    ensures IsI32(plan.e) && ScaledOperands(a.m, b.m, plan.e - Wrap32(a.e - b.e), plan.left, plan.right)
    ensures Div(a, b, p, mode) == DivPlanned(a, b, Wrap32(a.e - b.e), plan, p, mode)
  {
    DivIsNonzero(a, b, p, mode);
    NonzeroIsPlanned(a, b, p, mode, plan);
  }

  lemma DivIsNonzero(a: BigNumber, b: BigNumber, p: int, mode: Rounding)
    requires Valid(a) && Valid(b) && IsI32(p) && a.m != 0 && b.m != 0
    ensures Div(a, b, p, mode) == DivNonzero(a, b, p, mode)
  {
  }

  lemma NonzeroIsPlanned(a: BigNumber, b: BigNumber, p: int, mode: Rounding, plan: DivPlan)
    requires Valid(a) && Valid(b) && b.m != 0
    requires PlanDiv(a, b, Wrap32(a.e - b.e), p) == Ok(plan)
    ensures IsI32(plan.e) && ScaledOperands(a.m, b.m, plan.e - Wrap32(a.e - b.e), plan.left, plan.right)
    ensures DivNonzero(a, b, p, mode) == DivPlanned(a, b, Wrap32(a.e - b.e), plan, p, mode)
  {
  }

  /** The last two steps of `div`, once the plan is fixed: divide, then trim and round. */
  lemma PlannedUnfold(a: BigNumber, b: BigNumber, eDiff: int, plan: DivPlan, p: int, mode: Rounding, q: int, r: BigNumber)
    requires b.m != 0 && IsI32(eDiff) && IsI32(plan.e)
    requires ScaledOperands(a.m, b.m, plan.e - eDiff, plan.left, plan.right)
    requires DivideAndRound(plan.left, plan.right, mode) == Ok(q)
    requires DoRound(TrimZeros(q, plan.e, eDiff), p, mode) == Ok(r)
    ensures DivPlanned(a, b, eDiff, plan, p, mode) == Ok(r)
  {
    NonzeroScaled(a.m, b.m, plan.e - eDiff, plan.left, plan.right);
  }

  lemma SignPlan(p: int, n: int, d: int)
    requires 1 <= p <= 1000 && Mag(n) == 123456789 && Mag(d) == 1234567890
    ensures PlanDiv(BigNumber(n, 0), BigNumber(d, 0), 0, p) == Ok(DivPlan(n * Pow10(p + 1), d, p + 1))
  {
    assert Precision(BigNumber(n, 0)) == 9 && Precision(BigNumber(d, 0)) == 10;
    assert CompareMagnitudeNormalized(n, 9, d, 10) == 0;
  }

  lemma SignQuotient(p: int, n: int, d: int, s: int)
    requires 1 <= p <= 1000 && Mag(n) == 123456789 && Mag(d) == 1234567890
    requires s == if (n < 0) == (d < 0) then 1 else -1
    ensures DivideAndRound(n * Pow10(p + 1), d, HalfUp) == Ok(s * Pow10(p))
  {
    var q := s * Pow10(p);
    assert n * Pow10(p + 1) == q * d by {
      assert Pow10(p + 1) == 10 * Pow10(p);
      assert n * 10 == s * d;
    }
    ExactTDiv(q, d);
  }

  /** The 32-bit scale difference of `div` wraps: a zero at the lowest scale divided by one at
      scale 1 lands at the highest scale. */
  lemma DivScaleWraps()
    ensures Div(BigNumber(0, I32_MIN), BigNumber(1, 1), 5, HalfUp) == Ok(BigNumber(0, I32_MAX))
  {
  }

  /** The 32-bit gap of `roundToPlaces` wraps: 5e-10 rounded to the lowest scale has a gap
      above the i32 range, the wrapped gap is negative, and the value comes back unchanged. */
  lemma PlacesGapWraps(mode: Rounding)
    ensures RoundToPlaces(BigNumber(5, 10), I32_MIN, mode) == Ok(BigNumber(5, 10))
  {
  }

  /** The three HALF modes on a tie at the fifth decimal of 1234.012345. */
  lemma TieDigits(mode: Rounding, q: int)
    requires IsHalf(mode) && q == if mode == HalfUp then 123401235 else 123401234
    ensures RoundToPlaces(BigNumber(1234012345, 6), 5, mode) == Ok(BigNumber(q, 5))
  {
    assert DivideAndRound(1234012345, 10, mode) == Ok(q);
  }

  lemma TieMantissaText()
    ensures NatToString(123401235) == "123401235"
    ensures NatToString(123401234) == "123401234"
  {
    assert NatToString(1) == "1";
    assert NatToString(12) == "12";
    assert NatToString(123) == "123";
    assert NatToString(1234) == "1234";
    assert NatToString(12340) == "12340";
    assert NatToString(123401) == "123401";
    assert NatToString(1234012) == "1234012";
    assert NatToString(12340123) == "12340123";
  }

  lemma TieText(q: int, last: char)
    requires (q == 123401235 && last == '5') || (q == 123401234 && last == '4')
    ensures ToString(BigNumber(q, 5)) == Ok("1234.0123" + [last])
  {
    TrimFixed(q, 5, I32_MIN);
    TieMantissaText();
    var s := NatToString(Mag(q));
    assert Mag(q) == q;
    TieSplit(s, last);
    assert Render(BigNumber(q, 5)) == Ok("" + s[..4] + "." + s[4..]);
  }

  /** The digits of a tie case, split four before the point. */
  lemma TieSplit(s: string, last: char)
    requires s == "12340123" + [last]
    ensures |s| - 5 == 4 && "" + s[..4] + "." + s[4..] == "1234.0123" + [last]
  {
    assert s[..4] == "1234" && s[4..] == "0123" + [last];
    assert "" + "1234" + "." + ("0123" + [last]) == "1234.0123" + [last];
  }

  lemma ToFixedTie(mode: Rounding, q: int, last: char)
    requires IsHalf(mode) && q == (if mode == HalfUp then 123401235 else 123401234)
    requires last == if mode == HalfUp then '5' else '4'
    ensures ToFixed(BigNumber(1234012345, 6), 5, mode) == Ok("1234.0123" + [last])
  {
    TieDigits(mode, q);
    TieText(q, last);
    assert NumDigits(1234012345) == 10;
    FixedPadding(BigNumber(1234012345, 6), 5, mode, BigNumber(q, 5), "1234.0123" + [last]);
  }

  /** `toFixed` of a number with a fraction and a positive number of places pads the rounded
      value's text to a length computed from x's digits before the point. */
  lemma FixedPadding(x: BigNumber, places: int, mode: Rounding, res: BigNumber, s: string)
    requires Valid(x) && IsI32(places) && places > 0 && x.m % 10 != 0 && 0 < x.e <= Precision(x)
    requires Precision(x) - x.e + places + 2 <= I32_MAX
    requires RoundToPlaces(x, places, FixedRounding(mode)) == Ok(res) && ToString(res) == Ok(s)
    ensures ToFixed(x, places, mode)
         == Ok(PadEnd(s, Precision(x) - x.e + places + 1 + (if res.m < 0 then 1 else 0), '0'))
  {
    TrimFixed(x.m, x.e, I32_MIN);
  }

  /** The library's toFixed tests for ties: HALF_UP rounds the 5 up, HALF_DOWN and HALF_EVEN
      keep the 4. */
  lemma ToFixedTieHalfUp()
    ensures ToFixed(BigNumber(1234012345, 6), 5, HalfUp) == Ok("1234.01235")
  {
    ToFixedTie(HalfUp, 123401235, '5');
    assert "1234.0123" + ['5'] == "1234.01235";
  }

  lemma ToFixedTieHalfDown()
    ensures ToFixed(BigNumber(1234012345, 6), 5, HalfDown) == Ok("1234.01234")
  {
    ToFixedTie(HalfDown, 123401234, '4');
    assert "1234.0123" + ['4'] == "1234.01234";
  }

  lemma ToFixedTieHalfEven()
    ensures ToFixed(BigNumber(1234012345, 6), 5, HalfEven) == Ok("1234.01234")
  {
    ToFixedTie(HalfEven, 123401234, '4');
    assert "1234.0123" + ['4'] == "1234.01234";
  }

  /** 1.0001 to two places: the rounded value 1.00 prints as "1", and padding it to the four
      characters "1.00" would have takes gives "1000". */
  lemma RoundsToOne()
    ensures RoundToPlaces(BigNumber(10001, 4), 2, Down) == Ok(BigNumber(100, 2))
  {
    assert DivideAndRound(10001, 100, Down) == Ok(100);
  }

  lemma ToFixedDropsPoint()
    ensures ToFixed(BigNumber(10001, 4), 2, Down) == Ok("1000")
  {
    RoundsToOne();
    TrimExact(1, 2, 2, I32_MIN);
    assert ToString(BigNumber(100, 2)) == Ok("1");
    assert NumDigits(10001) == 5;
    FixedPadding(BigNumber(10001, 4), 2, Down, BigNumber(100, 2), "1");
    PadEndBy("1", 3, '0');
    assert "1" + Repeat('0', 3) == "1000";
  }

  lemma ToFixedCorrectedKeepsPoint()
    ensures ToFixedCorrected(BigNumber(10001, 4), 2, Down) == Ok("1.00")
  {
    RoundsToOne();
    assert AtScale(BigNumber(100, 2), 2) == BigNumber(100, 2);
    RenderOneHundredths();
  }

  lemma RenderOneHundredths()
    ensures Render(BigNumber(100, 2)) == Ok("1.00")
  {
    assert NatToString(1) == "1" && NatToString(10) == "10" && NatToString(100) == "100";
    var m := NatToString(100);
    assert m[..1] == "1" && m[1..] == "00";
    assert Render(BigNumber(100, 2)) == Ok("" + "1" + "." + "00");
    assert "" + "1" + "." + "00" == "1.00";
  }

  /** 0.5 to three places: the padding leaves out the "0" before the point. */
  lemma ToFixedShortBelowOne()
    ensures ToFixed(BigNumber(5, 1), 3, Down) == Ok("0.50")
  {
    TrimFixed(5, 1, I32_MIN);
    assert NatToString(5) == "5";
    assert Render(BigNumber(5, 1)) == Ok("0." + "5");
    assert "0." + "5" == "0.5";
    FixedPadding(BigNumber(5, 1), 3, Down, BigNumber(5, 1), "0.5");
    PadEndBy("0.5", 1, '0');
    assert "0.5" + Repeat('0', 1) == "0.50";
  }

  lemma ToFixedCorrectedBelowOne()
    ensures ToFixedCorrected(BigNumber(5, 1), 3, Down) == Ok("0.500")
  {
    assert AtScale(BigNumber(5, 1), 3) == BigNumber(500, 3);
    assert NatToString(5) == "5" && NatToString(50) == "50" && NatToString(500) == "500";
    assert Render(BigNumber(500, 3)) == Ok("0." + "500");
    assert "0." + "500" == "0.500";
  }

  /** 0.05 to three places: below 0.1 the text is not padded at all. */
  lemma ToFixedUnpadded()
    ensures ToFixed(BigNumber(5, 2), 3, Down) == Ok("0.05")
  {
    PadEndBy("0.", 1, '0');
    assert Repeat('0', 1) == "0";
    assert NatToString(5) == "5";
    assert Render(BigNumber(5, 2)) == Ok("0." + "0" + "5");
    assert "0." + "0" + "5" == "0.05";
    TrimFixed(5, 2, I32_MIN);
  }

  lemma ToFixedCorrectedPadsSmall()
    ensures ToFixedCorrected(BigNumber(5, 2), 3, Down) == Ok("0.050")
  {
    assert AtScale(BigNumber(5, 2), 3) == BigNumber(50, 3);
    assert NatToString(5) == "5" && NatToString(50) == "50";
    PadEndBy("0.", 1, '0');
    assert Repeat('0', 1) == "0";
    assert Render(BigNumber(50, 3)) == Ok("0." + "0" + "50");
    assert "0." + "0" + "50" == "0.050";
  }

  /** 999.5 rounded up to no places is 1000, but only x's three integer digits are kept. */
  lemma RoundsToThousand()
    ensures RoundToPlaces(BigNumber(9995, 1), 0, Up) == Ok(BigNumber(1000, 0))
  {
    assert DivideAndRound(9995, 10, Up) == Ok(1000);
  }

  lemma ToFixedCarryCut()
    ensures ToFixed(BigNumber(9995, 1), 0, Up) == Ok("100")
  {
    RoundsToThousand();
    ThousandText();
    assert NumDigits(9995) == 4;
    TrimFixed(9995, 1, I32_MIN);
    assert OverflowGuard(3, false) == Ok(3) && Wrap32(3) == 3;
    CutThousand();
  }

  lemma CutThousand()
    ensures Substring("1000", 0, 3) == "100"
  {
    assert "1000"[0..3] == "100";
  }

  lemma ThousandText()
    ensures NatToString(1000) == "1000"
    ensures ToString(BigNumber(1000, 0)) == Ok("1000")
  {
    assert NatToString(1) == "1" && NatToString(10) == "10" && NatToString(100) == "100";
    assert 1 * Pow10(3) == 1000;
    TrimExact(1, 3, 0, I32_MIN);
    PadEndBy("1", 3, '0');
    assert Repeat('0', 3) == "000";
    assert Render(BigNumber(1, -3)) == Ok("1" + "000");
    assert "1" + "000" == "1000";
    assert TrimZeros(1000, 0, I32_MIN) == BigNumber(1, -3);
  }

  lemma ToFixedCorrectedCarry()
    ensures ToFixedCorrected(BigNumber(9995, 1), 0, Up) == Ok("1000")
  {
    RoundsToThousand();
    assert AtScale(BigNumber(1000, 0), 0) == BigNumber(1000, 0);
    ThousandText();
  }

  /** On the library's own tie test the corrected `toFixed` agrees with `ToFixed`. */
  lemma ToFixedCorrectedTie()
    ensures ToFixedCorrected(BigNumber(1234012345, 6), 5, HalfUp) == Ok("1234.01235")
  {
    TieDigits(HalfUp, 123401235);
    assert AtScale(BigNumber(123401235, 5), 5) == BigNumber(123401235, 5);
    TieText(123401235, '5');
    TrimFixed(123401235, 5, I32_MIN);
    assert "1234.0123" + ['5'] == "1234.01235";
  }

  /** A zero truncated quotient counts as positive: -0.05 rounded up to one place is +0.1. */
  lemma NegativeRoundsUpToPositive()
    ensures ToFixed(BigNumber(-5, 2), 1, Up) == Ok("0.1")
  {
    assert DivideAndRound(-5, 10, Up) == Ok(1);
    assert RoundToPlaces(BigNumber(-5, 2), 1, Up) == Ok(BigNumber(1, 1));
    assert Render(BigNumber(1, 1)) == Ok("0." + "1");
    assert "0." + "1" == "0.1";
    TrimFixed(1, 1, I32_MIN);
  }

  /** A string the reading half rejects is rejected by `fromString` with the same error. */
  lemma ReadFails(s: string, e: Error)
    requires |s| <= I32_MAX && ReadDecimal(s) == Err(e)
    ensures FromString(s, 0, HalfUp) == Err(e)
  {
  }

  /** An unsigned string the scanner rejects is rejected by `fromString` with the same error. */
  lemma ScanFails(s: string, e: Error)
    requires |s| <= I32_MAX && |s| > 0 && IsDigit(s[0]) && Scan(s, Start) == Err(e)
    ensures FromString(s, 0, HalfUp) == Err(e)
  {
    assert s[0] != '-' && s[0] != '+';
    assert ReadDecimal(s) == Err(e);
  }

  /** Each malformed string fails with its own error. */
  lemma TwoPoints()
    ensures FromString("1.2.3", 0, HalfUp) == Err(MultipleDecimalPoints)
  {
    ScanTwoPoints();
    ScanFails("1.2.3", MultipleDecimalPoints);
  }

  lemma ScanTwoPoints()
    ensures Scan("1.2.3", Start) == Err(MultipleDecimalPoints)
  {
    var st := DigitStep(Start, '1').(dot := true);
    assert Scan(".3", DigitStep(st, '2')) == Err(MultipleDecimalPoints);
    assert Scan("2.3", st) == Scan(".3", DigitStep(st, '2'));
    assert Scan(".2.3", DigitStep(Start, '1')) == Scan("2.3", st);
    assert Scan("1.2.3", Start) == Scan(".2.3", DigitStep(Start, '1'));
  }

  lemma BadCharacter()
    ensures FromString("12a", 0, HalfUp) == Err(InvalidCharacter)
  {
    ScanBadCharacter();
    ScanFails("12a", InvalidCharacter);
  }

  lemma ScanBadCharacter()
    ensures Scan("12a", Start) == Err(InvalidCharacter)
  {
    var st := DigitStep(DigitStep(Start, '1'), '2');
    assert Scan("a", st) == Err(InvalidCharacter);
    assert Scan("2a", DigitStep(Start, '1')) == Scan("a", st);
    assert Scan("12a", Start) == Scan("2a", DigitStep(Start, '1'));
  }

  lemma OnlyAPoint()
    ensures FromString("-.", 0, HalfUp) == Err(NoDigits)
  {
    assert "-."[1..] == ".";
    assert Scan(".", Start) == Scan("", Start.(dot := true));
    ReadFails("-.", NoDigits);
  }

  lemma EmptyExponent()
    ensures FromString("1e+", 0, HalfUp) == Err(NoExponentDigits)
  {
    ScanEmptyExponent();
    ScanFails("1e+", NoExponentDigits);
  }

  lemma ScanEmptyExponent()
    ensures Scan("1e+", Start) == Err(NoExponentDigits)
  {
    assert "e+"[1..] == "+" && "+"[1..] == "";
    assert ParseExp("e+") == Err(NoExponentDigits);
    assert Scan("1e+", Start) == Scan("e+", DigitStep(Start, '1'));
  }

  lemma ExponentNotADigit()
    ensures FromString("1e1x", 0, HalfUp) == Err(NotADigit)
  {
    ScanNotADigit();
    ScanFails("1e1x", NotADigit);
  }

  lemma ScanNotADigit()
    ensures Scan("1e1x", Start) == Err(NotADigit)
  {
    ExponentWithLetter();
    ScanDigitThenMark('1', "e1x", NotADigit);
    LetterExponentText();
  }

  lemma LetterExponentText()
    ensures ['1'] + "e1x" == "1e1x"
  {
  }

  lemma ExponentWithLetter()
    ensures ParseExp("e1x") == Err(NotADigit)
  {
    var body := "e1x"[1..];
    assert body == "1x" && SkipExpZeros(body) == body;
    assert body[1] == 'x' && !IsDigit(body[1]);
  }

  lemma LongExponent()
    ensures FromString("1e12345678901", 0, HalfUp) == Err(TooManyExponentDigits)
  {
    ScanLongExponent();
    ScanFails("1e12345678901", TooManyExponentDigits);
  }

  /** A digit, then an exponent mark: the scanner fails as the exponent does. */
  lemma ScanDigitThenMark(c: char, t: string, e: Error)
    requires IsDigit(c) && |t| >= 1 && (t[0] == 'e' || t[0] == 'E') && ParseExp(t) == Err(e)
    ensures Scan([c] + t, Start) == Err(e)
  {
    assert ([c] + t)[0] == c && ([c] + t)[1..] == t;
  }

  /** Eleven or more exponent digits starting with a nonzero one are too many. */
  lemma ExponentTooLong(t: string)
    requires |t| >= 12 && '1' <= t[1] <= '9'
    ensures ParseExp(t) == Err(TooManyExponentDigits)
  {
    var body := t[1..];
    assert body[0] == t[1];
    assert SkipExpZeros(body) == body;
  }

  lemma ScanLongExponent()
    ensures Scan("1e12345678901", Start) == Err(TooManyExponentDigits)
  {
    ExponentTooLong("e12345678901");
    ScanDigitThenMark('1', "e12345678901", TooManyExponentDigits);
    LongExponentText();
  }

  lemma LongExponentText()
    ensures ['1'] + "e12345678901" == "1e12345678901"
  {
  }

  /** `floor` of -9.5 is -10, kept as -1 at scale -1, and `toBigInt` hands back the -1. */
  lemma FloorCarry()
    ensures FloorOf(BigNumber(-95, 1)) == Ok(BigNumber(-1, -1))
    ensures ToBigInt(BigNumber(-95, 1)) == Ok(-1)
  {
    assert NumDigits(95) == 2;
  }

  /** Without an integer part `floor` changes nothing, so 0.1234 gives the integer 1234; an
      integer with a negative scale gives its unscaled mantissa. */
  lemma ToBigIntUnscaled()
    ensures ToBigInt(BigNumber(1234, 4)) == Ok(1234)
    ensures ToBigInt(BigNumber(12, -2)) == Ok(12)
  {
    assert NumDigits(1234) == 4 && NumDigits(12) == 2;
  }

  /** `floor` and `ceil` leave 0.5 and -0.5 unchanged: they have no integer digits to round to. */
  lemma FloorBelowOne()
    ensures FloorOf(BigNumber(5, 1)) == Ok(BigNumber(5, 1))
    ensures CeilOf(BigNumber(-5, 1)) == Ok(BigNumber(-5, 1))
  {
    assert NumDigits(5) == 1;
  }

  /** The corrected versions: floor(0.5) = 0, floor(-0.5) = -1, ceil(-0.5) = 0, ceil(0.5) = 1. */
  lemma FloorCorrectedBelowOne()
    ensures FloorCorrected(BigNumber(5, 1)) == BigNumber(0, 0)
    ensures FloorCorrected(BigNumber(-5, 1)) == BigNumber(-1, 0)
    ensures CeilCorrected(BigNumber(-5, 1)) == BigNumber(0, 0)
    ensures CeilCorrected(BigNumber(5, 1)) == BigNumber(1, 0)
  {
    assert Pow10(1) == 10;
  }

  /** The integer parts the library's tests expect: 0 for 0.1234, -0.1234, 0.9876 and -0.9876,
      and -123456789 for -123456789.1234. The integer 1.2e3 (12 at scale -2) gives 1200. */
  lemma ToBigIntCorrectedCases()
    ensures ToBigIntCorrected(BigNumber(1234, 4)) == 0
    ensures ToBigIntCorrected(BigNumber(-1234, 4)) == 0
    ensures ToBigIntCorrected(BigNumber(9876, 4)) == 0
    ensures ToBigIntCorrected(BigNumber(-9876, 4)) == 0
    ensures ToBigIntCorrected(BigNumber(-1234567891234, 4)) == -123456789
    ensures ToBigIntCorrected(BigNumber(12, -2)) == 1200
  {
    assert Pow10(4) == 10000 && Pow10(2) == 100;
  }

  /** As written, `toBigInt` of -123456789.1234 is the floor -123456790, where the test
      expects -123456789. */
  lemma ToBigIntNegativeFloor()
    ensures ToBigInt(BigNumber(-1234567891234, 4)) == Ok(-123456790)
  {
    assert NumDigits(1234567891234) == 13;
    assert Pow10(4) == 10000;
  }

  /** 0.9857463 > 0.87846543859709: equal integer parts, so the shorter mantissa is scaled. */
  lemma CompareFractions()
    ensures Gt(BigNumber(9857463, 7), BigNumber(87846543859709, 14))
  {
    assert NumDigits(9857463) == 7;
    assert NumDigits(87846543859709) == 14;
  }

  /** A well-formed text whose number ends in a nonzero digit and has at most the default
      precision's digits reads as exactly that number. */
  lemma ReadsAs(sg: string, a: string, b: string, dot: bool, x: string, s: string, m: int, e: int)
    requires Pieces(sg, a, b, dot, x) && Text(sg, a, b, dot, x) == s && |s| <= I32_MAX
    requires Fits(b, x) && Denoted(sg, a, b, x) == BigNumber(m, e)
    requires m % 10 != 0 && NumDigits(Mag(m)) <= DefaultPrecision
    ensures FromString(s, DefaultPrecision, DefaultRounding) == Ok(BigNumber(m, e))
  {
    ReadNumber(sg, a, b, dot, x);
    FinishRead(s, BigNumber(m, e), DefaultPrecision, DefaultRounding);
    TrimFixed(m, e, I32_MIN);
  }

  lemma Digits1234()
    ensures AllDigits("1234") && DigitsValue("1234") == 1234
  {
    assert NatToString(1234) == "1234";
    NatToStringValue(1234);
  }

  lemma Digits123442()
    ensures AllDigits("123442") && DigitsValue("123442") == 123442
  {
    assert NatToString(123442) == "123442";
    NatToStringValue(123442);
  }

  lemma ExponentFive()
    ensures ExponentText("E5") && ExponentValue("E5") == 5
    ensures ExponentText("E-5") && ExponentValue("E-5") == -5
  {
    assert ExpDigits("E5") == "5" && !ExpNegative("E5");
    assert ExpDigits("E-5") == "5" && ExpNegative("E-5");
    assert DigitsValue("5") == 5;
  }

  /** "1234E5" is 1234 at scale -5. */
  lemma ReadIntegerExponent()
    ensures FromString("1234E5", DefaultPrecision, DefaultRounding) == Ok(BigNumber(1234, -5))
  {
    Digits1234();
    ExponentFive();
    assert "1234" + "" == "1234";
    assert Text("", "1234", "", false, "E5") == "1234E5";
    assert NumDigits(1234) == 4;
    ReadsAs("", "1234", "", false, "E5", "1234E5", 1234, -5);
  }

  /** "1234.42E-5" is 123442 at scale 7. */
  lemma ReadFractionExponent()
    ensures FromString("1234.42E-5", DefaultPrecision, DefaultRounding) == Ok(BigNumber(123442, 7))
  {
    Digits123442();
    ExponentFive();
    FractionExponentText();
    assert NumDigits(123442) == 6;
    ReadsAs("", "1234", "42", true, "E-5", "1234.42E-5", 123442, 7);
  }

  lemma FractionExponentText()
    ensures "1234" + "42" == "123442"
    ensures Text("", "1234", "42", true, "E-5") == "1234.42E-5"
  {
  }

  /** ".1234" and "-.1234": no digit before the point. */
  lemma ReadBarePoint()
    ensures FromString(".1234", DefaultPrecision, DefaultRounding) == Ok(BigNumber(1234, 4))
    ensures FromString("-.1234", DefaultPrecision, DefaultRounding) == Ok(BigNumber(-1234, 4))
  {
    Digits1234();
    BarePointText();
    assert NumDigits(1234) == 4;
    ReadsAs("", "", "1234", true, "", ".1234", 1234, 4);
    ReadsAs("-", "", "1234", true, "", "-.1234", -1234, 4);
  }

  lemma BarePointText()
    ensures "" + "1234" == "1234"
    ensures Text("", "", "1234", true, "") == ".1234"
    ensures Text("-", "", "1234", true, "") == "-.1234"
  {
  }

  /** "+1234.42": a plus sign is read and dropped. */
  lemma ReadPlusSign()
    ensures FromString("+1234.42", DefaultPrecision, DefaultRounding) == Ok(BigNumber(123442, 2))
  {
    Digits123442();
    PlusSignText();
    assert NumDigits(123442) == 6;
    ReadsAs("+", "1234", "42", true, "", "+1234.42", 123442, 2);
  }

  lemma PlusSignText()
    ensures "1234" + "42" == "123442"
    ensures Text("+", "1234", "42", true, "") == "+1234.42"
  {
  }

  /** "00.123400": leading zeros are skipped and trailing ones trimmed. */
  lemma ReadPaddedZeros()
    ensures FromString("00.123400", DefaultPrecision, DefaultRounding) == Ok(BigNumber(1234, 4))
  {
    PaddedDigits();
    PaddedZerosText();
    var n := BigNumber(123400, 6);
    assert Denoted("", "00", "123400", "") == n;
    ReadNumber("", "00", "123400", true, "");
    assert NumDigits(123400) == 6;
    FinishRead("00.123400", n, DefaultPrecision, DefaultRounding);
    assert 123400 == 1234 * Pow10(2);
    TrimExact(1234, 2, 6, I32_MIN);
  }

  lemma PaddedDigits()
    ensures AllDigits("00123400") && DigitsValue("00123400") == 123400
  {
    assert NatToString(1234) == "1234";
    NatToStringValue(1234);
    ZerosValue(2);
    assert Repeat('0', 2) == "00";
    DigitsValueAppend("1234", "00");
    assert "1234" + "00" == "123400";
    LeadingZeroValue("0123400");
    LeadingZeroValue("123400");
    assert ['0'] + "123400" == "0123400" && ['0'] + "0123400" == "00123400";
  }

  lemma PaddedZerosText()
    ensures "00" + "123400" == "00123400"
    ensures Text("", "00", "123400", true, "") == "00.123400"
  {
  }

  /** What the read examples print: the texts the test suite expects back. */
  lemma ShiftedIntegerText()
    ensures ToString(BigNumber(1234, -5)) == Ok("123400000")
  {
    TrimFixed(1234, -5, I32_MIN);
    assert NatToString(1234) == "1234";
    assert Repeat('0', 5) == "00000";
    assert PadEnd("1234", 9, '0') == "1234" + "00000";
    assert IntToString(1234) == "1234";
    assert OverflowGuard(5, false) == Ok(5);
    assert Wrap32(4 + 5) == 9;
    assert Render(BigNumber(1234, -5)) == Ok(PadEnd("1234", 9, '0'));
    assert ToString(BigNumber(1234, -5)) == Render(BigNumber(1234, -5));
    ZerosAppended();
  }

  lemma ZerosAppended()
    ensures "1234" + "00000" == "123400000"
  {
  }

  lemma PaddedFractionText()
    ensures ToString(BigNumber(123442, 7)) == Ok("0.0123442")
  {
    TrimFixed(123442, 7, I32_MIN);
    assert NatToString(123442) == "123442";
    assert PadEnd("0.", 3, '0') == "0." + Repeat('0', 1) == "0.0";
    assert Wrap32(2 + 1) == 3;
    assert Render(BigNumber(123442, 7)) == Ok("0.0" + "123442");
    assert ToString(BigNumber(123442, 7)) == Render(BigNumber(123442, 7));
    PaddedFractionLiteral();
  }

  lemma PaddedFractionLiteral()
    ensures "0.0" + "123442" == "0.0123442"
  {
  }

  lemma PureFractionText()
    ensures ToString(BigNumber(1234, 4)) == Ok("0.1234")
    ensures ToString(BigNumber(-1234, 4)) == Ok("-0.1234")
  {
    TrimFixed(1234, 4, I32_MIN);
    TrimFixed(-1234, 4, I32_MIN);
    assert NatToString(1234) == "1234";
    assert Mag(-1234) == 1234;
    assert Render(BigNumber(1234, 4)) == Ok("0." + "1234");
    assert Render(BigNumber(-1234, 4)) == Ok("-0." + "1234");
    PureFractionLiteral();
  }

  lemma PureFractionLiteral()
    ensures "0." + "1234" == "0.1234" && "-0." + "1234" == "-0.1234"
  {
  }

  lemma SplitFractionText()
    ensures ToString(BigNumber(123442, 2)) == Ok("1234.42")
  {
    TrimFixed(123442, 2, I32_MIN);
    assert NatToString(123442) == "123442";
    assert "123442"[..4] == "1234" && "123442"[4..] == "42";
    assert Render(BigNumber(123442, 2)) == Ok("" + "1234" + "." + "42");
    SplitFractionLiteral();
  }

  lemma SplitFractionLiteral()
    ensures "" + "1234" + "." + "42" == "1234.42"
  {
  }

  /** 1/3 to five digits rounded down: 0.33333 is the quotient the scale is pinned to, and
      neither 0 nor 0.3 passes for it. */
  lemma ThirdPinned()
    ensures RoundedToDigits(1, 3, 0, 5, BigNumber(33333, 5), Down)
    ensures !RoundedToDigits(1, 3, 0, 5, BigNumber(0, 0), Down)
    ensures !RoundedToDigits(1, 3, 0, 5, BigNumber(3, 1), Down)
  {
    ThirdKept();
    ThirdNotZero();
    ThirdNotTenth();
  }

  lemma ThirdKept()
    ensures RoundedToDigits(1, 3, 0, 5, BigNumber(33333, 5), Down)
  {
    assert NumDigits(33333) == 5;
    assert Pow10(5) == 100000;
  }

  lemma ThirdNotZero()
    ensures !RoundedToDigits(1, 3, 0, 5, BigNumber(0, 0), Down)
  {
    assert NumDigits(0) == 1;
    assert Pow10(4) == 10000 && Pow10(5) == 100000;
  }

  lemma ThirdNotTenth()
    ensures !RoundedToDigits(1, 3, 0, 5, BigNumber(3, 1), Down)
  {
    assert NumDigits(3) == 1;
    assert Pow10(4) == 10000 && Pow10(5) == 100000;
  }
}
