/** Rounding a BigNumber to a number of significant digits (`doRound`) or of decimal places
    (`roundToPlaces`), and stripping trailing zeros from a mantissa (`trimZeros`). */
module Scaling {
  import opened Results
  import opened Int32
  import opened Powers
  import opened RoundingEngine
  import opened BigNumbers

  lemma MulCancelLt(a: int, b: int, d: int)
    requires d > 0 && a * d < b * d
    ensures a < b
  {
  }

  lemma Pow10Even(k: nat)
    requires k >= 1
    ensures Pow10(k) % 2 == 0
  {
    assert Pow10(k) == 10 * Pow10(k - 1);
  }

  /** Truncating an m of p + k digits by 10^k leaves exactly p digits. */
  lemma TruncatedDigits(m: int, k: nat, p: nat)
    requires k >= 1 && p >= 1 && NumDigits(Mag(m)) == p + k
    ensures Pow10(p - 1) <= Mag(TDiv(m, Pow10(k))) < Pow10(p)
  {
    var d := Pow10(k);
    var t := Mag(TDiv(m, d));
    Pow10Add(p, k);
    Pow10Add(p - 1, k);
    assert p - 1 + k == p + k - 1;
    assert t * d <= Mag(m) < Pow10(p) * d;
    MulCancelLt(t, Pow10(p), d);
    assert Pow10(p - 1) * d <= Mag(m) < (t + 1) * d;
    MulCancelLt(Pow10(p - 1), t + 1, d);
  }

  /** A power of ten of p + k digits divides by 10^k exactly. */
  lemma PowerDividesExactly(m: int, k: nat, p: nat)
    requires k >= 1 && p >= 1 && NumDigits(Mag(m)) == p + k && IsPow10(Mag(m))
    ensures TRem(m, Pow10(k)) == 0 && Mag(TDiv(m, Pow10(k))) == Pow10(p - 1)
  {
    var d := Pow10(k);
    var t := TDiv(m, d);
    PowerSplits(m, k, p);
    assert Mag(t) * d <= Pow10(p - 1) * d < (Mag(t) + 1) * d;
    MulPinned(Mag(t), Pow10(p - 1), d);
    SignedProduct(m, t, d);
  }

  lemma PowerSplits(m: int, k: nat, p: nat)
    requires k >= 1 && p >= 1 && NumDigits(Mag(m)) == p + k && IsPow10(Mag(m))
    ensures Mag(m) == Pow10(p - 1) * Pow10(k)
  {
    Pow10Add(p - 1, k);
    assert p - 1 + k == p + k - 1;
  }

  /** t * d <= P * d < (t + 1) * d pins t to P. */
  lemma MulPinned(t: int, pp: int, d: int)
    requires d > 0 && t * d <= pp * d < (t + 1) * d
    ensures t == pp
  {
    MulCancelLt(pp, t + 1, d);
    MulCancelLe(t, pp, d);
  }

  lemma MulCancelLe(a: int, b: int, d: int)
    requires d > 0 && a * d <= b * d
    ensures a <= b
  {
  }

  /** A number between 10^(p-1) and 10^p has p digits, or p + 1 when it is 10^p itself. */
  lemma DigitsBetween(n: nat, p: nat)
    requires p >= 1 && Pow10(p - 1) <= n <= Pow10(p)
    ensures p <= NumDigits(n) <= p + 1
    ensures NumDigits(n) == p + 1 ==> n == Pow10(p)
  {
    if n < Pow10(p) {
      NumDigitsUnique(n, p);
    } else {
      NumDigitsOfPow10(p);
    }
  }

  lemma MulLe(a: int, b: int, d: int)
    requires d > 0 && a <= b
    ensures a * d <= b * d
  {
  }

  lemma SignedProduct(m: int, t: int, d: int)
    requires d > 0 && t != 0 && Mag(t) * d == Mag(m) && ((t < 0) <==> (m < 0))
    ensures d * t == m
  {
    if t < 0 {
      assert Mag(t) * d == -(t * d);
    }
  }

  /** Dividing an m of p + k digits by 10^k leaves p digits, or p + 1 digits when the rounding
      carries into a new leading digit, which then makes the quotient exactly 10^p. A power of
      ten divides exactly and never carries. */
  lemma RoundStep(m: int, k: nat, p: nat, mode: Rounding)
    requires k >= 1 && p >= 1 && NumDigits(Mag(m)) == p + k
    requires DivideAndRound(m, Pow10(k), mode).Ok?
    ensures var q := DivideAndRound(m, Pow10(k), mode).value;
      RoundedPos(m, Pow10(k), q, mode)
      && p <= NumDigits(Mag(q)) <= p + 1
      && (NumDigits(Mag(q)) == p + 1 ==> Mag(q) == Pow10(p))
      && (IsPow10(Mag(m)) ==> q * Pow10(k) == m && NumDigits(Mag(q)) == p)
  {
    RoundStepRounded(m, k, p, mode);
    RoundStepDigits(m, k, p, mode);
    RoundStepExact(m, k, p, mode);
  }

  lemma RoundStepDigits(m: int, k: nat, p: nat, mode: Rounding)
    requires k >= 1 && p >= 1 && NumDigits(Mag(m)) == p + k
    requires DivideAndRound(m, Pow10(k), mode).Ok?
    ensures var q := DivideAndRound(m, Pow10(k), mode).value;
      p <= NumDigits(Mag(q)) <= p + 1 && (NumDigits(Mag(q)) == p + 1 ==> Mag(q) == Pow10(p))
  {
    var q := DivideAndRound(m, Pow10(k), mode).value;
    TruncatedDigits(m, k, p);
    assert Pow10(p - 1) <= Mag(q) <= Pow10(p);
    DigitsBetween(Mag(q), p);
  }

  lemma RoundStepExact(m: int, k: nat, p: nat, mode: Rounding)
    requires k >= 1 && p >= 1 && NumDigits(Mag(m)) == p + k
    requires DivideAndRound(m, Pow10(k), mode).Ok?
    ensures IsPow10(Mag(m)) ==> var q := DivideAndRound(m, Pow10(k), mode).value;
      q * Pow10(k) == m && NumDigits(Mag(q)) == p
  {
    if !IsPow10(Mag(m)) { return; }
    var d := Pow10(k);
    var q := DivideAndRound(m, d, mode).value;
    PowerDividesExactly(m, k, p);
    assert q == TDiv(m, d);
    assert q * d == m;
    Pow10Monotone(p - 1, p);
    NumDigitsUnique(Mag(q), p);
  }

  lemma RoundStepRounded(m: int, k: nat, p: nat, mode: Rounding)
    requires k >= 1 && p >= 1 && NumDigits(Mag(m)) == p + k
    requires DivideAndRound(m, Pow10(k), mode).Ok?
    ensures RoundedPos(m, Pow10(k), DivideAndRound(m, Pow10(k), mode).value, mode)
  {
    Pow10Monotone(k, p + k - 1);
    Pow10Even(k);
    DivideAndRoundIsRounded(m, Pow10(k), mode);
  }

  /** Rounding composes with an exact division: if q1 is n / d1 rounded and q1 = q2 * d2
      exactly, then q2 is n / (d1 * d2) rounded. */
  lemma RoundedCompose(n: int, d1: int, q1: int, d2: int, q2: int, mode: Rounding)
    requires d1 > 0 && d2 >= 1 && RoundedPos(n, d1, q1, mode) && q1 == q2 * d2
    ensures RoundedPos(n, d1 * d2, q2, mode)
  {
    var d := d1 * d2;
    MulAssoc(q2, d2, d1);
    assert q2 * d == q1 * d1;
    MulAtLeast(d1, d2);
    if d2 == 1 {
      assert q2 == q1 && d == d1;
    }
  }

  lemma MulAssoc(a: int, b: int, c: int)
    ensures a * (c * b) == (a * b) * c
  {
  }

  lemma MulAtLeast(a: int, b: int)
    requires a > 0 && b >= 1
    ensures a <= a * b && (b > 1 ==> 2 * a <= a * b)
  {
  }

  function RoundMeasure(m: int, precision: nat): nat {
    2 * (if NumDigits(Mag(m)) > precision then NumDigits(Mag(m)) - precision else 0)
    + (if IsPow10(Mag(m)) then 0 else 1)
  }

  /** The rounding loop shared by `doRound` and `fromString`: while the mantissa has more than
      `precision` digits, lower the scale by the excess and divide it away. A carry (999.. ->
      1000..) can need one more pass, so the scale drops by the excess or by one more. A power
      of ten comes out exactly, and the result is the input correctly rounded (`RoundedAt`). */
  function RoundDigits(m: int, e: int, precision: nat, mode: Rounding): (r: Result<BigNumber>)
    requires precision >= 1 && IsI32(e)
    ensures NumDigits(Mag(m)) <= precision ==> r == Ok(BigNumber(m, e))
    ensures r.Ok? ==> Valid(r.value) && r.value.e <= e && NumDigits(Mag(r.value.m)) <= precision
    ensures r.Ok? && NumDigits(Mag(m)) > precision ==>
      NumDigits(Mag(r.value.m)) == precision
      && (e - r.value.e == NumDigits(Mag(m)) - precision || e - r.value.e == NumDigits(Mag(m)) - precision + 1)
    ensures r.Ok? && IsPow10(Mag(m)) ==> r.value.m * Pow10(e - r.value.e) == m
    ensures r.Ok? ==> RoundedAt(m, e, r.value, mode)
    ensures r.Ok? && NumDigits(Mag(m)) > precision ==>
      RoundedAtScale(m, e, e - (NumDigits(Mag(m)) - precision), r.value, mode)
    ensures r.Ok? && IsPow10(Mag(m)) && NumDigits(Mag(m)) > precision ==>
      e - r.value.e == NumDigits(Mag(m)) - precision
    ensures r.Err? ==> r.error == IntegerOverflow || (r.error == RoundingNecessary && mode == NoRounding)
    ensures mode != NoRounding
      && e - (NumDigits(Mag(m)) - precision) - (if IsPow10(Mag(m)) then 0 else 1) >= I32_MIN
      ==> r.Ok?
    decreases RoundMeasure(m, precision)
  {
    var pDiff := IntLength(m) - precision;
    if pDiff <= 0 then assert m * Pow10(0) == m; RoundedExact(m, e, mode); Ok(BigNumber(m, e))
    else
      var s :- RoundPass(m, e, precision, mode);
      CarryIsPow10(s.m, precision);
      var r := RoundDigits(s.m, s.e, precision, mode);
      if r.Err? then r
      else
        RoundDigitsStep(m, e, precision, s.m, s.e, r.value);
        RoundThenExact(m, e, s, r.value, mode);
        assert BigNumber(r.value.m * Pow10(s.e - r.value.e), s.e) == s;
        r
  }

  /** One pass of the loop body: lower the scale by the excess k of digits over `precision`
      and divide 10^k away, rounding. */
  function RoundPass(m: int, e: int, precision: nat, mode: Rounding): (r: Result<BigNumber>)
    requires precision >= 1 && IsI32(e) && NumDigits(Mag(m)) > precision
    ensures r.Ok? ==> var k := NumDigits(Mag(m)) - precision;
      r.value.e == e - k && Valid(r.value)
      && precision <= NumDigits(Mag(r.value.m)) <= precision + 1
      && (NumDigits(Mag(r.value.m)) == precision + 1 ==> Mag(r.value.m) == Pow10(precision))
      && (IsPow10(Mag(m)) ==> r.value.m * Pow10(k) == m && NumDigits(Mag(r.value.m)) == precision)
    ensures r.Ok? ==> RoundedAt(m, e, r.value, mode)
    ensures r.Err? ==> r.error == IntegerOverflow || (r.error == RoundingNecessary && mode == NoRounding)
    ensures mode != NoRounding && e - (NumDigits(Mag(m)) - precision) >= I32_MIN ==> r.Ok?
  {
    var pDiff := IntLength(m) - precision;
    var e' :- OverflowGuard(e - pDiff, false);
    var m' :- DivideAndRoundByPowTen(m, pDiff, mode);
    RoundStepDigits(m, pDiff, precision, mode);
    RoundStepExact(m, pDiff, precision, mode);
    RoundStepRounded(m, pDiff, precision, mode);
    Ok(BigNumber(m', e'))
  }

  /** A carry out of the first pass leaves exactly 10^p, a power of ten. */
  lemma CarryIsPow10(m: int, p: nat)
    requires NumDigits(Mag(m)) == p + 1 ==> Mag(m) == Pow10(p)
    ensures NumDigits(Mag(m)) == p + 1 ==> IsPow10(Mag(m))
  {
    if NumDigits(Mag(m)) == p + 1 {
      Pow10IsPow10(p);
    }
  }

  /** One pass of `RoundDigits` followed by the rest of the loop: the facts about the pass and
      about the rest give the facts about the whole. */
  lemma RoundDigitsStep(m: int, e: int, p: nat, m': int, e': int, r: BigNumber)
    requires p >= 1 && NumDigits(Mag(m)) > p && e' == e - (NumDigits(Mag(m)) - p) && IsI32(e')
    requires p <= NumDigits(Mag(m')) <= p + 1
    requires NumDigits(Mag(m')) == p + 1 ==> IsPow10(Mag(m'))
    requires IsPow10(Mag(m)) ==> m' * Pow10(NumDigits(Mag(m)) - p) == m && NumDigits(Mag(m')) == p
    requires NumDigits(Mag(m')) <= p ==> r == BigNumber(m', e')
    requires Valid(r) && r.e <= e' && NumDigits(Mag(r.m)) <= p
    requires NumDigits(Mag(m')) > p ==> NumDigits(Mag(r.m)) == p
    requires IsPow10(Mag(m')) ==> r.m * Pow10(e' - r.e) == m'
    requires IsPow10(Mag(m')) && NumDigits(Mag(m')) > p ==> e' - r.e == NumDigits(Mag(m')) - p
    ensures Valid(r) && r.e <= e && NumDigits(Mag(r.m)) == p
    ensures e - r.e == NumDigits(Mag(m)) - p || e - r.e == NumDigits(Mag(m)) - p + 1
    ensures IsPow10(Mag(m)) ==> r.m * Pow10(e - r.e) == m
    ensures IsPow10(Mag(m)) ==> e - r.e == NumDigits(Mag(m)) - p
  {
    var k := NumDigits(Mag(m)) - p;
    if IsPow10(Mag(m)) {
      assert r == BigNumber(m', e');
      assert e - r.e == k;
    }
  }

  /** `v` is m at scale e correctly rounded to v's (lower) scale. */
  predicate RoundedAt(m: int, e: int, v: BigNumber, mode: Rounding)
  {
    v.e <= e && RoundedPos(m, Pow10(e - v.e), v.m, mode)
  }

  /** v, written back out at scale k, is (m, e) rounded by `mode` at k: v is that rounding
      with trailing zeros dropped. */
  predicate RoundedAtScale(m: int, e: int, k: int, v: BigNumber, mode: Rounding) {
    v.e <= k && RoundedAt(m, e, BigNumber(v.m * Pow10(k - v.e), k), mode)
  }

  /** An exact quotient is correctly rounded in every mode. */
  lemma RoundedExact(m: int, e: int, mode: Rounding)
    ensures RoundedAt(m, e, BigNumber(m, e), mode)
  {
    assert Pow10(0) == 1 && m * 1 == m;
  }

  /** A rounding pass by 10^k followed by an exact division by 10^j is a rounding by
      10^(k + j). */
  lemma RoundThenExact(m: int, e: int, s: BigNumber, v: BigNumber, mode: Rounding)
    requires RoundedAt(m, e, s, mode) && v.e <= s.e && v.m * Pow10(s.e - v.e) == s.m
    ensures RoundedAt(m, e, v, mode)
  {
    var k, j := e - s.e, s.e - v.e;
    RoundedCompose(m, Pow10(k), s.m, Pow10(j), v.m, mode);
    Pow10Add(k, j);
  }

  /** `doRound`: keep at most `precision` significant digits; a non-positive precision means
      no limit. */
  function DoRound(x: BigNumber, precision: int, mode: Rounding): (r: Result<BigNumber>)
    requires Valid(x)
    ensures precision <= 0 || Precision(x) <= precision ==> r == Ok(x)
    ensures r.Ok? ==> Valid(r.value) && r.value.e <= x.e && RoundedAt(x.m, x.e, r.value, mode)
    ensures r.Ok? && IsPow10(Mag(x.m)) ==> r.value.m * Pow10(x.e - r.value.e) == x.m
    ensures r.Ok? && 0 < precision < Precision(x) ==>
      Precision(r.value) == precision
      && (x.e - r.value.e == Precision(x) - precision || x.e - r.value.e == Precision(x) - precision + 1)
    ensures r.Ok? && 0 < precision < Precision(x) ==>
      RoundedAtScale(x.m, x.e, x.e - (Precision(x) - precision), r.value, mode)
    ensures r.Err? ==> r.error == IntegerOverflow || (r.error == RoundingNecessary && mode == NoRounding)
    ensures mode != NoRounding && x.e - Precision(x) + precision > I32_MIN ==> r.Ok?
  {
    if precision <= 0 || Precision(x) <= precision then
      RoundedExact(x.m, x.e, mode);
      assert x.m * Pow10(0) == x.m;
      Ok(x)
    else RoundDigits(x.m, x.e, precision, mode)
  }

  /** `roundToPlaces`: keep at most `digits` decimal places. The distance `e - digits` is an
      i32 subtraction: when it wraps, the value comes back unchanged. The loop body runs at
      most once, since afterwards the scale equals `digits`. */
  function RoundToPlaces(x: BigNumber, digits: int, mode: Rounding): (r: Result<BigNumber>)
    requires Valid(x) && IsI32(digits)
    ensures x.e <= digits || x.m == 0 || x.e - digits > I32_MAX ==> r == Ok(x)
    ensures x.e > digits && x.m != 0 && x.e - digits <= I32_MAX ==>
      (r.Err? <==> mode == NoRounding && TRem(x.m, Pow10(x.e - digits)) != 0)
      && (r.Ok? ==> r.value.e == digits)
    ensures r.Ok? && (x.m > 0 || Mag(x.m) >= Pow10(x.e - r.value.e)) ==> RoundedAt(x.m, x.e, r.value, mode)
    ensures r.Ok? ==> Valid(r.value)
    ensures r.Err? ==> r.error == RoundingNecessary
  {
    if x.e < digits then Ok(x)
    else
      var dDiff := Wrap32(x.e - digits);
      if dDiff > 0 && x.m != 0 then
        // the guard cannot fire here: x.e - dDiff is `digits`
        var e := OverflowGuard(x.e - dDiff, false);
        assert e == Ok(digits);
        var m :- DivideAndRoundByPowTen(x.m, dDiff, mode);
        PlacesRounded(x.m, x.e, m, e.value, mode);
        Ok(BigNumber(m, e.value))
      else RoundedExact(x.m, x.e, mode); Ok(x)
  }

  /** One division by 10^k with k >= 1 is correctly rounded unless it is the zero-quotient
      case of a negative m. */
  lemma PlacesRounded(m: int, e: int, q: int, e': int, mode: Rounding)
    requires e' < e && DivideAndRound(m, Pow10(e - e'), mode) == Ok(q)
    ensures m > 0 || Mag(m) >= Pow10(e - e') ==> RoundedAt(m, e, BigNumber(q, e'), mode)
  {
    var d := Pow10(e - e');
    if m > 0 || Mag(m) >= d {
      Pow10Even(e - e');
      DivideAndRoundIsRounded(m, d, mode);
    }
  }

  /** The last decimal digit is zero exactly when truncating division by ten leaves nothing. */
  lemma LastDigitZero(m: int)
    ensures TRem(m, 10) == 0 <==> m % 10 == 0
  {
    var t := TDiv(m, 10);
    assert m == 10 * t + TRem(m, 10);
    if m % 10 == 0 {
      var u := m / 10;
      assert m == 10 * u;
      assert TRem(m, 10) == 10 * (u - t);
    }
  }

  /** The loop's exit test: a mantissa that is short, odd, or not divisible by ten has a
      nonzero last digit, unless it is zero. */
  lemma TrimStops(m: int)
    ensures TRem(m, 10) == 0 <==> m % 10 == 0
    ensures !(Mag(m) >= 10 && m % 2 == 0 && TRem(m, 10) == 0) <==> m % 10 != 0 || Mag(m) < 10
    ensures Mag(m) < 10 && m % 10 == 0 ==> m == 0
  {
    LastDigitZero(m);
    TenMultiple(m);
  }

  /** A multiple of ten is even, and the only one below ten in magnitude is zero. */
  lemma TenMultiple(m: int)
    ensures m % 10 == 0 ==> m % 2 == 0 && (Mag(m) < 10 ==> m == 0)
  {
    if m % 10 == 0 {
      var u := m / 10;
      assert m == 10 * u;
      assert m == 2 * (5 * u);
      if Mag(m) < 10 {
        assert -1 < u < 1;
      }
    }
  }

  /** A zero remainder from truncating division by ten leaves an exact tenth. */
  lemma ExactTenth(m: int)
    requires TRem(m, 10) == 0
    ensures m == 10 * TDiv(m, 10)
  {
  }

  /** One more trimmed digit: a scale one lower absorbs the factor ten. */
  lemma TrimStep(m: int, q: int, e: int, r: BigNumber)
    requires m == 10 * q && r.e <= e - 1 && r.m * Pow10(e - 1 - r.e) == q
    ensures r.m * Pow10(e - r.e) == m
  {
    assert Pow10(e - r.e) == 10 * Pow10(e - 1 - r.e);
    assert r.m * Pow10(e - r.e) == 10 * (r.m * Pow10(e - 1 - r.e));
  }

  /** The trimming loop, entered with the scale above the preferred one. */
  function TrimLoop(m: int, e: int, preferredE: int): (r: BigNumber)
    requires IsI32(e) && I32_MIN <= preferredE < e
    ensures preferredE <= r.e <= e
    ensures r.m * Pow10(e - r.e) == m
    ensures r.e == preferredE || r.m % 10 != 0 || r.m == 0
    ensures Mag(m) < 10 ==> r == BigNumber(m, e)
    decreases Mag(m)
  {
    TrimStops(m);
    if Mag(m) >= 10 && m % 2 == 0 && TRem(m, 10) == 0 then
      var q := TDiv(m, 10);
      ExactTenth(m);
      // the scale stays above preferredE >= I32_MIN, so its guard never fires
      if e - 1 <= preferredE then BigNumber(q, e - 1)
      else
        var r := TrimLoop(q, e - 1, preferredE);
        TrimStep(m, q, e, r);
        r
    else BigNumber(m, e)
  }

  /** `trimZeros`: drop trailing zero digits of the mantissa, lowering the scale one step per
      digit, until the preferred scale is reached or the last digit is nonzero. */
  function TrimZeros(m: int, e: int, preferredE: int): (r: BigNumber)
    requires IsI32(e) && I32_MIN <= preferredE
    ensures e <= preferredE || Mag(m) < 10 ==> r == BigNumber(m, e)
    ensures Valid(r) && r.e <= e && r.m * Pow10(e - r.e) == m
    ensures e > preferredE ==> preferredE <= r.e && (r.e == preferredE || r.m % 10 != 0 || r.m == 0)
  {
    if e <= preferredE then BigNumber(m, e) else TrimLoop(m, e, preferredE)
  }

  /** Trimming keeps a mantissa nonzero exactly when it was. */
  lemma TrimZerosNonzero(m: int, e: int, preferredE: int)
    requires IsI32(e) && I32_MIN <= preferredE
    ensures (TrimZeros(m, e, preferredE).m == 0) <==> (m == 0)
  {
    var r := TrimZeros(m, e, preferredE);
    if r.m == 0 {
      assert m == 0 * Pow10(e - r.e);
    }
  }

  /** Trimming never changes the value. */
  lemma TrimZerosValue(m: int, e: int, preferredE: int)
    requires IsI32(e) && I32_MIN <= preferredE
    ensures Value(TrimZeros(m, e, preferredE)) == Value(BigNumber(m, e))
  {
    var r := TrimZeros(m, e, preferredE);
    ValueRescale(r.m, e - r.e, e);
    assert e - (e - r.e) == r.e;
  }

  /** Trimming never adds digits. */
  lemma TrimmedDigits(m: int, e: int, r: BigNumber)
    requires IsI32(e) && r.e <= e && r.m * Pow10(e - r.e) == m
    ensures NumDigits(Mag(r.m)) <= NumDigits(Mag(m))
  {
    var k := e - r.e;
    assert Mag(m) == Mag(r.m) * Pow10(k) by {
      if r.m < 0 { assert m == -(Mag(r.m) * Pow10(k)); }
    }
    NumDigitsMonotone(Mag(r.m), Mag(m));
  }
}
