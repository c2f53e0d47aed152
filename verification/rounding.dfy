/** The rounding engine: integer division whose truncated quotient is stepped one unit away
    from zero when the rounding mode asks for it, together with an independent definition of
    what a correctly rounded quotient is. */
module RoundingEngine {
  import opened Results
  import opened Powers
  import opened TenTable

  datatype Rounding =
    | Up          // away from zero
    | Down        // toward zero
    | Ceil        // toward +infinity
    | Floor       // toward -infinity
    | HalfUp      // nearest neighbour, ties away from zero
    | HalfDown    // nearest neighbour, ties toward zero
    | HalfEven    // nearest neighbour, ties to the even neighbour
    | NoRounding  // the result must be exact

  predicate IsHalf(mode: Rounding) {
    mode == HalfUp || mode == HalfDown || mode == HalfEven
  }

  /** The shared decision table: should the truncated quotient move one unit away from zero?
      `qsign` is the sign the caller read off the quotient, `cmpHalf` the comparison of the
      remainder with half the divisor, `isOdd` the parity of the quotient. */
  function CommonNeedIncrement(mode: Rounding, qsign: int, cmpHalf: int, isOdd: bool): (r: Result<bool>)
    ensures r.Err? <==> mode == NoRounding
    ensures r.Err? ==> r.error == RoundingNecessary
    ensures mode == Up ==> r == Ok(true)
    ensures mode == Down ==> r == Ok(false)
    ensures mode == Ceil ==> r == Ok(qsign > 0)
    ensures mode == Floor ==> r == Ok(qsign < 0)
    ensures IsHalf(mode) && cmpHalf != 0 ==> r == Ok(cmpHalf > 0)
    ensures IsHalf(mode) && cmpHalf == 0 ==> r == Ok(mode == HalfUp || (mode == HalfEven && isOdd))
  {
    match mode
    case NoRounding => Err(RoundingNecessary)
    case Up => Ok(true)
    case Down => Ok(false)
    case Ceil => Ok(qsign > 0)
    case Floor => Ok(qsign < 0)
    case _ =>
      if cmpHalf < 0 then Ok(false)
      else if cmpHalf > 0 then Ok(true)
      else Ok(match mode
              case HalfDown => false
              case HalfUp => true
              case _ => isOdd)
  }

  /** Three-way comparison of two integers. */
  function Compare(a: int, b: int): (c: int)
    ensures c == 0 <==> a == b
    ensures c < 0 <==> a < b
  {
    if a < b then -1 else if a > b then 1 else 0
  }

  /** The decision for one division, from the magnitudes of divisor, quotient and remainder.
      The remainder is compared with half the divisor rounded down, so for an odd divisor a
      remainder one half-unit below the true midpoint reads as a tie. A zero remainder is
      excluded: both callers test for it first, so the source's throw for it cannot happen. */
  function NeedIncrement(divisor: nat, mode: Rounding, qsign: int, quotient: nat, remainder: nat): (r: Result<bool>)
    requires remainder != 0
    ensures r.Err? <==> mode == NoRounding
    ensures IsHalf(mode) ==> r.Ok? && (r.value <==>
      2 * remainder > divisor
      || ((2 * remainder == divisor || 2 * remainder + 1 == divisor)
          && (mode == HalfUp || (mode == HalfEven && quotient % 2 == 1))))
    ensures !IsHalf(mode) && mode != NoRounding ==>
      r == Ok(mode == Up || (mode == Ceil && qsign > 0) || (mode == Floor && qsign < 0))
  {
    var cmpHalf := Compare(remainder, divisor / 2);
    CommonNeedIncrement(mode, qsign, cmpHalf, quotient % 2 == 1)
  }

  /** The quotient n / d rounded per `mode`: truncate, then step one unit away from zero when
      the remainder is nonzero and the decision says so. The direction of the step and the
      sign handed to the decision are read off the truncated quotient, so a zero quotient
      counts as positive even when n / d is negative. */
  function DivideAndRound(n: int, d: int, mode: Rounding): (r: Result<int>)
    requires d != 0
    ensures TRem(n, d) == 0 ==> r == Ok(TDiv(n, d))
    ensures r.Err? <==> mode == NoRounding && TRem(n, d) != 0
    ensures r.Err? ==> r.error == RoundingNecessary
    ensures r.Ok? ==> r.value == TDiv(n, d) || r.value == TDiv(n, d) + (if TDiv(n, d) < 0 then -1 else 1)
  {
    var q := TDiv(n, d);
    var rem := TRem(n, d);
    if rem == 0 then Ok(q)
    else
      var inc :- NeedIncrement(Mag(d), mode, if q < 0 then -1 else 1, Mag(q), Mag(rem));
      if inc then Ok(if q < 0 then q - 1 else q + 1) else Ok(q)
  }

  /** v / 10^k rounded per `mode`; exponents below ten use the u32 table. */
  function DivideAndRoundByPowTen(v: int, k: int, mode: Rounding): (r: Result<int>)
    requires k >= 0
    ensures r == DivideAndRound(v, Pow10(k), mode)
  {
    if k < |TEN_POWERS| then TenPowersTable(); DivideAndRound(v, TEN_POWERS[k], mode)
    else DivideAndRound(v, Pow10(k), mode)
  }

  /** `q` is n / d correctly rounded per `mode`. With D = |d| and n' the numerator with the
      divisor's sign moved onto it, `q * D - n'` is D times the rounding error q - n/d. */
  predicate Rounded(n: int, d: int, q: int, mode: Rounding)
    requires d != 0
  {
    var n' := if d < 0 then -n else n;
    RoundedPos(n', Mag(d), q, mode)
  }

  predicate RoundedPos(n: int, d: int, q: int, mode: Rounding)
    requires d > 0
  {
    var err := q * d - n;
    Mag(err) < d &&
    match mode
    case Up => Mag(q * d) >= Mag(n)
    case Down => Mag(q * d) <= Mag(n)
    case Ceil => err >= 0
    case Floor => err <= 0
    case NoRounding => err == 0
    case HalfUp => 2 * Mag(err) <= d && (2 * Mag(err) == d ==> Mag(q * d) > Mag(n))
    case HalfDown => 2 * Mag(err) <= d && (2 * Mag(err) == d ==> Mag(q * d) < Mag(n))
    case HalfEven => 2 * Mag(err) <= d && (2 * Mag(err) == d ==> q % 2 == 0)
  }

  /** DivideAndRound is correct for a positive divisor and a non-negative dividend, except
      that an odd divisor makes a HALF mode misjudge the remainder (d - 1) / 2 as a tie. */
  lemma DivideAndRoundNonNegative(n: int, d: int, mode: Rounding)
    requires d > 0 && n >= 0
    requires IsHalf(mode) ==> 2 * TRem(n, d) + 1 != d
    ensures DivideAndRound(n, d, mode).Ok? ==> RoundedPos(n, d, DivideAndRound(n, d, mode).value, mode)
  {
    var q := TDiv(n, d);
    assert q >= 0;
    var r := DivideAndRound(n, d, mode);
    if r.Ok? {
      if r.value == q {
        NonNegativeKept(n, d, mode);
      } else {
        NonNegativeStepped(n, d, mode);
      }
    }
  }

  /** A non-negative quotient left at its truncation. */
  lemma NonNegativeKept(n: int, d: int, mode: Rounding)
    requires d > 0 && n >= 0
    requires IsHalf(mode) ==> 2 * TRem(n, d) + 1 != d
    requires DivideAndRound(n, d, mode) == Ok(TDiv(n, d))
    ensures RoundedPos(n, d, TDiv(n, d), mode)
  {
    var q := TDiv(n, d);
    var rem := TRem(n, d);
    assert q >= 0 && rem >= 0;
    assert q * d == n - rem;
  }

  /** A non-negative quotient stepped one unit up. */
  lemma NonNegativeStepped(n: int, d: int, mode: Rounding)
    requires d > 0 && n >= 0
    requires IsHalf(mode) ==> 2 * TRem(n, d) + 1 != d
    requires DivideAndRound(n, d, mode) == Ok(TDiv(n, d) + 1)
    ensures RoundedPos(n, d, TDiv(n, d) + 1, mode)
  {
    var q := TDiv(n, d);
    var rem := TRem(n, d);
    assert q >= 0 && rem > 0;
    assert (q + 1) * d == n - rem + d;
  }

  /** The same for a negative dividend, provided the truncated quotient is not zero. */
  lemma DivideAndRoundNegative(n: int, d: int, mode: Rounding)
    requires d > 0 && n <= -d
    requires IsHalf(mode) ==> 2 * Mag(TRem(n, d)) + 1 != d
    ensures DivideAndRound(n, d, mode).Ok? ==> RoundedPos(n, d, DivideAndRound(n, d, mode).value, mode)
  {
    var q := TDiv(n, d);
    assert q < 0;
    var r := DivideAndRound(n, d, mode);
    if r.Ok? {
      if r.value == q {
        NegativeKept(n, d, mode);
      } else {
        NegativeStepped(n, d, mode);
      }
    }
  }

  /** A negative quotient left at its truncation. */
  lemma NegativeKept(n: int, d: int, mode: Rounding)
    requires d > 0 && n <= -d
    requires IsHalf(mode) ==> 2 * Mag(TRem(n, d)) + 1 != d
    requires DivideAndRound(n, d, mode) == Ok(TDiv(n, d))
    ensures RoundedPos(n, d, TDiv(n, d), mode)
  {
    var q := TDiv(n, d);
    var rem := TRem(n, d);
    assert q < 0 && rem <= 0;
    assert q * d == n - rem;
  }

  /** A negative quotient stepped one unit away from zero. */
  lemma NegativeStepped(n: int, d: int, mode: Rounding)
    requires d > 0 && n <= -d
    requires IsHalf(mode) ==> 2 * Mag(TRem(n, d)) + 1 != d
    requires DivideAndRound(n, d, mode) == Ok(TDiv(n, d) - 1)
    ensures RoundedPos(n, d, TDiv(n, d) - 1, mode)
  {
    var q := TDiv(n, d);
    var rem := TRem(n, d);
    assert q < 0 && rem < 0;
    assert (q - 1) * d == n - rem - d;
  }

  /** Negating both operands changes neither the truncated quotient nor any magnitude the
      decision reads, so it leaves the rounded quotient unchanged. */
  lemma DivideAndRoundNegateBoth(n: int, d: int, mode: Rounding)
    requires d != 0
    ensures DivideAndRound(-n, -d, mode) == DivideAndRound(n, d, mode)
    ensures TRem(-n, -d) == -TRem(n, d)
  {
    assert TDiv(-n, -d) == TDiv(n, d);
    assert TRem(-n, -d) == -TRem(n, d);
  }

  /** DivideAndRound returns the correctly rounded quotient whenever it returns at all, apart
      from two inputs the source misrounds: a true quotient in (-1, 0), whose truncation 0 is
      read as positive, and, in a HALF mode, an odd divisor whose remainder is (|d| - 1) / 2. */
  lemma DivideAndRoundIsRounded(n: int, d: int, mode: Rounding)
    requires d != 0
    requires n == 0 || (n < 0) == (d < 0) || Mag(n) >= Mag(d)
    requires IsHalf(mode) ==> 2 * Mag(TRem(n, d)) + 1 != Mag(d)
    ensures DivideAndRound(n, d, mode).Ok? ==> Rounded(n, d, DivideAndRound(n, d, mode).value, mode)
  {
    if d < 0 {
      DivideAndRoundNegativeDivisor(n, d, mode);
    } else if n >= 0 {
      DivideAndRoundNonNegative(n, d, mode);
    } else {
      DivideAndRoundNegative(n, d, mode);
    }
  }

  lemma DivideAndRoundNegativeDivisor(n: int, d: int, mode: Rounding)
    requires d < 0
    requires n <= 0 || Mag(n) >= Mag(d)
    requires IsHalf(mode) ==> 2 * Mag(TRem(n, d)) + 1 != Mag(d)
    ensures DivideAndRound(n, d, mode).Ok? ==> Rounded(n, d, DivideAndRound(n, d, mode).value, mode)
  {
    var r := DivideAndRound(-n, -d, mode);
    DivideAndRoundNegateBoth(n, d, mode);
    if -n >= 0 {
      DivideAndRoundNonNegative(-n, -d, mode);
    } else {
      assert -n <= d;
      DivideAndRoundNegative(-n, -d, mode);
    }
    assert r.Ok? ==> RoundedPos(-n, -d, r.value, mode);
    RoundedNegativeDivisor(n, d, mode);
  }

  lemma RoundedNegativeDivisor(n: int, d: int, mode: Rounding)
    requires d < 0
    ensures forall q :: Rounded(n, d, q, mode) <==> RoundedPos(-n, -d, q, mode)
  {
  }

  /** A true quotient strictly between -1 and 0 never rounds to -1: the source steps its zero
      truncation toward +1 (or not at all), so FLOOR, UP and a HALF mode past the midpoint all
      give the wrong neighbour. */
  lemma ZeroQuotientSteppedUp(n: int, d: int, mode: Rounding)
    requires d > 0 && -d < n < 0
    ensures DivideAndRound(n, d, mode).Ok? ==> DivideAndRound(n, d, mode).value in {0, 1}
    ensures mode == Up ==> DivideAndRound(n, d, mode) == Ok(1)
    ensures mode == Floor ==> DivideAndRound(n, d, mode) == Ok(0)
  {
    assert TDiv(n, d) == 0;
  }

  /** The misrounded zero quotient, concretely: -5 / 100 rounded UP gives +1 where -1 is
      correct. */
  lemma ZeroQuotientExample()
    ensures DivideAndRound(-5, 100, Up) == Ok(1)
    ensures !Rounded(-5, 100, 1, Up) && Rounded(-5, 100, -1, Up)
  {
    assert TDiv(-5, 100) == 0 && TRem(-5, 100) == -5;
    assert RoundedPos(-5, 100, -1, Up);
  }

  /** The misjudged tie, concretely: 1 / 3 rounded HALF_UP gives 1 where 0 is correct. */
  lemma OddDivisorTieExample()
    ensures DivideAndRound(1, 3, HalfUp) == Ok(1)
    ensures !Rounded(1, 3, 1, HalfUp) && Rounded(1, 3, 0, HalfUp)
  {
    assert TDiv(1, 3) == 0 && TRem(1, 3) == 1;
    assert NeedIncrement(3, HalfUp, 1, 0, 1) == Ok(true);
    assert RoundedPos(1, 3, 0, HalfUp);
  }
}
