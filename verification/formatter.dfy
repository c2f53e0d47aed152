/** `toString`, `toFixed` and `toSignificant`: rendering a BigNumber as decimal text. Lengths
    handed to `padEnd` and `substring` are i32 sums in the source and wrap like them. */
module Formatter {
  import opened Results
  import opened Int32
  import opened Powers
  import opened DigitStrings
  import opened RoundingEngine
  import opened BigNumbers
  import opened Scaling

  /** The plain (non-exponent) text of a mantissa and a scale with no trailing zeros to drop:
      an integer with `-e` zeros appended, or the digits with a point placed `e` digits from the
      right, with "0." and leading zeros in front when there are not enough digits. */
  function Render(t: BigNumber): (r: Result<string>)
    requires Valid(t)
    ensures r.Err? <==> t.e == I32_MIN && t.m != 0
    ensures r.Err? ==> r.error == IntegerOverflow
  {
    if t.e == 0 then Ok(IntToString(t.m))
    else if t.e < 0 then
      if t.m == 0 then Ok("0")
      else
        var trailingZeros :- OverflowGuard(-t.e, false);
        var mString := IntToString(t.m);
        Ok(PadEnd(mString, Wrap32(|mString| + trailingZeros), '0'))
    else
      var neg := t.m < 0;
      var mStr := NatToString(Mag(t.m));
      var i := |mStr| - t.e;
      if i == 0 then Ok((if neg then "-0." else "0.") + mStr)
      else if i > 0 then Ok((if neg then "-" else "") + mStr[..i] + "." + mStr[i..])
      else
        var preM := if neg then "-0." else "0.";
        Ok(PadEnd(preM, Wrap32(|preM| - i), '0') + mStr)
  }

  /** `toString`: trim the trailing zeros, then render. */
  function ToString(x: BigNumber): (r: Result<string>)
    requires Valid(x)
    ensures r.Err? <==> x.m != 0 && TrimZeros(x.m, x.e, I32_MIN).e == I32_MIN
  {
    TrimZerosNonzero(x.m, x.e, I32_MIN);
    Render(TrimZeros(x.m, x.e, I32_MIN))
  }

  /** No rounding mode means rounding down, for `toFixed` and `toSignificant`. */
  function FixedRounding(mode: Rounding): (r: Rounding)
    ensures r != NoRounding
    ensures mode != NoRounding ==> r == mode
  {
    if mode == NoRounding then Down else mode
  }

  /** `t` is `s` followed by nothing but points and zeros. */
  predicate PaddedWith(s: string, t: string) {
    |s| <= |t| && t[..|s|] == s && forall i :: |s| <= i < |t| ==> t[i] == '0' || t[i] == '.'
  }

  /** `t` is a prefix of `s`. */
  predicate CutFrom(s: string, t: string) {
    |t| <= |s| && s[..|t|] == t
  }

  /** The text ends in a point followed by exactly `n` digits. */
  predicate Decimals(s: string, n: nat) {
    n < |s| && s[|s| - n - 1] == '.' && forall i :: |s| - n <= i < |s| ==> IsDigit(s[i])
  }

  /** `toFixed`: round to `places` decimal places (no rounding mode means rounding down), then
      pad the text with zeros, or cut an integer result down to its leading digits. The number
      of characters kept is computed from the digits of `x` before the point, not from those
      of the rounded value. A value with more scale than digits (below 0.1) prints as the
      rounded value's text, unpadded. */
  function ToFixed(x: BigNumber, places: int, mode: Rounding): (r: Result<string>)
    requires Valid(x) && IsI32(places)
    ensures RoundToPlaces(x, places, FixedRounding(mode)).Ok?
    ensures var res := RoundToPlaces(x, places, FixedRounding(mode)).value;
      r.Ok? ==> (ToString(res).Ok? &&
        (if x.e > Precision(x) then r.value == ToString(res).value
         else if places > 0 then PaddedWith(ToString(res).value, r.value)
         else r.value == "0" || CutFrom(ToString(res).value, r.value)))
    ensures r.Err? <==> ToString(RoundToPlaces(x, places, FixedRounding(mode)).value).Err?
                        || (x.e <= Precision(x) && !IsI32(Precision(x) - x.e + places))
    ensures r.Err? ==> r.error == IntegerOverflow
  {
    var round := FixedRounding(mode);
    var res := RoundToPlaces(x, places, round);
    assert res.Ok?;
    var resStr :- ToString(res.value);
    if x.e > Precision(x) then Ok(resStr)
    else
      var trimmed := TrimZeros(x.m, x.e, I32_MIN);
      TrimmedIntegerDigits(x);
      var intLength := Precision(trimmed) - trimmed.e;
      var precision :- OverflowGuard(intLength + places, false);
      var isNeg := if res.value.m < 0 then 1 else 0;
      if precision <= 0 then Ok("0")
      else if places > 0 then
        if trimmed.e <= 0 then
          var dot := PadEnd(".", Wrap32(1 + places), '0');
          assert forall i :: 0 <= i < |dot| ==> dot[i] == '0' || dot[i] == '.';
          Ok(resStr + dot)
        else Ok(PadEnd(resStr, Wrap32(precision + 1 + isNeg), '0'))
      else Ok(Substring(resStr, 0, Wrap32(precision + isNeg)))
  }

  /** Trimming zeros moves the point and the last digit together, so the count of digits
      before the point stays the same. */
  lemma TrimmedIntegerDigits(x: BigNumber)
    requires Valid(x)
    ensures var t := TrimZeros(x.m, x.e, I32_MIN); Precision(t) - t.e == Precision(x) - x.e
  {
    var t := TrimZeros(x.m, x.e, I32_MIN);
    if x.m == 0 {
      if x.e > I32_MIN {
        assert TrimLoop(0, x.e, I32_MIN) == BigNumber(0, x.e);
      }
    } else {
      TrimZerosNonzero(x.m, x.e, I32_MIN);
      ShiftedDigits(t.m, x.e - t.e, x.m);
    }
  }

  lemma ShiftedDigits(m: int, k: nat, n: int)
    requires m != 0 && m * Pow10(k) == n
    ensures NumDigits(Mag(n)) == NumDigits(Mag(m)) + k
  {
    assert Mag(n) == Mag(m) * Pow10(k) by {
      if m < 0 { assert n == -(Mag(m) * Pow10(k)); }
    }
    NumDigitsShift(Mag(m), k);
  }

  /** `toFixed` as its comments and tests describe it: x rounded to `places` decimal places
      and printed at exactly that scale. A positive `places` gives exactly that many digits
      after the point; a non-positive one gives the integer count of units of 10^-places,
      so -1 place turns 1234.01 into "123". Unlike `ToFixed`, the lengths come from the
      rounded value, not from x. */
  function ToFixedCorrected(x: BigNumber, places: int, mode: Rounding): (r: Result<string>)
    requires Valid(x) && IsI32(places) && x.e - places <= I32_MAX
    ensures 0 < places <= I32_MAX - 2 && r.Ok? ==> Decimals(r.value, places)
    ensures places <= 0 ==> r.Ok? && IntegerText(r.value)
    ensures r.Err? ==> r.error == IntegerOverflow
  {
    var res := RoundToPlaces(x, places, FixedRounding(mode)).value;
    var t := AtScale(res, places);
    if places <= 0 then Ok(IntToString(t.m))
    else if places <= I32_MAX - 2 then RenderDecimals(t); Render(t)
    else Render(t)
  }

  /** A minus sign or none, then decimal digits. */
  predicate IntegerText(s: string) {
    |s| >= 1 && (if s[0] == '-' then |s| >= 2 && AllDigits(s[1..]) else AllDigits(s))
  }

  /** `v` written at scale `e`, which must be at least its own unless `v` is zero. */
  function AtScale(v: BigNumber, e: int): (r: BigNumber)
    requires IsI32(e) && (v.e <= e || v.m == 0)
    ensures r.e == e && Value(r) == Value(v)
    ensures v.m != 0 ==> Precision(r) == Precision(v) + (e - v.e)
  {
    if v.m == 0 then
      assert Value(v) == 0.0 && Value(BigNumber(0, e)) == 0.0;
      BigNumber(0, e)
    else
      ValueRescale(v.m, e - v.e, e);
      ShiftedDigits(v.m, e - v.e, v.m * Pow10(e - v.e));
      BigNumber(v.m * Pow10(e - v.e), e)
  }

  /** A positive scale prints with exactly that many digits after the point, as long as the
      padding length does not wrap. */
  lemma RenderDecimals(t: BigNumber)
    requires Valid(t) && 0 < t.e <= I32_MAX - 2
    ensures Render(t).Ok? && Decimals(Render(t).value, t.e)
  {
    var neg := t.m < 0;
    var mStr := NatToString(Mag(t.m));
    var i := |mStr| - t.e;
    if i == 0 {
      DigitsAfter(if neg then "-0." else "0.", mStr);
    } else if i > 0 {
      DigitsAfter((if neg then "-" else "") + mStr[..i] + ".", mStr[i..]);
    } else {
      var preM := if neg then "-0." else "0.";
      var pad := PadEnd(preM, Wrap32(|preM| - i), '0');
      assert Wrap32(|preM| - i) == |preM| - i;
      ZerosThenDigits(preM, pad, mStr);
    }
  }

  lemma DigitsAfter(pre: string, digits: string)
    requires |pre| >= 1 && pre[|pre| - 1] == '.' && AllDigits(digits)
    ensures Decimals(pre + digits, |digits|)
  {
    var s := pre + digits;
    assert forall j :: |pre| <= j < |s| ==> s[j] == digits[j - |pre|];
  }

  lemma ZerosThenDigits(preM: string, pad: string, digits: string)
    requires |preM| >= 1 && preM[|preM| - 1] == '.' && AllDigits(digits)
    requires |pad| >= |preM| && pad[..|preM|] == preM && forall i :: |preM| <= i < |pad| ==> pad[i] == '0'
    ensures Decimals(pad + digits, |pad| - |preM| + |digits|)
  {
    var s := pad + digits;
    assert s[|preM| - 1] == pad[..|preM|][|preM| - 1];
    assert forall j :: |pad| <= j < |s| ==> s[j] == digits[j - |pad|];
  }

  /** `toSignificant`: trim, round to `digits` significant digits (no rounding mode means
      rounding down), and print; a non-positive digit count prints "0". */
  function ToSignificant(x: BigNumber, digits: int, mode: Rounding): (r: Result<string>)
    requires Valid(x)
    ensures digits <= 0 ==> r == Ok("0")
    ensures digits > 0 ==>
      var t := TrimZeros(x.m, x.e, I32_MIN);
      var res := DoRound(t, digits, FixedRounding(mode));
      (r.Ok? ==> res.Ok? && r == ToString(res.value) && Precision(res.value) <= digits
                 && RoundedAt(t.m, t.e, res.value, FixedRounding(mode))
                 && (digits < Precision(t) ==>
                       Precision(res.value) == digits
                       && RoundedAtScale(t.m, t.e, t.e - (Precision(t) - digits), res.value, FixedRounding(mode))))
      && (r.Err? ==> r.error == IntegerOverflow)
  {
    if digits <= 0 then Ok("0")
    else
      var trimmed := TrimZeros(x.m, x.e, I32_MIN);
      var round := FixedRounding(mode);
      var res :- DoRound(trimmed, digits, round);
      ToString(res)
  }
}
