/** `fromString` and `parseExp`: reading a decimal string such as "-12.50E3" into a
    BigNumber, rounding it to a precision, and trimming trailing zeros. */
module Parser {
  import opened Results
  import opened Int32
  import opened Powers
  import opened DigitStrings
  import opened RoundingEngine
  import opened BigNumbers
  import opened Scaling

  /** The scanner's state: the significant digits kept so far (`codes` up to `idx`), the
      precision counter `p`, the number of digits seen after the point, and whether the point
      has been seen. */
  datatype ScanState = ScanState(digits: string, p: int, exponent: int, dot: bool)

  const Start := ScanState([], 0, 0, false)

  /** What the scanner keeps true: the kept digits carry no leading zero, and `p` counts them,
      or is 1 when only zeros have been read. */
  predicate Good(st: ScanState) {
    AllDigits(st.digits)
    && (|st.digits| > 0 ==> st.digits[0] != '0' && st.p == |st.digits|)
    && (|st.digits| == 0 ==> st.p == 0 || st.p == 1)
    && st.exponent >= 0
  }

  /** One digit character. A first zero counts as one digit of precision but is not kept;
      later leading zeros are dropped; a nonzero digit replaces a lone leading zero. After the
      point every digit lowers the scale by one. */
  function DigitStep(st: ScanState, c: char): (r: ScanState)
    requires IsDigit(c)
    ensures r.dot == st.dot
    ensures r.exponent == st.exponent + (if st.dot then 1 else 0)
    ensures Good(st) ==> Good(r)
    ensures Good(st) ==> r.digits == if st.digits == [] && c == '0' then [] else st.digits + [c]
    ensures Good(st) ==> r.p >= 1
  {
    var exponent := if st.dot then st.exponent + 1 else st.exponent;
    if c == '0' then
      if st.p == 0 then ScanState(st.digits, 1, exponent, st.dot)
      else if |st.digits| != 0 then ScanState(st.digits + [c], st.p + 1, exponent, st.dot)
      else ScanState(st.digits, st.p, exponent, st.dot)
    else
      var p := if st.p != 1 || |st.digits| != 0 then st.p + 1 else st.p;
      var r := ScanState(st.digits + [c], p, exponent, st.dot);
      assert Good(st) ==> r.digits[0] != '0' by {
        if Good(st) && |st.digits| > 0 { assert r.digits[0] == st.digits[0]; }
      }
      r
  }

  /** The scanning loop over the characters after the sign. It stops at the end of the
      string or at an exponent mark, whose exponent `ParseExp` reads. */
  function Scan(t: string, st: ScanState): (r: Result<(ScanState, int)>)
    requires Good(st)
    ensures r.Ok? ==> Good(r.value.0) && r.value.0.exponent <= st.exponent + |t|
    ensures r.Ok? ==> IsI32(r.value.1)
    ensures r.Err? ==> r.error in {MultipleDecimalPoints, InvalidCharacter, NoExponentDigits,
                                   TooManyExponentDigits, NotADigit, IntegerOverflow}
    decreases |t|
  {
    if |t| == 0 then Ok((st, 0))
    else
      var c := t[0];
      if IsDigit(c) then Scan(t[1..], DigitStep(st, c))
      else if c == '.' then
        if st.dot then Err(MultipleDecimalPoints) else Scan(t[1..], st.(dot := true))
      else if c != 'E' && c != 'e' then Err(InvalidCharacter)
      else
        var exp :- ParseExp(t);
        Ok((st, exp))
  }

  /** Leading zeros of the exponent are skipped only while more than ten characters remain. */
  function SkipExpZeros(s: string): (r: string)
    ensures |r| <= |s| && r == s[|s| - |r|..]
    ensures |r| <= 10 || |r| == 0 || r[0] != '0'
    ensures forall i :: 0 <= i < |s| - |r| ==> s[i] == '0'
  {
    if |s| > 10 && s[0] == '0' then SkipExpZeros(s[1..]) else s
  }

  /** The digits of an exponent: what follows its mark and optional sign. */
  function ExpDigits(t: string): (d: string)
    requires |t| >= 1
    ensures |t| - 2 <= |d| <= |t| - 1 && d == t[|t| - |d|..]
  {
    var rest := t[1..];
    if |rest| > 0 && (rest[0] == '-' || rest[0] == '+') then rest[1..] else rest
  }

  /** The exponent carries a minus sign. */
  predicate ExpNegative(t: string)
    requires |t| >= 1
  {
    |t| > 1 && t[1] == '-'
  }

  /** `parseExp`: `t` starts at the exponent mark. An optional sign, then at most ten digits
      once the surplus leading zeros are skipped; the result must fit in an i32. What it
      returns is the signed number the exponent's digits denote (`ParseExpReads` gives the
      converse). */
  function ParseExp(t: string): (r: Result<int>)
    requires |t| >= 1
    ensures r.Ok? ==> IsI32(r.value)
    ensures r.Ok? ==> var d := ExpDigits(t);
      |d| >= 1 && AllDigits(d)
      && r.value == Signed(ExpNegative(t), DigitsValue(d))
    ensures r.Err? ==> r.error in {NoExponentDigits, TooManyExponentDigits, NotADigit, IntegerOverflow}
  {
    SignedExponent(ExpNegative(t), ExpDigits(t))
  }

  /** The digits of `parseExp` after its sign. */
  function SignedExponent(neg: bool, body: string): (r: Result<int>)
    ensures r.Ok? ==> IsI32(r.value)
    ensures r.Ok? ==> (|body| >= 1 && AllDigits(body)
      && r.value == Signed(neg, DigitsValue(body)))
    ensures r.Err? ==> r.error in {NoExponentDigits, TooManyExponentDigits, NotADigit, IntegerOverflow}
  {
    if |body| == 0 then Err(NoExponentDigits)
    else
      var digits := SkipExpZeros(body);
      if |digits| > 10 then Err(TooManyExponentDigits)
      else if !AllDigits(digits) then Err(NotADigit)
      else
        ZerosPrefixValue(body, digits);
        OverflowGuard(Signed(neg, DigitsValue(digits)), false)
  }

  /** `v`, negated when `neg`. */
  function Signed(neg: bool, v: int): int {
    if neg then -v else v
  }

  /** A string of zeros in front of digits leaves their value alone. */
  lemma ZerosPrefixValue(s: string, d: string)
    requires AllDigits(d) && |d| <= |s| && d == s[|s| - |d|..]
    requires forall i :: 0 <= i < |s| - |d| ==> s[i] == '0'
    ensures AllDigits(s) && DigitsValue(s) == DigitsValue(d)
  {
    var z := s[..|s| - |d|];
    assert z == Repeat('0', |z|);
    ZerosValue(|z|);
    DigitsValueAppend(z, d);
    assert s == z + d;
  }

  /** Every exponent made of digits reads as its signed value: it fails only when the value
      has more than ten digits, or does not fit an i32. */
  lemma ParseExpReads(t: string)
    requires |t| >= 1 && |ExpDigits(t)| >= 1 && AllDigits(ExpDigits(t))
    ensures var v := DigitsValue(ExpDigits(t));
      ParseExp(t) == if v >= Pow10(10) then Err(TooManyExponentDigits)
                     else OverflowGuard(Signed(ExpNegative(t), v), false)
  {
    SignedExponentReads(ExpNegative(t), ExpDigits(t));
  }

  lemma SignedExponentReads(neg: bool, body: string)
    requires |body| >= 1 && AllDigits(body)
    ensures var v := DigitsValue(body);
      SignedExponent(neg, body) == if v >= Pow10(10) then Err(TooManyExponentDigits)
                                   else OverflowGuard(Signed(neg, v), false)
  {
    if |SkipExpZeros(body)| > 10 {
      ExponentTooManyDigits(neg, body);
    } else {
      ExponentFits(neg, body);
    }
  }

  /** More than ten digits left after the skipped zeros: the value is at least 10^10. */
  lemma ExponentTooManyDigits(neg: bool, body: string)
    requires |body| >= 1 && AllDigits(body) && |SkipExpZeros(body)| > 10
    ensures SignedExponent(neg, body) == Err(TooManyExponentDigits) && DigitsValue(body) >= Pow10(10)
  {
    var digits := SkipExpZeros(body);
    SuffixDigits(body, digits);
    ZerosPrefixValue(body, digits);
    LeadingDigitBound(digits);
    Pow10Monotone(10, |digits| - 1);
  }

  /** At most ten digits left: the value is below 10^10 and only the i32 guard remains. */
  lemma ExponentFits(neg: bool, body: string)
    requires |body| >= 1 && AllDigits(body) && |SkipExpZeros(body)| <= 10
    ensures var v := DigitsValue(body);
      SignedExponent(neg, body) == OverflowGuard(Signed(neg, v), false) && v < Pow10(10)
  {
    var digits := SkipExpZeros(body);
    SuffixDigits(body, digits);
    ZerosPrefixValue(body, digits);
    Pow10Monotone(|digits|, 10);
  }

  lemma SuffixDigits(s: string, d: string)
    requires AllDigits(s) && |d| <= |s| && d == s[|s| - |d|..]
    ensures AllDigits(d)
  {
    assert forall i :: 0 <= i < |d| ==> d[i] == s[|s| - |d| + i];
  }

  /** A digit string with a nonzero first digit is at least 10^(length - 1). */
  lemma LeadingDigitBound(s: string)
    requires AllDigits(s) && |s| >= 2 && s[0] != '0'
    ensures DigitsValue(s) >= Pow10(|s| - 1)
  {
    CanonicalDigits(s);
  }

  /** The reading half of `fromString`: an optional sign, digits with at most one point, an
      optional exponent. What comes out is the unrounded mantissa and scale, and the
      precision counter `p`, which is the mantissa's digit count. */
  function ReadDecimal(s: string): (r: Result<(BigNumber, int)>)
    requires |s| <= I32_MAX
    ensures r.Ok? ==> Valid(r.value.0) && r.value.1 == Precision(r.value.0)
    ensures r.Err? ==> r.error != DivideByZero && r.error != RoundingNecessary
  {
    var neg := |s| > 0 && s[0] == '-';
    var t := if |s| > 0 && (s[0] == '-' || s[0] == '+') then s[1..] else s;
    var scanned :- Scan(t, Start);
    var (st, eMark) := scanned;
    if st.p == 0 then Err(NoDigits)
    else
      var exponent :- if eMark != 0 then AdjustScale(st.exponent, eMark) else Ok(st.exponent);
      var magnitude: int := DigitsValue(st.digits);
      var mantissa := if neg then -magnitude else magnitude;
      ScanPrecision(st, mantissa);
      Ok((BigNumber(mantissa, exponent), st.p))
  }

  /** The finishing half of `fromString`: with a positive `precision` the mantissa is rounded
      to that many digits; a zero comes back as 0 at scale 0, anything else with its trailing
      zeros trimmed. Without rounding the value is kept; with it, the result is x correctly
      rounded at the scale `k` that leaves `precision` digits (a carry may trim it further). */
  function Finish(x: BigNumber, p: int, precision: int, mode: Rounding): (r: Result<BigNumber>)
    requires Valid(x) && p == Precision(x)
    ensures r.Ok? ==> Valid(r.value)
    ensures r.Ok? && r.value.m == 0 ==> r.value == BigNumber(0, 0)
    ensures r.Ok? ==> (r.value.m == 0 <==> x.m == 0)
    ensures r.Ok? && r.value.m != 0 ==> r.value.m % 10 != 0 || r.value.e == I32_MIN
    ensures r.Ok? && precision > 0 ==> Precision(r.value) <= precision
    ensures (precision <= 0 || Precision(x) <= precision) ==> r.Ok?
    ensures (precision <= 0 || Precision(x) <= precision) && x.m != 0 ==> r == Ok(TrimZeros(x.m, x.e, I32_MIN))
    ensures r.Ok? && (precision <= 0 || Precision(x) <= precision) ==> Value(r.value) == Value(x)
    ensures r.Ok? && 0 < precision < Precision(x) ==>
      RoundedAtScale(x.m, x.e, x.e - (Precision(x) - precision), r.value, mode)
    ensures r.Err? ==> r.error == IntegerOverflow || (r.error == RoundingNecessary && mode == NoRounding)
  {
    var rounded :- if precision > 0 && p > precision then RoundDigits(x.m, x.e, precision, mode)
                   else Ok(x);
    RoundingKeepsZero(x, precision, rounded, mode);
    if rounded.m == 0 then Ok(BigNumber(0, 0))
    else
      var trimmed := TrimZeros(rounded.m, rounded.e, I32_MIN);
      FinishTrimmed(x, precision, rounded, mode);
      Ok(trimmed)
  }

  /** What trimming the (possibly rounded) nonzero mantissa keeps. */
  lemma FinishTrimmed(x: BigNumber, precision: int, v: BigNumber, mode: Rounding)
    requires Valid(x) && Valid(v) && v.m != 0
    requires !(0 < precision < Precision(x)) ==> v == x
    requires 0 < precision < Precision(x) ==>
      Precision(v) <= precision && RoundedAtScale(x.m, x.e, x.e - (Precision(x) - precision), v, mode)
    ensures var t := TrimZeros(v.m, v.e, I32_MIN);
      t.m != 0 && (precision > 0 ==> Precision(t) <= precision)
      && (!(0 < precision < Precision(x)) ==> Value(t) == Value(x))
      && (0 < precision < Precision(x) ==>
        RoundedAtScale(x.m, x.e, x.e - (Precision(x) - precision), t, mode))
  {
    var t := TrimZeros(v.m, v.e, I32_MIN);
    TrimmedDigits(v.m, v.e, t);
    TrimZerosValue(v.m, v.e, I32_MIN);
    TrimZerosNonzero(v.m, v.e, I32_MIN);
    if 0 < precision < Precision(x) {
      TrimmedRounding(x, precision, v, t, mode);
    }
  }

  /** The mantissa after the rounding step is zero exactly when x's was. */
  lemma RoundingKeepsZero(x: BigNumber, precision: int, v: BigNumber, mode: Rounding)
    requires Valid(x)
    requires !(0 < precision < Precision(x)) ==> v == x
    requires 0 < precision < Precision(x) ==>
      RoundedAtScale(x.m, x.e, x.e - (Precision(x) - precision), v, mode)
    ensures v.m == 0 <==> x.m == 0
  {
    if 0 < precision < Precision(x) {
      var n := Precision(x);
      var k := x.e - (n - precision);
      var d := Pow10(n - precision);
      var w := v.m * Pow10(k - v.e);
      assert x.m != 0;
      assert Mag(w * d - x.m) < d;
      Pow10Monotone(n - precision, n - 1);
      assert Mag(x.m) >= d;
      assert w != 0;
    }
  }

  /** Trimming a rounded mantissa keeps it rounded at the scale the rounding chose. */
  lemma TrimmedRounding(x: BigNumber, precision: int, v: BigNumber, t: BigNumber, mode: Rounding)
    requires Valid(x) && 0 < precision < Precision(x)
    requires RoundedAtScale(x.m, x.e, x.e - (Precision(x) - precision), v, mode)
    requires t.e <= v.e && t.m * Pow10(v.e - t.e) == v.m
    ensures var k := x.e - (Precision(x) - precision);
      t.e <= k && t.m * Pow10(k - t.e) == v.m * Pow10(k - v.e)
  {
    var k := x.e - (Precision(x) - precision);
    Pow10Add(v.e - t.e, k - v.e);
    MulAssoc(t.m, Pow10(v.e - t.e), Pow10(k - v.e));
    assert k - t.e == (v.e - t.e) + (k - v.e);
  }

  /** The precision and rounding `fromString` uses when none is given: the digit count of
      the largest 512-bit integer, and rounding half away from zero. */
  const DefaultPrecision := 155
  const DefaultRounding := HalfUp

  /** `fromString`: read, then round and trim. */
  function FromString(s: string, precision: int, mode: Rounding): (r: Result<BigNumber>)
    requires |s| <= I32_MAX
    ensures r.Ok? ==> Valid(r.value)
    ensures r.Ok? && r.value.m == 0 ==> r.value == BigNumber(0, 0)
    ensures r.Ok? && r.value.m != 0 ==> r.value.m % 10 != 0 || r.value.e == I32_MIN
    ensures r.Ok? && precision > 0 ==> Precision(r.value) <= precision
  {
    var read :- ReadDecimal(s);
    Finish(read.0, read.1, precision, mode)
  }

  /** The precision counter `p` is the digit count of the mantissa read so far. */
  lemma ScanPrecision(st: ScanState, mantissa: int)
    requires Good(st) && st.p != 0
    requires Mag(mantissa) == DigitsValue(st.digits)
    ensures st.p == NumDigits(Mag(mantissa))
  {
    if |st.digits| > 0 {
      CanonicalDigits(st.digits);
    }
  }
}
