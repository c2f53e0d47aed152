/** Reading back what `toString` prints: `fromString(x.toString())` is x with its trailing
    zeros trimmed (0 at scale 0 for a zero), so it has x's value; and printing what was read
    from a printed string gives the same string. */
module RoundTrip {
  import opened Results
  import opened Int32
  import opened Powers
  import opened DigitStrings
  import opened RoundingEngine
  import opened BigNumbers
  import opened Scaling
  import opened Parser
  import opened Formatter

  /** The scanner's state after a run of digits. */
  function DigitSteps(a: string, st: ScanState): (r: ScanState)
    requires AllDigits(a) && Good(st)
    ensures Good(r)
    decreases |a|
  {
    if |a| == 0 then st
    else
      assert AllDigits(a[1..]) by { assert forall i :: 0 <= i < |a| - 1 ==> a[1..][i] == a[i + 1]; }
      DigitSteps(a[1..], DigitStep(st, a[0]))
  }

  /** `w` without its leading zeros. */
  function DropZeros(w: string): (r: string)
    ensures |r| <= |w| && r == w[|w| - |r|..]
    ensures |r| == 0 || r[0] != '0'
    ensures forall i :: 0 <= i < |w| - |r| ==> w[i] == '0'
  {
    if |w| > 0 && w[0] == '0' then DropZeros(w[1..]) else w
  }

  lemma {:induction false} DropZerosValue(w: string)
    requires AllDigits(w)
    ensures AllDigits(DropZeros(w)) && DigitsValue(DropZeros(w)) == DigitsValue(w)
    decreases |w|
  {
    if |w| > 0 && w[0] == '0' {
      var w' := w[1..];
      assert AllDigits(w') by { assert forall i :: 0 <= i < |w'| ==> w'[i] == w[i + 1]; }
      DropZerosValue(w');
      assert DropZeros(w) == DropZeros(w');
      LeadingZeroValue(w');
      assert w == ['0'] + w';
    }
  }

  lemma LeadingZeroValue(w: string)
    requires AllDigits(w)
    ensures AllDigits(['0'] + w) && DigitsValue(['0'] + w) == DigitsValue(w)
  {
    var z := ['0'];
    assert DigitsValue(z) == 0 by {
      assert z[..0] == [];
    }
    DigitsValueAppend(z, w);
    assert 0 * Pow10(|w|) == 0;
  }

  lemma {:induction false} DropZerosConcat(a: string, b: string)
    ensures DropZeros(DropZeros(a) + b) == DropZeros(a + b)
    decreases |a|
  {
    if |a| > 0 && a[0] == '0' {
      assert (a + b)[1..] == a[1..] + b;
      DropZerosConcat(a[1..], b);
    }
  }

  /** Scanning a run of digits is stepping through them one by one. */
  lemma {:induction false} ScanDigits(a: string, rest: string, st: ScanState)
    requires AllDigits(a) && Good(st)
    ensures Scan(a + rest, st) == Scan(rest, DigitSteps(a, st))
    decreases |a|
  {
    if |a| > 0 {
      assert (a + rest)[0] == a[0];
      assert (a + rest)[1..] == a[1..] + rest;
      assert AllDigits(a[1..]) by { assert forall i :: 0 <= i < |a| - 1 ==> a[1..][i] == a[i + 1]; }
      ScanDigits(a[1..], rest, DigitStep(st, a[0]));
    } else {
      assert a + rest == rest;
    }
  }

  /** After a run of digits the kept digits are everything read so far less its leading
      zeros; after the point each digit lowers the scale. */
  lemma {:induction false} DigitStepsState(a: string, st: ScanState)
    requires AllDigits(a) && Good(st)
    ensures var r := DigitSteps(a, st);
      r.digits == DropZeros(st.digits + a)
      && r.exponent == st.exponent + (if st.dot then |a| else 0)
      && r.dot == st.dot
      && (|a| > 0 ==> r.p >= 1)
    decreases |a|
  {
    if |a| > 0 {
      var st1 := DigitStep(st, a[0]);
      var a' := a[1..];
      assert AllDigits(a') by { assert forall i :: 0 <= i < |a'| ==> a'[i] == a[i + 1]; }
      DigitStepsState(a', st1);
      StepKeeps(st, a);
      assert DigitSteps(a, st) == DigitSteps(a', st1);
      if |a'| == 0 {
        assert DigitSteps(a, st) == st1;
      }
    } else {
      KeptHasNoLeadingZero(st);
      assert st.digits + a == st.digits;
    }
  }

  /** One digit step keeps the kept digits equal to what has been read less its leading
      zeros. */
  lemma StepKeeps(st: ScanState, a: string)
    requires Good(st) && |a| > 0 && IsDigit(a[0])
    ensures DropZeros(DigitStep(st, a[0]).digits + a[1..]) == DropZeros(st.digits + a)
  {
    var d := DigitStep(st, a[0]).digits;
    if st.digits == [] && a[0] == '0' {
      LeadingZeroDropped(a);
      assert d + a[1..] == a[1..];
      assert st.digits + a == a;
    } else {
      assert d == st.digits + [a[0]];
      AppendFirst(st.digits, a);
    }
  }

  lemma LeadingZeroDropped(a: string)
    requires |a| > 0 && a[0] == '0'
    ensures DropZeros(a) == DropZeros(a[1..])
  {
  }

  lemma AppendFirst(w: string, a: string)
    requires |a| > 0
    ensures (w + [a[0]]) + a[1..] == w + a
  {
    assert a == [a[0]] + a[1..];
  }

  /** The kept digits never start with a zero, so dropping leading zeros keeps them. */
  lemma KeptHasNoLeadingZero(st: ScanState)
    requires Good(st)
    ensures DropZeros(st.digits) == st.digits
  {
    if |st.digits| > 0 {
      assert st.digits[0] != '0';
    }
  }

  /** Scanning digits only. */
  lemma ScanPlain(a: string)
    requires AllDigits(a) && |a| >= 1
    ensures var S := DigitSteps(a, Start);
      Scan(a, Start) == Ok((S, 0)) && S.digits == DropZeros(a) && S.exponent == 0 && S.p >= 1
  {
    ScanDigits(a, [], Start);
    assert a + [] == a;
    DigitStepsState(a, Start);
    assert Start.digits + a == a;
  }

  /** Scanning digits, a point, and digits. */
  lemma ScanWithPoint(a: string, b: string)
    requires AllDigits(a) && AllDigits(b) && |a| >= 1
    ensures var S := DigitSteps(b, DigitSteps(a, Start).(dot := true));
      Scan(a + "." + b, Start) == Ok((S, 0))
      && S.digits == DropZeros(a + b) && S.exponent == |b| && S.p >= 1
  {
    var S1 := DigitSteps(a, Start);
    ScanDigits(a, "." + b, Start);
    assert a + "." + b == a + ("." + b);
    DigitStepsState(a, Start);
    assert Start.digits + a == a;
    var S1' := S1.(dot := true);
    assert ("." + b)[0] == '.' && ("." + b)[1..] == b;
    assert Scan("." + b, S1) == Scan(b, S1');
    ScanDigits(b, [], S1');
    assert b + [] == b;
    DigitStepsState(b, S1');
    DropZerosConcat(a, b);
  }

  /** A sign in front of what the scanner reads. */
  lemma ReadSigned(neg: bool, body: string, S: ScanState)
    requires |body| >= 1 && IsDigit(body[0]) && |body| < I32_MAX
    requires Good(S) && S.p != 0 && IsI32(S.exponent) && Scan(body, Start) == Ok((S, 0))
    ensures var v: int := DigitsValue(S.digits);
      |Sign(neg) + body| <= I32_MAX
      && ReadDecimal(Sign(neg) + body) == Ok((BigNumber(if neg then -v else v, S.exponent), S.p))
  {
    SignPrefix(neg, body);
    ReadScanned(Sign(neg) + body, body, neg, S);
  }

  /** `fromString` on a string whose unsigned part scans with no exponent mark. */
  lemma ReadScanned(s: string, t: string, neg: bool, S: ScanState)
    requires |s| <= I32_MAX && neg == (|s| > 0 && s[0] == '-')
    requires t == if |s| > 0 && (s[0] == '-' || s[0] == '+') then s[1..] else s
    requires Good(S) && S.p != 0 && Scan(t, Start) == Ok((S, 0))
    ensures var v: int := DigitsValue(S.digits);
      ReadDecimal(s) == Ok((BigNumber(if neg then -v else v, S.exponent), S.p))
  {
  }

  /** `fromString` takes off the sign that `toString` put in front, and nothing else. */
  lemma SignPrefix(neg: bool, body: string)
    requires |body| >= 1 && IsDigit(body[0])
    ensures var s := Sign(neg) + body;
      (if |s| > 0 && (s[0] == '-' || s[0] == '+') then s[1..] else s) == body
      && (|s| > 0 && s[0] == '-') == neg
  {
    var s := Sign(neg) + body;
    if neg {
      assert s[0] == '-' && s[1..] == body;
    } else {
      assert s == body;
    }
  }

  function Sign(neg: bool): string {
    if neg then "-" else ""
  }

  /** Reading a signed integer followed by `k` zeros. */
  lemma ReadInteger(m: int, k: nat)
    requires m != 0 || k == 0
    requires NumDigits(Mag(m)) + k + 1 < I32_MAX
    ensures var s := Sign(m < 0) + (NatToString(Mag(m)) + Repeat('0', k));
      |s| <= I32_MAX && ReadDecimal(s).Ok? && ReadDecimal(s).value.0 == BigNumber(m * Pow10(k), 0)
  {
    var body := NatToString(Mag(m)) + Repeat('0', k);
    var S := ScanInteger(m, k);
    ReadSigned(m < 0, body, S);
    SignedShift(m, k, DigitsValue(S.digits));
  }

  lemma SignedShift(m: int, k: nat, v: int)
    requires v == Mag(m) * Pow10(k)
    ensures (if m < 0 then -v else v) == m * Pow10(k)
  {
  }

  /** Scanning the digits of an integer followed by `k` zeros. */
  lemma ScanInteger(m: int, k: nat) returns (S: ScanState)
    requires m != 0 || k == 0
    ensures var body := NatToString(Mag(m)) + Repeat('0', k);
      |body| == NumDigits(Mag(m)) + k && IsDigit(body[0])
      && Good(S) && S.p != 0 && S.exponent == 0 && Scan(body, Start) == Ok((S, 0))
      && DigitsValue(S.digits) == Mag(m) * Pow10(k)
  {
    var mStr := NatToString(Mag(m));
    var zeros := Repeat('0', k);
    var body := mStr + zeros;
    assert IsDigit(body[0]) by { assert body[0] == mStr[0]; }
    assert AllDigits(body) by { DigitsValueAppend(mStr, zeros); }
    ScanPlain(body);
    S := DigitSteps(body, Start);
    assert DigitsValue(S.digits) == Mag(m) * Pow10(k) by {
      ZerosValue(k);
      DigitsValueAppend(mStr, zeros);
      NatToStringValue(Mag(m));
      if m == 0 {
        assert body == "0";
        assert S.digits == [];
      } else {
        assert body[0] == mStr[0];
        assert mStr[0] != '0';
        assert S.digits == body;
      }
    }
  }

  /** Reading a signed fraction `a.b`. */
  lemma ReadFraction(neg: bool, a: string, b: string)
    requires AllDigits(a) && AllDigits(b) && |a| >= 1
    requires |a| + |b| + 2 < I32_MAX
    ensures var s := Sign(neg) + (a + "." + b);
      var v: int := DigitsValue(a + b);
      |s| <= I32_MAX && ReadDecimal(s).Ok? && ReadDecimal(s).value.0 == BigNumber(if neg then -v else v, |b|)
  {
    ScanWithPoint(a, b);
    var S := DigitSteps(b, DigitSteps(a, Start).(dot := true));
    DigitsValueAppend(a, b);
    DropZerosValue(a + b);
    var body := a + "." + b;
    assert body[0] == a[0];
    assert Scan(body, Start) == Ok((S, 0));
    ReadSigned(neg, body, S);
  }

  /** A mantissa with a nonzero last digit, shifted up by `k` zeros, trims back to itself. */
  lemma {:induction false} TrimExact(m: int, k: nat, e: int, pref: int)
    requires m % 10 != 0 && IsI32(e) && I32_MIN <= pref <= e - k
    ensures TrimZeros(m * Pow10(k), e, pref) == BigNumber(m, e - k)
    decreases k
  {
    var big := m * Pow10(k);
    if k == 0 {
      assert big == m;
      TrimStops(m);
    } else {
      var q := m * Pow10(k - 1);
      assert big == 10 * q;
      assert Mag(big) >= 10 by {
        assert Mag(big) == Mag(m) * Pow10(k) && Pow10(k) == 10 * Pow10(k - 1);
        MulAtLeast(Mag(m), Pow10(k));
      }
      TrimStops(big);
      assert TDiv(big, 10) == q by {
        assert big == 10 * TDiv(big, 10) + TRem(big, 10);
      }
      if e - 1 > pref {
        TrimExact(m, k - 1, e - 1, pref);
      } else {
        assert k == 1;
      }
    }
  }

  /** A trimmed mantissa is left alone by trimming. */
  lemma TrimFixed(m: int, e: int, pref: int)
    requires m % 10 != 0 && IsI32(e) && I32_MIN <= pref
    ensures TrimZeros(m, e, pref) == BigNumber(m, e)
  {
    if e > pref {
      TrimExact(m, 0, e, pref);
    }
  }

  /** A non-positive scale prints as an integer (with `-e` zeros appended), which reads back
      at scale 0. */
  lemma RenderReadInteger(t: BigNumber)
    requires Valid(t) && t.e <= 0 && -t.e + Precision(t) + 3 <= I32_MAX
    ensures Render(t).Ok? && |Render(t).value| <= I32_MAX
    ensures var read := ReadDecimal(Render(t).value);
      read.Ok? && read.value.0 == if t.m == 0 then BigNumber(0, 0) else BigNumber(t.m * Pow10(-t.e), 0)
  {
    if t.e == 0 {
      RenderReadScaleZero(t);
    } else if t.m == 0 {
      RenderReadZero(t);
    } else {
      RenderReadShifted(t);
    }
  }

  lemma RenderReadScaleZero(t: BigNumber)
    requires Valid(t) && t.e == 0 && Precision(t) + 3 <= I32_MAX
    ensures Render(t).Ok? && |Render(t).value| <= I32_MAX
    ensures var read := ReadDecimal(Render(t).value);
      read.Ok? && read.value.0 == BigNumber(t.m, 0)
  {
    SignedText(t.m);
    assert Render(t) == Ok(IntToString(t.m));
    ReadInteger(t.m, 0);
    assert t.m * Pow10(0) == t.m;
  }

  /** `toString` of an integer is its sign, then its digits. */
  lemma SignedText(m: int)
    ensures IntToString(m) == Sign(m < 0) + (NatToString(Mag(m)) + Repeat('0', 0))
  {
    var n := NatToString(Mag(m));
    assert Repeat('0', 0) == [];
    assert n + [] == n;
    if m < 0 {
      assert IntToString(m) == "-" + n;
    } else {
      assert IntToString(m) == "" + n;
    }
  }

  lemma RenderReadZero(t: BigNumber)
    requires Valid(t) && t.e < 0 && t.m == 0
    ensures Render(t).Ok? && |Render(t).value| <= I32_MAX
    ensures var read := ReadDecimal(Render(t).value);
      read.Ok? && read.value.0 == BigNumber(0, 0)
  {
    assert Render(t).value == Sign(false) + (NatToString(0) + Repeat('0', 0));
    ReadInteger(0, 0);
  }

  lemma RenderReadShifted(t: BigNumber)
    requires Valid(t) && t.e < 0 && t.m != 0 && -t.e + Precision(t) + 3 <= I32_MAX
    ensures Render(t).Ok? && |Render(t).value| <= I32_MAX
    ensures var read := ReadDecimal(Render(t).value);
      read.Ok? && read.value.0 == BigNumber(t.m * Pow10(-t.e), 0)
  {
    var k := -t.e;
    var zeros := Repeat('0', k);
    var mString := IntToString(t.m);
    assert PadEnd(mString, Wrap32(|mString| + k), '0') == mString + zeros;
    assert mString + zeros == Sign(t.m < 0) + (NatToString(Mag(t.m)) + zeros);
    ReadInteger(t.m, k);
  }

  /** A positive scale prints with a point, and reads back exactly. */
  lemma RenderReadFraction(t: BigNumber)
    requires Valid(t) && t.e > 0 && t.e + Precision(t) + 3 <= I32_MAX
    ensures Render(t).Ok? && |Render(t).value| <= I32_MAX
    ensures var read := ReadDecimal(Render(t).value);
      read.Ok? && read.value.0 == t
  {
    var a, b := FractionText(t);
    ReadFraction(t.m < 0, a, b);
  }

  /** The text of a positive-scale value split at its point: the digits before it (a lone
      zero when there are none) and the `e` digits after it. */
  lemma FractionText(t: BigNumber) returns (a: string, b: string)
    requires Valid(t) && t.e > 0 && t.e + Precision(t) + 3 <= I32_MAX
    ensures AllDigits(a) && AllDigits(b) && |a| >= 1 && |a| + |b| <= Precision(t) + t.e + 1
    ensures Render(t) == Ok(Sign(t.m < 0) + (a + "." + b))
    ensures DigitsValue(a + b) == Mag(t.m) && |b| == t.e
  {
    NatToStringValue(Mag(t.m));
    if Precision(t) > t.e {
      a, b := SplitDigits(t);
    } else if Precision(t) == t.e {
      a, b := "0", NatToString(Mag(t.m));
      LeadingZeroValue(b);
      assert (if t.m < 0 then "-0." else "0.") + b == Sign(t.m < 0) + (a + "." + b);
    } else {
      a, b := PaddedFraction(t);
    }
  }

  /** More digits than the scale: the point goes inside the digits. */
  lemma SplitDigits(t: BigNumber) returns (a: string, b: string)
    requires Valid(t) && t.e > 0 && Precision(t) > t.e
    ensures AllDigits(a) && AllDigits(b) && |a| >= 1 && |a| + |b| == Precision(t)
    ensures Render(t) == Ok(Sign(t.m < 0) + (a + "." + b))
    ensures a + b == NatToString(Mag(t.m)) && |b| == t.e
  {
    var mStr := NatToString(Mag(t.m));
    var i := |mStr| - t.e;
    a, b := mStr[..i], mStr[i..];
    assert a + b == mStr;
    assert Sign(t.m < 0) + a + "." + b == Sign(t.m < 0) + (a + "." + b);
  }

  /** Fewer digits than the scale: "0." and zeros go in front. */
  lemma PaddedFraction(t: BigNumber) returns (a: string, b: string)
    requires Valid(t) && t.e > 0 && t.e + Precision(t) + 3 <= I32_MAX && Precision(t) < t.e
    ensures AllDigits(a) && AllDigits(b) && |a| == 1 && |b| == t.e
    ensures Render(t) == Ok(Sign(t.m < 0) + (a + "." + b))
    ensures DigitsValue(a + b) == DigitsValue(NatToString(Mag(t.m)))
  {
    var mStr := NatToString(Mag(t.m));
    var n := t.e - |mStr|;
    a, b := "0", Repeat('0', n) + mStr;
    ZerosInFront(mStr, n);
    var preM := if t.m < 0 then "-0." else "0.";
    assert Render(t) == Ok(PadEnd(preM, |preM| + n, '0') + mStr) by {
      assert Wrap32(|preM| + n) == |preM| + n;
    }
    PaddedText(t.m < 0, mStr, n);
  }

  lemma PadEndBy(s: string, n: nat, c: char)
    ensures PadEnd(s, |s| + n, c) == s + Repeat(c, n)
  {
  }

  /** "0." then `n` zeros then the digits, as the sign and a fraction with a zero before the
      point. */
  lemma PaddedText(neg: bool, mStr: string, n: nat)
    ensures var preM := if neg then "-0." else "0.";
      PadEnd(preM, |preM| + n, '0') + mStr == Sign(neg) + ("0" + "." + (Repeat('0', n) + mStr))
  {
    var preM := if neg then "-0." else "0.";
    var s, z := Sign(neg), Repeat('0', n);
    PadEndBy(preM, n, '0');
    assert preM == s + "0.";
    calc {
      PadEnd(preM, |preM| + n, '0') + mStr;
      (s + "0." + z) + mStr;
      { Assoc3(s, "0.", z); }
      (s + ("0." + z)) + mStr;
      { Assoc3(s, "0." + z, mStr); }
      s + (("0." + z) + mStr);
      { Assoc3("0.", z, mStr); }
      s + ("0." + (z + mStr));
      { assert "0" + "." == "0."; }
      s + ("0" + "." + (z + mStr));
    }
  }

  lemma Assoc3(a: string, b: string, c: string)
    ensures a + b + c == a + (b + c)
  {
  }

  /** Zeros in front of digits (and one more) do not change their value. */
  lemma ZerosInFront(mStr: string, n: nat)
    requires AllDigits(mStr)
    ensures AllDigits(Repeat('0', n) + mStr)
    ensures DigitsValue("0" + (Repeat('0', n) + mStr)) == DigitsValue(mStr)
  {
    var zeros := Repeat('0', n);
    ZerosValue(n);
    DigitsValueAppend(zeros, mStr);
    LeadingZeroValue(zeros + mStr);
  }

  /** How many digits the printed text of `t` holds: an integer text carries `-e` appended
      zeros. */
  function TextDigits(t: BigNumber): nat {
    Precision(t) + (if t.e < 0 then -t.e else 0)
  }

  /** What `fromString` makes of the text of a trimmed value that is short enough to print
      without wrap-around. */
  lemma ReadRendered(t: BigNumber, precision: int, mode: Rounding)
    requires Valid(t) && (t.m == 0 || t.m % 10 != 0) && Mag(t.e) + Precision(t) + 3 <= I32_MAX
    requires precision <= 0 || TextDigits(t) <= precision
    ensures Render(t).Ok? && |Render(t).value| <= I32_MAX
    ensures FromString(Render(t).value, precision, mode) == Ok(if t.m == 0 then BigNumber(0, 0) else t)
  {
    if t.e <= 0 {
      ReadRenderedInteger(t, precision, mode);
    } else {
      RenderReadFraction(t);
      FinishRead(Render(t).value, t, precision, mode);
      if t.m != 0 {
        TrimFixed(t.m, t.e, I32_MIN);
      }
    }
  }

  lemma ReadRenderedInteger(t: BigNumber, precision: int, mode: Rounding)
    requires Valid(t) && t.e <= 0 && (t.m == 0 || t.m % 10 != 0) && Mag(t.e) + Precision(t) + 3 <= I32_MAX
    requires precision <= 0 || TextDigits(t) <= precision
    ensures Render(t).Ok? && |Render(t).value| <= I32_MAX
    ensures FromString(Render(t).value, precision, mode) == Ok(if t.m == 0 then BigNumber(0, 0) else t)
  {
    RenderReadInteger(t);
    var s := Render(t).value;
    var k := -t.e;
    if t.m != 0 {
      var read := BigNumber(t.m * Pow10(k), 0);
      ShiftedPrecision(t.m, k, 0);
      FinishRead(s, read, precision, mode);
      TrimExact(t.m, k, 0, I32_MIN);
    } else {
      FinishRead(s, BigNumber(0, 0), precision, mode);
    }
  }

  /** `fromString` of a text that reads as `x` with no more digits than `precision` allows:
      no rounding, only trimming. */
  lemma FinishRead(s: string, x: BigNumber, precision: int, mode: Rounding)
    requires |s| <= I32_MAX && ReadDecimal(s).Ok? && ReadDecimal(s).value.0 == x
    requires precision <= 0 || Precision(x) <= precision
    ensures Valid(x)
    ensures FromString(s, precision, mode) == Ok(if x.m == 0 then BigNumber(0, 0) else TrimZeros(x.m, x.e, I32_MIN))
  {
    assert FromString(s, precision, mode) == Finish(x, Precision(x), precision, mode);
  }

  lemma ShiftedPrecision(m: int, k: nat, e: int)
    requires m != 0
    ensures Precision(BigNumber(m * Pow10(k), e)) == NumDigits(Mag(m)) + k
  {
    var p := Pow10(k);
    MagTimes(m, p);
    NumDigitsShift(Mag(m), k);
  }

  lemma MagTimes(m: int, p: nat)
    ensures Mag(m * p) == Mag(m) * p
  {
    if m < 0 {
      assert m * p == -(Mag(m) * p);
    }
  }

  /** `fromString(x.toString())`: reading back the printed text of x gives x with its
      trailing zeros trimmed, or 0 at scale 0 for a zero, provided the text is short enough
      to print without i32 wrap-around and `precision` does not cut it. */
  lemma ToStringRoundTrip(x: BigNumber, precision: int, mode: Rounding)
    requires Valid(x)
    requires var t := TrimZeros(x.m, x.e, I32_MIN);
      Mag(t.e) + Precision(t) + 3 <= I32_MAX && (precision <= 0 || TextDigits(t) <= precision)
    ensures ToString(x).Ok? && |ToString(x).value| <= I32_MAX
    ensures FromString(ToString(x).value, precision, mode)
            == Ok(if x.m == 0 then BigNumber(0, 0) else TrimZeros(x.m, x.e, I32_MIN))
  {
    var t := TrimZeros(x.m, x.e, I32_MIN);
    TrimZerosNonzero(x.m, x.e, I32_MIN);
    if x.m == 0 {
      assert t.m == 0;
    } else {
      assert t.m % 10 != 0;
    }
    ReadRendered(t, precision, mode);
  }

  /** The value survives the round trip. */
  lemma ToStringValue(x: BigNumber, precision: int, mode: Rounding)
    requires Valid(x)
    requires var t := TrimZeros(x.m, x.e, I32_MIN);
      Mag(t.e) + Precision(t) + 3 <= I32_MAX && (precision <= 0 || TextDigits(t) <= precision)
    ensures ToString(x).Ok? && |ToString(x).value| <= I32_MAX
    ensures var r := FromString(ToString(x).value, precision, mode);
      r.Ok? && Value(r.value) == Value(x)
  {
    ToStringRoundTrip(x, precision, mode);
    TrimZerosValue(x.m, x.e, I32_MIN);
    if x.m == 0 {
      assert Value(x) == 0.0 && Value(BigNumber(0, 0)) == 0.0;
    }
  }

  /** Printing what was read from the text of a nonzero x gives the same text again. */
  lemma ToStringStable(x: BigNumber, precision: int, mode: Rounding)
    requires Valid(x) && x.m != 0
    requires var t := TrimZeros(x.m, x.e, I32_MIN);
      Mag(t.e) + Precision(t) + 3 <= I32_MAX && (precision <= 0 || TextDigits(t) <= precision)
    ensures ToString(x).Ok? && |ToString(x).value| <= I32_MAX
    ensures var r := FromString(ToString(x).value, precision, mode);
      r.Ok? && ToString(r.value) == ToString(x)
  {
    ToStringRoundTrip(x, precision, mode);
    var t := TrimZeros(x.m, x.e, I32_MIN);
    TrimZerosNonzero(x.m, x.e, I32_MIN);
    TrimFixed(t.m, t.e, I32_MIN);
  }

  /** The text the corrected `toFixed` produces for a positive number of places reads back as
      the rounded value, digit for digit: the padding zeros only raise the scale. */
  lemma ToFixedCorrectedReads(x: BigNumber, places: int, mode: Rounding)
    requires Valid(x) && IsI32(places) && places > 0
    requires var res := RoundToPlaces(x, places, FixedRounding(mode)).value;
      places + Precision(AtScale(res, places)) + 3 <= I32_MAX
    ensures ToFixedCorrected(x, places, mode).Ok? && |ToFixedCorrected(x, places, mode).value| <= I32_MAX
    ensures var read := ReadDecimal(ToFixedCorrected(x, places, mode).value);
      read.Ok? && read.value.0.e == places
      && Value(read.value.0) == Value(RoundToPlaces(x, places, FixedRounding(mode)).value)
  {
    var res := RoundToPlaces(x, places, FixedRounding(mode)).value;
    RenderReadFraction(AtScale(res, places));
  }

  /** For no places or a negative number of them, the corrected `toFixed` prints an integer N
      with N units of 10^-places making up the rounded value. */
  lemma ToFixedCorrectedUnits(x: BigNumber, places: int, mode: Rounding)
    requires Valid(x) && IsI32(places) && places <= 0 && x.e - places <= I32_MAX
    requires var res := RoundToPlaces(x, places, FixedRounding(mode)).value;
      Precision(AtScale(res, places)) + 3 <= I32_MAX
    ensures ToFixedCorrected(x, places, mode).Ok? && |ToFixedCorrected(x, places, mode).value| <= I32_MAX
    ensures var read := ReadDecimal(ToFixedCorrected(x, places, mode).value);
      read.Ok? && read.value.0.e == 0
      && Value(BigNumber(read.value.0.m, places)) == Value(RoundToPlaces(x, places, FixedRounding(mode)).value)
  {
    var res := RoundToPlaces(x, places, FixedRounding(mode)).value;
    var t := AtScale(res, places);
    RenderReadInteger(BigNumber(t.m, 0));
    assert t.m * Pow10(0) == t.m;
    if t.m == 0 {
      assert Value(BigNumber(0, places)) == 0.0 == Value(BigNumber(0, 0)) ;
    }
  }

  /** The text `toSignificant` prints reads back as a value with at most `digits` significant
      digits, equal to x rounded to that many. */
  lemma ToSignificantReads(x: BigNumber, digits: int, mode: Rounding, res: BigNumber)
    requires Valid(x) && digits > 0
    requires DoRound(TrimZeros(x.m, x.e, I32_MIN), digits, FixedRounding(mode)) == Ok(res)
    requires var t := TrimZeros(res.m, res.e, I32_MIN); Mag(t.e) + Precision(t) + 3 <= I32_MAX
    ensures ToSignificant(x, digits, mode).Ok? && |ToSignificant(x, digits, mode).value| <= I32_MAX
    ensures var read := FromString(ToSignificant(x, digits, mode).value, 0, mode);
      read.Ok? && Value(read.value) == Value(res) && Precision(read.value) <= digits
  {
    assert ToSignificant(x, digits, mode) == ToString(res);
    ToStringValue(res, 0, mode);
    ToStringRoundTrip(res, 0, mode);
    TrimmedDigits(res.m, res.e, TrimZeros(res.m, res.e, I32_MIN));
  }
}
