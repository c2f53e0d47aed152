/** What `fromString` makes of every well-formed decimal text: an optional sign, digits with
    at most one point, and an optional exponent. Reading gives the number those pieces
    denote, or the error the first overflowing piece causes; finishing keeps its value or
    rounds it correctly. */
module Reading {
  import opened Results
  import opened Int32
  import opened Powers
  import opened DigitStrings
  import opened RoundingEngine
  import opened BigNumbers
  import opened Scaling
  import opened Parser
  import opened RoundTrip

  /** An exponent part: nothing, or a mark `e`/`E`, an optional sign and at least one digit. */
  predicate ExponentText(x: string) {
    x == [] || (|x| >= 1 && (x[0] == 'e' || x[0] == 'E') && |ExpDigits(x)| >= 1 && AllDigits(ExpDigits(x)))
  }

  /** The signed number an exponent part denotes; 0 when there is none. */
  function ExponentValue(x: string): int
    requires ExponentText(x)
  {
    if x == [] then 0 else Signed(ExpNegative(x), DigitsValue(ExpDigits(x)))
  }

  /** The pieces of a decimal text: a sign "", "+" or "-"; the integer digits `a`; when there
      is a point, the fraction digits `b`; an exponent part `x`. There is at least one digit. */
  predicate Pieces(sg: string, a: string, b: string, dot: bool, x: string) {
    (sg == "" || sg == "+" || sg == "-")
    && AllDigits(a) && AllDigits(b) && (dot || b == []) && |a| + |b| >= 1
    && ExponentText(x)
  }

  /** The text after the sign. */
  function Body(a: string, b: string, dot: bool, x: string): string {
    a + ((if dot then "." + b else "") + x)
  }

  /** The whole text. */
  function Text(sg: string, a: string, b: string, dot: bool, x: string): string {
    sg + Body(a, b, dot, x)
  }

  /** The number the pieces denote, before any rounding: the digits `a` and `b` as one
      mantissa, signed, at the scale `|b|` less the exponent. */
  function Denoted(sg: string, a: string, b: string, x: string): (n: BigNumber)
    requires AllDigits(a) && AllDigits(b) && ExponentText(x)
    ensures Mag(n.m) == DigitsValue(a + b) && (n.m < 0 <==> sg == "-" && n.m != 0)
  {
    DigitsValueAppend(a, b);
    BigNumber(Signed(sg == "-", DigitsValue(a + b)), |b| - ExponentValue(x))
  }

  /** Reading a well-formed text: it fails only when the exponent has more than ten
      significant digits, does not fit an i32, or moves the scale out of the i32 range;
      otherwise it is the denoted number, with its digit count as precision. */
  lemma ReadNumber(sg: string, a: string, b: string, dot: bool, x: string)
    requires Pieces(sg, a, b, dot, x) && |Text(sg, a, b, dot, x)| <= I32_MAX
    ensures var E := ExponentValue(x);
      var n := Denoted(sg, a, b, x);
      ReadDecimal(Text(sg, a, b, dot, x))
      == if x != [] && DigitsValue(ExpDigits(x)) >= Pow10(10) then Err(TooManyExponentDigits)
         else if !IsI32(E) then Err(IntegerOverflow)
         else if !IsI32(|b| - E) then Err(ScaleOutOfRange)
         else Ok((n, Precision(n)))
  {
    var body := Body(a, b, dot, x);
    var s := Text(sg, a, b, dot, x);
    var S := ScanBody(a, b, dot, x);
    BodyStart(a, b, dot, x);
    SignStrip(sg, body);
    DigitsValueAppend(a, b);
    DropZerosValue(a + b);
    assert |body| <= |s|;
    var neg := sg == "-";
    var E := ExponentValue(x);
    var n := Denoted(sg, a, b, x);
    if x == [] {
      ReadMarked(s, body, neg, S, 0, n);
      assert ReadDecimal(s) == Ok((n, Precision(n)));
    } else {
      ParseExpReads(x);
      if DigitsValue(ExpDigits(x)) >= Pow10(10) {
        ReadFails(s, body, TooManyExponentDigits);
      } else if !IsI32(E) {
        ReadFails(s, body, IntegerOverflow);
      } else {
        assert ParseExp(x) == Ok(E);
        assert Scan(body, Start) == Ok((S, E));
        assert DigitsValue(S.digits) == DigitsValue(a + b);
        assert S.exponent - E == |b| - E;
        assert n.m == Signed(neg, DigitsValue(S.digits));
        assert n.e == |b| - E;
        ReadMarked(s, body, neg, S, E, n);
      }
    }
  }

  /** `ReadDecimal` once the scan of the unsigned part is known to succeed. */
  lemma ReadMarked(s: string, t: string, neg: bool, S: ScanState, e: int, n: BigNumber)
    requires |s| <= I32_MAX && neg == (|s| > 0 && s[0] == '-')
    requires t == if |s| > 0 && (s[0] == '-' || s[0] == '+') then s[1..] else s
    requires Good(S) && S.p != 0 && IsI32(S.exponent) && Scan(t, Start) == Ok((S, e))
    requires n.m == Signed(neg, DigitsValue(S.digits)) && n.e == S.exponent - e
    ensures ReadDecimal(s) == if !IsI32(n.e) then Err(ScaleOutOfRange) else Ok((n, Precision(n)))
  {
    if !IsI32(n.e) {
      assert e != 0 && AdjustScale(S.exponent, e) == Err(ScaleOutOfRange);
    } else {
      assert ReadDecimal(s) == Ok((n, S.p));
    }
  }

  /** `ReadDecimal` passes a scanning error on. */
  lemma ReadFails(s: string, t: string, err: Error)
    requires |s| <= I32_MAX
    requires t == if |s| > 0 && (s[0] == '-' || s[0] == '+') then s[1..] else s
    requires Scan(t, Start) == Err(err)
    ensures ReadDecimal(s) == Err(err)
  {
  }

  /** The unsigned part starts with a digit or the point. */
  lemma BodyStart(a: string, b: string, dot: bool, x: string)
    requires AllDigits(a) && (dot || b == []) && |a| + |b| >= 1
    ensures var body := Body(a, b, dot, x);
      |body| >= 1 && body[0] != '-' && body[0] != '+'
  {
    var body := Body(a, b, dot, x);
    if |a| > 0 {
      assert body[0] == a[0];
    } else {
      assert body == "." + b + x;
    }
  }

  /** The reader takes off exactly the sign in front. */
  lemma SignStrip(sg: string, body: string)
    requires sg == "" || sg == "+" || sg == "-"
    requires |body| >= 1 && body[0] != '-' && body[0] != '+'
    ensures var s := sg + body;
      (if |s| > 0 && (s[0] == '-' || s[0] == '+') then s[1..] else s) == body
      && (|s| > 0 && s[0] == '-') == (sg == "-")
  {
    var s := sg + body;
    if sg == "" {
      assert s == body;
    } else {
      assert s[0] == sg[0] && s[1..] == body;
    }
  }

  /** Scanning the unsigned part: the kept digits are `a` and `b` less their leading
      zeros, the scale is `|b|`, and the exponent part decides the rest. */
  lemma ScanBody(a: string, b: string, dot: bool, x: string) returns (S: ScanState)
    requires AllDigits(a) && AllDigits(b) && (dot || b == []) && |a| + |b| >= 1
    requires ExponentText(x)
    ensures Good(S) && S.p >= 1 && S.digits == DropZeros(a + b) && S.exponent == |b|
    ensures Scan(Body(a, b, dot, x), Start)
            == if x == [] then Ok((S, 0))
               else if ParseExp(x).Ok? then Ok((S, ParseExp(x).value))
               else Err(ParseExp(x).error)
  {
    var S1 := DigitSteps(a, Start);
    S := DigitSteps(b, S1.(dot := dot));
    BodyState(a, b, dot, S1, S);
    BodyScan(a, b, dot, x, S1, S);
    ScanMark(x, S);
  }

  /** The scanner's state after the digits and the point. */
  lemma BodyState(a: string, b: string, dot: bool, S1: ScanState, S: ScanState)
    requires AllDigits(a) && AllDigits(b) && (dot || b == []) && |a| + |b| >= 1
    requires S1 == DigitSteps(a, Start) && S == DigitSteps(b, S1.(dot := dot))
    ensures Good(S1) && !S1.dot
    ensures Good(S) && S.p >= 1 && S.digits == DropZeros(a + b) && S.exponent == |b|
  {
    DigitStepsState(a, Start);
    assert Start.digits + a == a;
    var S1' := S1.(dot := dot);
    DigitStepsState(b, S1');
    DropZerosConcat(a, b);
    if |b| == 0 {
      assert S == S1';
      assert a + b == a;
    }
  }

  /** Scanning the digits and the point leaves the exponent part to scan from that state. */
  lemma BodyScan(a: string, b: string, dot: bool, x: string, S1: ScanState, S: ScanState)
    requires AllDigits(a) && AllDigits(b) && (dot || b == [])
    requires S1 == DigitSteps(a, Start) && Good(S1) && !S1.dot && S == DigitSteps(b, S1.(dot := dot))
    ensures Scan(Body(a, b, dot, x), Start) == Scan(x, S)
  {
    var rest := (if dot then "." + b else "") + x;
    ScanDigits(a, rest, Start);
    ScanPoint(S1, b, dot, x);
    ScanDigits(b, x, S1.(dot := dot));
  }

  /** The point, when there is one, only switches the scanner to fraction digits. */
  lemma ScanPoint(st: ScanState, b: string, dot: bool, x: string)
    requires Good(st) && !st.dot && (dot || b == [])
    ensures Scan((if dot then "." + b else "") + x, st) == Scan(b + x, st.(dot := dot))
  {
    if dot {
      var t := "." + b + x;
      assert t[0] == '.' && t[1..] == b + x;
    } else {
      assert st.(dot := dot) == st;
      assert [] + x == x && b + x == x;
    }
  }

  /** After the digits, the scanner stops with no exponent, or reads the exponent part. */
  lemma ScanMark(x: string, st: ScanState)
    requires Good(st) && ExponentText(x)
    ensures Scan(x, st) == if x == [] then Ok((st, 0))
                           else if ParseExp(x).Ok? then Ok((st, ParseExp(x).value))
                           else Err(ParseExp(x).error)
  {
  }

  /** The exponent part neither has too many digits nor overflows, and the scale it leaves
      is an i32. */
  predicate Fits(b: string, x: string)
    requires ExponentText(x)
  {
    (x == [] || DigitsValue(ExpDigits(x)) < Pow10(10))
    && IsI32(ExponentValue(x)) && IsI32(|b| - ExponentValue(x))
  }

  /** `fromString` of a well-formed text. When the denoted number has no more digits than
      `precision` allows (or no rounding is asked for) the result has exactly its value;
      otherwise the result is the denoted number rounded by `mode` at the scale that keeps
      `precision` digits. It fails only for an exponent that does not fit, a scale pushed
      below the i32 range, or a rounding `NoRounding` forbids. */
  lemma FromStringReads(sg: string, a: string, b: string, dot: bool, x: string, precision: int, mode: Rounding)
    requires Pieces(sg, a, b, dot, x) && |Text(sg, a, b, dot, x)| <= I32_MAX
    ensures var n := Denoted(sg, a, b, x);
      var r := FromString(Text(sg, a, b, dot, x), precision, mode);
      (Fits(b, x) && (precision <= 0 || Precision(n) <= precision) ==> r.Ok? && Value(r.value) == Value(n))
      && (Fits(b, x) && r.Ok? && 0 < precision < Precision(n) ==>
            RoundedAtScale(n.m, n.e, n.e - (Precision(n) - precision), r.value, mode))
      && (Fits(b, x) && r.Err? ==> r.error == IntegerOverflow || (r.error == RoundingNecessary && mode == NoRounding))
      && (!Fits(b, x) ==> r.Err? && r.error in {TooManyExponentDigits, IntegerOverflow, ScaleOutOfRange})
  {
    if Fits(b, x) {
      FitsReads(sg, a, b, dot, x, precision, mode);
    } else {
      ReadNumber(sg, a, b, dot, x);
    }
  }

  /** The part of `FromStringReads` where the exponent fits. */
  lemma FitsReads(sg: string, a: string, b: string, dot: bool, x: string, precision: int, mode: Rounding)
    requires Pieces(sg, a, b, dot, x) && |Text(sg, a, b, dot, x)| <= I32_MAX && Fits(b, x)
    ensures var n := Denoted(sg, a, b, x);
      var r := FromString(Text(sg, a, b, dot, x), precision, mode);
      ((precision <= 0 || Precision(n) <= precision) ==> r.Ok? && Value(r.value) == Value(n))
      && (r.Ok? && 0 < precision < Precision(n) ==>
            RoundedAtScale(n.m, n.e, n.e - (Precision(n) - precision), r.value, mode))
      && (r.Err? ==> r.error == IntegerOverflow || (r.error == RoundingNecessary && mode == NoRounding))
  {
    var n := Denoted(sg, a, b, x);
    var t := Text(sg, a, b, dot, x);
    ReadsDenoted(sg, a, b, dot, x);
    FinishOutcome(n, precision, mode, FromString(t, precision, mode));
  }

  /** A text whose exponent fits reads as the number its pieces denote. */
  lemma ReadsDenoted(sg: string, a: string, b: string, dot: bool, x: string)
    requires Pieces(sg, a, b, dot, x) && |Text(sg, a, b, dot, x)| <= I32_MAX && Fits(b, x)
    ensures var n := Denoted(sg, a, b, x);
      Valid(n) && ReadDecimal(Text(sg, a, b, dot, x)) == Ok((n, Precision(n)))
  {
    ReadNumber(sg, a, b, dot, x);
  }

  /** What finishing `n` gives, stated for a result known to be `n` finished. */
  lemma FinishOutcome(n: BigNumber, precision: int, mode: Rounding, r: Result<BigNumber>)
    requires Valid(n) && r == Finish(n, Precision(n), precision, mode)
    ensures (precision <= 0 || Precision(n) <= precision) ==> r.Ok? && Value(r.value) == Value(n)
    ensures r.Ok? && 0 < precision < Precision(n) ==>
      RoundedAtScale(n.m, n.e, n.e - (Precision(n) - precision), r.value, mode)
    ensures r.Err? ==> r.error == IntegerOverflow || (r.error == RoundingNecessary && mode == NoRounding)
  {
  }
}
