/** Decimal digit strings: the text form of big-integer mantissas, as produced by the
    big-integer library's `toString` and consumed by its `fromString`, plus the two string
    utilities the formatter uses (`padEnd` and `substring`). */
module DigitStrings {
  import opened Powers

  predicate IsDigit(c: char) {
    '0' <= c <= '9'
  }

  predicate AllDigits(s: string) {
    forall i :: 0 <= i < |s| ==> IsDigit(s[i])
  }

  function DigitValue(c: char): (d: nat)
    requires IsDigit(c)
    ensures d < 10
  {
    c as int - '0' as int
  }

  function DigitChar(d: nat): (c: char)
    requires d < 10
    ensures IsDigit(c) && DigitValue(c) == d
  {
    ('0' as int + d) as char
  }

  /** The number a string of decimal digits denotes, most significant digit first. */
  function DigitsValue(s: string): (v: nat)
    requires AllDigits(s)
    ensures v < Pow10(|s|)
  {
    if |s| == 0 then 0
    else
      var init := s[..|s| - 1];
      assert AllDigits(init) by { assert forall i :: 0 <= i < |init| ==> init[i] == s[i]; }
      10 * DigitsValue(init) + DigitValue(s[|s| - 1])
  }

  /** Canonical decimal form of a natural number: no leading zero unless it is "0". */
  predicate Canonical(s: string) {
    |s| >= 1 && AllDigits(s) && (s[0] == '0' ==> |s| == 1)
  }

  /** The decimal text of a natural number, the way the big-integer library prints it. */
  function NatToString(n: nat): (s: string)
    ensures Canonical(s) && |s| == NumDigits(n)
    decreases n
  {
    if n < 10 then [DigitChar(n)]
    else
      var t := NatToString(n / 10);
      assert t[0] == (t + [DigitChar(n % 10)])[0];
      t + [DigitChar(n % 10)]
  }

  /** The text of a signed integer: a minus sign, then the magnitude. */
  function IntToString(i: int): (s: string)
    ensures |s| >= 1
    ensures i < 0 <==> s[0] == '-'
    ensures i < 0 ==> s[1..] == NatToString(-i)
    ensures i >= 0 ==> s == NatToString(i)
  {
    if i < 0 then "-" + NatToString(-i) else NatToString(i)
  }

  lemma {:induction false} NatToStringValue(n: nat)
    ensures DigitsValue(NatToString(n)) == n
    decreases n
  {
    var s := NatToString(n);
    if n >= 10 {
      NatToStringValue(n / 10);
      assert s[..|s| - 1] == NatToString(n / 10);
    }
  }

  /** The first digit of a canonical string of two or more digits is nonzero, so its value has
      exactly as many digits as the string. */
  lemma {:induction false} CanonicalDigits(s: string)
    requires Canonical(s)
    ensures NumDigits(DigitsValue(s)) == |s|
    ensures |s| >= 2 ==> Pow10(|s| - 1) <= DigitsValue(s)
    decreases |s|
  {
    if |s| >= 2 {
      var init := s[..|s| - 1];
      assert init[0] == s[0];
      assert AllDigits(init) by { assert forall i :: 0 <= i < |init| ==> init[i] == s[i]; }
      if |init| >= 2 {
        CanonicalDigits(init);
      } else {
        assert DigitsValue(init) == DigitValue(s[0]) >= 1;
      }
      assert Pow10(|s| - 1) == 10 * Pow10(|s| - 2);
      NumDigitsUnique(DigitsValue(s), |s|);
    }
  }

  /** Printing is the inverse of reading on canonical strings. */
  lemma {:induction false} CanonicalRoundTrip(s: string)
    requires Canonical(s)
    ensures NatToString(DigitsValue(s)) == s
    decreases |s|
  {
    var v := DigitsValue(s);
    if |s| >= 2 {
      var init := s[..|s| - 1];
      assert init[0] == s[0];
      assert AllDigits(init) by { assert forall i :: 0 <= i < |init| ==> init[i] == s[i]; }
      CanonicalDigits(s);
      assert v >= 10 by { Pow10Monotone(1, |s| - 1); }
      assert v / 10 == DigitsValue(init) && v % 10 == DigitValue(s[|s| - 1]);
      CanonicalRoundTrip(init);
      assert DigitChar(DigitValue(s[|s| - 1])) == s[|s| - 1];
      assert s == init + [s[|s| - 1]];
    } else {
      assert DigitChar(DigitValue(s[0])) == s[0];
    }
  }

  /** Reading a concatenation: the left part is shifted by the length of the right part. */
  lemma {:induction false} DigitsValueAppend(a: string, b: string)
    requires AllDigits(a) && AllDigits(b)
    ensures AllDigits(a + b)
    ensures DigitsValue(a + b) == DigitsValue(a) * Pow10(|b|) + DigitsValue(b)
    decreases |b|
  {
    var ab := a + b;
    assert AllDigits(ab) by { assert forall i :: 0 <= i < |ab| ==> ab[i] == if i < |a| then a[i] else b[i - |a|]; }
    if |b| > 0 {
      var b' := b[..|b| - 1];
      assert AllDigits(b') by { assert forall i :: 0 <= i < |b'| ==> b'[i] == b[i]; }
      assert ab[..|ab| - 1] == a + b';
      DigitsValueAppend(a, b');
      var x, p, y, d := DigitsValue(a), Pow10(|b'|), DigitsValue(b'), DigitValue(b[|b| - 1]);
      assert DigitsValue(ab) == 10 * (x * p + y) + d;
      ShiftDigit(x, p, y, d);
      assert DigitsValue(b) == 10 * y + d;
    } else {
      assert ab == a;
    }
  }

  lemma ShiftDigit(x: int, p: int, y: int, d: int)
    ensures 10 * (x * p + y) + d == x * (10 * p) + (10 * y + d)
  {
  }

  /** `n` copies of `c`. */
  function Repeat(c: char, n: nat): (s: string)
    ensures |s| == n && forall i :: 0 <= i < n ==> s[i] == c
  {
    if n == 0 then [] else Repeat(c, n - 1) + [c]
  }

  lemma {:induction false} ZerosValue(n: nat)
    ensures AllDigits(Repeat('0', n)) && DigitsValue(Repeat('0', n)) == 0
    decreases n
  {
    if n > 0 {
      var z := Repeat('0', n);
      assert z[..n - 1] == Repeat('0', n - 1);
      ZerosValue(n - 1);
    }
  }

  /** `String.padEnd`: extend `s` with `c` up to `target` characters; a target no longer than
      `s` leaves it as it is. */
  function PadEnd(s: string, target: int, c: char): (r: string)
    ensures |r| == if target <= |s| then |s| else target
    ensures r[..|s|] == s
    ensures forall i :: |s| <= i < |r| ==> r[i] == c
  {
    if target <= |s| then s else s + Repeat(c, target - |s|)
  }

  function Clamp(i: int, n: nat): (r: nat)
    ensures r <= n
  {
    if i < 0 then 0 else if i > n then n else i
  }

  /** `String.substring(start, end)`: both ends are clamped to the string, and swapped when
      they come in the wrong order. */
  function Substring(s: string, start: int, end: int): (r: string)
    ensures |r| <= |s|
    ensures 0 <= start <= end <= |s| ==> r == s[start..end]
    ensures 0 <= end <= start <= |s| ==> r == s[end..start]
    ensures start <= 0 && end >= |s| ==> r == s
  {
    var a, b := Clamp(start, |s|), Clamp(end, |s|);
    if a <= b then s[a..b] else s[b..a]
  }
}
