/** Integer facts the decimal type rests on: powers of ten, decimal digit counts, and the
    truncating division the big-integer library performs. */
module Powers {

  /** The magnitude |x| of an integer. */
  function Mag(x: int): nat {
    if x < 0 then -x else x
  }

  function Pow10(k: nat): (r: nat)
    ensures r >= 1
  {
    if k == 0 then 1 else 10 * Pow10(k - 1)
  }

  lemma {:induction false} Pow10Add(a: nat, b: nat)
    ensures Pow10(a + b) == Pow10(a) * Pow10(b)
    decreases b
  {
    if b > 0 {
      Pow10Add(a, b - 1);
      calc {
        Pow10(a + b);
        10 * Pow10(a + b - 1);
        10 * (Pow10(a) * Pow10(b - 1));
        Pow10(a) * (10 * Pow10(b - 1));
      }
    }
  }

  lemma {:induction false} Pow10Monotone(a: nat, b: nat)
    requires a <= b
    ensures Pow10(a) <= Pow10(b)
    ensures a < b ==> 10 * Pow10(a) <= Pow10(b)
    decreases b - a
  {
    if a < b {
      Pow10Monotone(a, b - 1);
    }
  }

  /** Number of decimal digits of `n`, counting 1 for zero: the contract `intLength` promises. */
  function NumDigits(n: nat): (d: nat)
    ensures d >= 1
    ensures n < Pow10(d)
    ensures n == 0 || Pow10(d - 1) <= n
  {
    if n < 10 then 1 else 1 + NumDigits(n / 10)
  }

  /** The digit count is pinned down by the two bounds. */
  lemma NumDigitsUnique(n: nat, d: nat)
    requires d >= 1 && Pow10(d - 1) <= n < Pow10(d)
    ensures NumDigits(n) == d
  {
    // k < d would give 10^k <= 10^(d - 1) <= n, and d < k would give 10^d <= 10^(k - 1) <= n
    var k := NumDigits(n);
    Pow10Monotone(if k < d then k else d - 1, d - 1);
    Pow10Monotone(if d < k then d else k - 1, k - 1);
  }

  lemma NumDigitsOfPow10(k: nat)
    ensures NumDigits(Pow10(k)) == k + 1
  {
    NumDigitsUnique(Pow10(k), k + 1);
  }

  lemma NumDigitsMonotone(a: nat, b: nat)
    requires a <= b
    ensures NumDigits(a) <= NumDigits(b)
  {
    // 10^min(d - 1, k) <= 10^(d - 1) <= a <= b < 10^k, so the minimum is d - 1
    var d, k := NumDigits(a), NumDigits(b);
    Pow10Monotone(if d - 1 < k then d - 1 else k, d - 1);
  }

  /** Appending `k` zeros adds `k` digits. */
  lemma {:induction false} NumDigitsShift(n: nat, k: nat)
    requires n >= 1
    ensures NumDigits(n * Pow10(k)) == NumDigits(n) + k
    decreases k
  {
    if k > 0 {
      var q := n * Pow10(k - 1);
      NumDigitsShift(n, k - 1);
      assert n * Pow10(k) == q * 10 by { MulTen(n, Pow10(k - 1)); }
      NumDigitsTimesTen(q);
    }
  }

  lemma MulTen(n: int, p: int)
    ensures n * (10 * p) == (n * p) * 10
  {
  }

  lemma NumDigitsTimesTen(x: nat)
    requires x >= 1
    ensures NumDigits(x * 10) == NumDigits(x) + 1
  {
    assert x * 10 / 10 == x;
  }

  predicate IsPow10(n: nat) {
    n == Pow10(NumDigits(n) - 1)
  }

  lemma Pow10IsPow10(k: nat)
    ensures IsPow10(Pow10(k))
  {
    NumDigitsOfPow10(k);
  }

  lemma DivBounds(x: nat, y: nat)
    requires y > 0
    ensures (x / y) * y <= x < (x / y + 1) * y
    ensures x == (x / y) * y + x % y
  {
    assert x == (x / y) * y + x % y;
    assert (x / y + 1) * y == (x / y) * y + y;
  }

  /** Truncating division: the quotient is rounded toward zero. */
  function TDiv(n: int, d: int): (q: int)
    requires d != 0
    ensures Mag(q) * Mag(d) <= Mag(n) < (Mag(q) + 1) * Mag(d)
    ensures q == 0 || ((q < 0) <==> ((n < 0) != (d < 0)))
  {
    var a := Mag(n) / Mag(d);
    DivBounds(Mag(n), Mag(d));
    if (n < 0) == (d < 0) then a else -a
  }

  /** The remainder of truncating division takes the sign of the dividend. */
  function TRem(n: int, d: int): (r: int)
    requires d != 0
    ensures n == d * TDiv(n, d) + r
    ensures Mag(r) < Mag(d)
    ensures r == 0 || ((r < 0) <==> (n < 0))
  {
    TDivDecomposition(n, d);
    n - d * TDiv(n, d)
  }

  lemma TDivDecomposition(n: int, d: int)
    requires d != 0
    ensures d * TDiv(n, d) == (if n < 0 then -1 else 1) * (Mag(n) / Mag(d) * Mag(d))
  {
    var a := Mag(n) / Mag(d);
    var D := Mag(d);
    if d > 0 {
      assert d * TDiv(n, d) == D * TDiv(n, d);
      if n >= 0 {
        assert TDiv(n, d) == a;
      } else {
        assert TDiv(n, d) == -a;
        assert D * -a == -(a * D);
      }
    } else {
      assert d == -D;
      if n < 0 {
        assert TDiv(n, d) == a;
        assert -D * a == -(a * D);
      } else {
        assert TDiv(n, d) == -a;
        assert -D * -a == a * D;
      }
    }
  }

  /** 10^k for k >= 0 as an exact rational, kept apart from the integer `Pow10` so that proofs
      about values stay in real arithmetic. */
  ghost function RPow10(k: nat): (r: real)
    ensures r >= 1.0
  {
    if k == 0 then 1.0 else 10.0 * RPow10(k - 1)
  }

  lemma {:induction false} RPow10Add(a: nat, b: nat)
    ensures RPow10(a + b) == RPow10(a) * RPow10(b)
    decreases b
  {
    if b > 0 {
      RPow10Add(a, b - 1);
      assert RPow10(a + b) == 10.0 * RPow10(a + b - 1);
    }
  }

  /** 10^k for any integer k, as an exact rational. Its positivity is a separate lemma, so
      that the fact is in scope only where a proof asks for it. */
  ghost function Exp10(k: int): real {
    if k >= 0 then RPow10(k) else 1.0 / RPow10(-k)
  }

  lemma Exp10Positive(k: int)
    ensures Exp10(k) > 0.0
  {
  }

  lemma InvTen(x: real, y: real)
    requires x > 0.0 && y == 10.0 * x
    ensures 1.0 / x == 10.0 * (1.0 / y)
  {
  }

  lemma Exp10Step(j: int)
    ensures Exp10(j + 1) == 10.0 * Exp10(j)
  {
    if j < 0 {
      InvTen(RPow10(-j - 1), RPow10(-j));
    }
  }

  lemma CancelUp(e1: real, e2: real, p: real, y: real)
    requires y > 0.0 && e1 == p * y && e2 == 1.0 / y
    ensures e1 * e2 == p
  {
  }

  lemma CancelDown(e1: real, e2: real, x: real, z: real)
    requires x > 0.0 && z > 0.0 && e1 == x && e2 == 1.0 / (x * z)
    ensures e1 * e2 == 1.0 / z
  {
  }

  lemma RealInverseProduct(x: real, y: real)
    requires x > 0.0 && y > 0.0
    ensures 1.0 / (x * y) == (1.0 / x) * (1.0 / y)
  {
  }

  lemma ShiftCancelUp(c: int, d: int)
    requires c >= 0 && d > 0
    ensures Exp10(c + d) * Exp10(-d) == Exp10(c)
  {
    RPow10Add(c, d);
    CancelUp(Exp10(c + d), Exp10(-d), RPow10(c), RPow10(d));
  }

  lemma ShiftCancelDown(c: int, d: int)
    requires c >= 0 && d > 0
    ensures Exp10(c) * Exp10(-(c + d)) == Exp10(-d)
  {
    RPow10Add(c, d);
    CancelDown(Exp10(c), Exp10(-(c + d)), RPow10(c), RPow10(d));
  }

  lemma Exp10AddMixed(a: int, b: int)
    requires a >= 0 > b
    ensures Exp10(a + b) == Exp10(a) * Exp10(b)
  {
    if a + b >= 0 {
      ShiftCancelUp(a + b, -b);
      assert (a + b) + -b == a;
    } else {
      ShiftCancelDown(a, -(a + b));
      assert a + -(a + b) == -b;
    }
  }

  lemma Exp10AddNeg(a: int, b: int)
    requires a < 0 && b < 0
    ensures Exp10(a + b) == Exp10(a) * Exp10(b)
  {
    RPow10Add(-a, -b);
    RealInverseProduct(RPow10(-a), RPow10(-b));
  }

  /** Exponents add: 10^(a+b) = 10^a * 10^b. */
  lemma Exp10Add(a: int, b: int)
    ensures Exp10(a + b) == Exp10(a) * Exp10(b)
  {
    if a >= 0 && b >= 0 {
      RPow10Add(a, b);
    } else if a < 0 && b < 0 {
      Exp10AddNeg(a, b);
    } else if a >= 0 {
      Exp10AddMixed(a, b);
    } else {
      Exp10AddMixed(b, a);
    }
  }
}
