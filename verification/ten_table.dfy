/** The two power-of-ten tables: the fixed u32 table `TEN_POWERS` and the big-integer table
    `BI_TEN_POWERS`, which starts with the same ten entries and grows by doubling. The growing
    table is the library's only mutable state; here it is a `seq<int>` value passed in and
    handed back by the operations that may grow it. */
module TenTable {
  import opened Results
  import opened Int32
  import opened Powers

  /** 10^0 .. 10^9; also the initial contents of the big-integer table. */
  const TEN_POWERS: seq<int> :=
    [1, 10, 100, 1000, 10000, 100000, 1000000, 10000000, 100000000, 1000000000]

  /** Sixteen times the initial table length. */
  const BI_TEN_POWERS_MAX: int := 16 * |TEN_POWERS|

  /** A power-of-ten table: at least the initial ten entries, entry i holding 10^i. */
  predicate Table(t: seq<int>) {
    |t| >= |TEN_POWERS| && forall i :: 0 <= i < |t| ==> t[i] == Pow10(i)
  }

  lemma TenPowersTable()
    ensures Table(TEN_POWERS)
  {
    assert Pow10(1) == 10;
    assert Pow10(3) == 1000;
    assert Pow10(5) == 100000;
    assert Pow10(7) == 10000000;
    assert Pow10(9) == 1000000000;
  }

  /** Grows the table to the first doubling of its length that exceeds `n`, filling every new
      slot from its predecessor, and returns 10^n. */
  method ExpandBigIntTenPowers(t: seq<int>, n: int) returns (t': seq<int>, r: int)
    requires Table(t) && 0 <= n
    ensures Table(t') && n < |t'|
    ensures |t'| >= 2 * |t| && t'[..|t|] == t
    ensures |t'| == 2 * |t| || |t'| <= 2 * n
    ensures r == Pow10(n)
  {
    var curLen := |t|;
    var newLen := curLen * 2;
    while newLen <= n
      invariant newLen >= 2 * curLen
      invariant newLen == 2 * curLen || newLen <= 2 * n
      decreases n - newLen
    {
      newLen := newLen * 2;
    }
    t' := t;
    var i := curLen;
    while i < newLen
      invariant curLen <= i <= newLen && |t'| == i
      invariant Table(t')
      invariant t'[..curLen] == t
    {
      t' := t' + [t'[i - 1] * 10];
      i := i + 1;
    }
    r := t'[n];
  }

  /** 10^k from the table, growing it when 10 <= k < 160. For k >= 160 the source multiplies
      entry 159 by 10^(k-159) without growing the table first, so the read fails unless an
      earlier call already grew the table to 160 entries. */
  method TenToThe(t: seq<int>, k: int) returns (t': seq<int>, r: Result<int>)
    requires Table(t)
    ensures Table(t') && |t'| >= |t| && t'[..|t|] == t
    ensures k < 0 ==> r == Ok(0)
    ensures 0 <= k < BI_TEN_POWERS_MAX ==> r == Ok(Pow10(k))
    ensures k >= BI_TEN_POWERS_MAX ==> (r.Ok? <==> |t| >= BI_TEN_POWERS_MAX)
    ensures r.Ok? && k >= 0 ==> r.value == Pow10(k)
    ensures r.Err? ==> r.error == IndexOutOfRange && t' == t
    decreases k
  {
    if k < 0 {
      return t, Ok(0);
    }
    if k < BI_TEN_POWERS_MAX {
      if k < |t| {
        return t, Ok(t[k]);
      }
      var p;
      t', p := ExpandBigIntTenPowers(t, k);
      return t', Ok(p);
    }
    if |t| <= BI_TEN_POWERS_MAX - 1 {
      return t, Err(IndexOutOfRange);
    }
    var head := t[BI_TEN_POWERS_MAX - 1];
    var rest;
    t', rest := TenToThe(t, k - BI_TEN_POWERS_MAX + 1);
    assert rest.Ok?;
    Pow10Add(BI_TEN_POWERS_MAX - 1, k - BI_TEN_POWERS_MAX + 1);
    r := Ok(head * rest.value);
  }

  /** v * 10^k for positive k and v itself otherwise: small k use the u32 table, larger k the
      exact power (the big-integer table's contents, see `TenToThe`). */
  function MulPowTen(v: int, k: int): (r: int)
    ensures k <= 0 ==> r == v
    ensures k > 0 ==> r == v * Pow10(k)
  {
    if k <= 0 then v
    else if k < |TEN_POWERS| - 1 then TenPowersTable(); v * TEN_POWERS[k]
    else v * Pow10(k)
  }
}
