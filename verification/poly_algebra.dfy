/** Polynomials as coefficient sequences and their exact product.
    Coefficient k of the product of a and b is the sum of a[j] * b[k - j];
    the index convention (high or low order first) does not matter for it.
    The lemmas establish that the product is commutative and associative and
    that reducing coefficients modulo m commutes with it. */
module PolyAlgebra {

  /** Coefficient t of p, zero outside p. */
  function At(p: seq<int>, t: int): int
  {
    if 0 <= t < |p| then p[t] else 0
  }

  /** Sum of At(a, j) * At(b, k - j) for lo <= j < hi. */
  function RangeSum(a: seq<int>, b: seq<int>, k: int, lo: int, hi: int): int
    decreases hi - lo
  {
    if hi <= lo then 0
    else RangeSum(a, b, k, lo, hi - 1) + At(a, hi - 1) * At(b, k - (hi - 1))
  }

  /** Coefficient k of the product a * b: the sum of a[j] * b[k - j]. */
  function Coef(a: seq<int>, b: seq<int>, k: int): int
  {
    RangeSum(a, b, k, 0, |a|)
  }

  /** The product polynomial; empty when a factor is empty. */
  function Mul(a: seq<int>, b: seq<int>): (r: seq<int>)
    ensures |r| == if |a| == 0 || |b| == 0 then 0 else |a| + |b| - 1
  {
    if |a| == 0 || |b| == 0 then [] else seq(|a| + |b| - 1, k => Coef(a, b, k))
  }

  /** Coefficients reduced modulo m. */
  function ModP(p: seq<int>, m: int): (r: seq<int>)
    requires m > 0
    ensures |r| == |p|
    ensures forall i :: 0 <= i < |p| ==> 0 <= r[i] < m && r[i] % m == p[i] % m
  {
    var r := seq(|p|, i requires 0 <= i < |p| => p[i] % m);
    assert forall i :: 0 <= i < |p| ==> r[i] % m == p[i] % m by {
      forall i | 0 <= i < |p|
        ensures r[i] % m == p[i] % m
      {
        ModIdem(p[i], m);
      }
    }
    r
  }

  lemma ModIdem(x: int, m: int)
    requires m > 0
    ensures 0 <= x % m < m && (x % m) % m == x % m
  {
  }

  //---------------------------------------------------------------------------
  // Sums

  lemma {:induction false} PeelFirst(a: seq<int>, b: seq<int>, k: int, lo: int, hi: int)
    requires lo < hi
    ensures RangeSum(a, b, k, lo, hi) == At(a, lo) * At(b, k - lo) + RangeSum(a, b, k, lo + 1, hi)
    decreases hi - lo
  {
    if lo + 1 < hi {
      PeelFirst(a, b, k, lo, hi - 1);
    }
  }

  /** Widening the range past the coefficients of a adds only zero terms. */
  lemma {:induction false} Extend(a: seq<int>, b: seq<int>, k: int, lo: int, hi: int)
    requires lo <= 0 && |a| <= hi
    ensures RangeSum(a, b, k, lo, hi) == Coef(a, b, k)
    decreases hi - lo
  {
    if hi > |a| {
      Extend(a, b, k, lo, hi - 1);
    } else if lo < 0 {
      PeelFirst(a, b, k, lo, hi);
      Extend(a, b, k, lo + 1, hi);
    }
  }

  /** Summing j from the top is summing k - j from the bottom. */
  lemma {:induction false} Reverse(a: seq<int>, b: seq<int>, k: int, lo: int, hi: int)
    ensures RangeSum(a, b, k, lo, hi) == RangeSum(b, a, k, k - hi + 1, k - lo + 1)
    decreases hi - lo
  {
    if lo < hi {
      Reverse(a, b, k, lo, hi - 1);
      PeelFirst(b, a, k, k - hi + 1, k - lo + 1);
    }
  }

  /** The sum only reads At(a, j) for j in the range. */
  lemma {:induction false} Agree(p: seq<int>, q: seq<int>, c: seq<int>, k: int, lo: int, hi: int)
    requires forall j :: lo <= j < hi ==> At(p, j) == At(q, j)
    ensures RangeSum(p, c, k, lo, hi) == RangeSum(q, c, k, lo, hi)
    decreases hi - lo
  {
    if lo < hi {
      Agree(p, q, c, k, lo, hi - 1);
    }
  }

  lemma Distribute(x: int, y: int, s: int, z: int)
    ensures (x + s * y) * z == x * z + s * (y * z)
  {
  }

  /** The sum is linear in the first factor, up to a shift by d. */
  lemma {:induction false} Linear(p: seq<int>, q: seq<int>, r: seq<int>, s: int, d: int,
                                  c: seq<int>, k: int, lo: int, hi: int)
    requires forall j :: At(p, j) == At(q, j) + s * At(r, j - d)
    ensures RangeSum(p, c, k, lo, hi) == RangeSum(q, c, k, lo, hi) + s * RangeSum(r, c, k - d, lo - d, hi - d)
    decreases hi - lo
  {
    if lo < hi {
      var j := hi - 1;
      Linear(p, q, r, s, d, c, k, lo, j);
      assert At(p, j) == At(q, j) + s * At(r, j - d);
      LinearStep(RangeSum(q, c, k, lo, j), RangeSum(r, c, k - d, lo - d, j - d),
                 At(q, j), At(r, j - d), At(c, k - j), s);
    }
  }

  /** One term of Linear: adding x + s * y times z to both sides keeps them equal. */
  lemma LinearStep(u: int, v: int, x: int, y: int, z: int, s: int)
    ensures (u + s * v) + (x + s * y) * z == (u + x * z) + s * (v + y * z)
  {
    Distribute(x, y, s, z);
  }

  lemma {:induction false} RangeZero(a: seq<int>, b: seq<int>, k: int, lo: int, hi: int)
    requires hi <= lo || |b| == 0 || k < lo || k - (hi - 1) >= |b|
    ensures RangeSum(a, b, k, lo, hi) == 0
    decreases hi - lo
  {
    if lo < hi {
      RangeZero(a, b, k, lo, hi - 1);
    }
  }

  //---------------------------------------------------------------------------
  // The product

  /** Reading the product anywhere, also outside its length, gives the coefficient sum. */
  lemma AtMul(a: seq<int>, b: seq<int>, k: int)
    ensures At(Mul(a, b), k) == Coef(a, b, k)
  {
    if |a| == 0 || |b| == 0 || k < 0 || k >= |a| + |b| - 1 {
      RangeZero(a, b, k, 0, |a|);
    }
  }

  lemma SeqEqFromAt(p: seq<int>, q: seq<int>)
    requires |p| == |q|
    requires forall k :: 0 <= k < |p| ==> At(p, k) == At(q, k)
    ensures p == q
  {
    forall k | 0 <= k < |p|
      ensures p[k] == q[k]
    {
      assert At(p, k) == At(q, k);
    }
  }

  lemma CoefComm(a: seq<int>, b: seq<int>, k: int)
    ensures Coef(a, b, k) == Coef(b, a, k)
  {
    var hi := if |a| > k + 1 then |a| else k + 1;
    var lo := if k + 1 - |b| < 0 then k + 1 - |b| else 0;
    Extend(a, b, k, lo, hi);
    Reverse(a, b, k, lo, hi);
    Extend(b, a, k, k - hi + 1, k - lo + 1);
  }

  lemma MulComm(a: seq<int>, b: seq<int>)
    ensures Mul(a, b) == Mul(b, a)
  {
    if |a| > 0 && |b| > 0 {
      forall k | 0 <= k < |a| + |b| - 1
        ensures At(Mul(a, b), k) == At(Mul(b, a), k)
      {
        AtMul(a, b, k);
        AtMul(b, a, k);
        CoefComm(a, b, k);
      }
      SeqEqFromAt(Mul(a, b), Mul(b, a));
    }
  }

  /** Splitting off the last coefficient x of a = a' + [x]. */
  lemma CoefLast(a: seq<int>, b: seq<int>, k: int)
    requires |a| > 0
    ensures Coef(a, b, k) == Coef(a[..|a| - 1], b, k) + a[|a| - 1] * At(b, k - (|a| - 1))
  {
    var n := |a| - 1;
    Agree(a, a[..n], b, k, 0, n);
  }

  /** The product with a = a' + [x] is the product with a' plus x times b shifted. */
  lemma MulLastRow(a: seq<int>, b: seq<int>, j: int)
    requires |a| > 0
    ensures At(Mul(a, b), j) == At(Mul(a[..|a| - 1], b), j) + a[|a| - 1] * At(b, j - (|a| - 1))
  {
    AtMul(a, b, j);
    AtMul(a[..|a| - 1], b, j);
    CoefLast(a, b, j);
  }

  /** Coefficient k of (a' + [x]) * b times c, split as in MulLastRow. */
  lemma CoefMulLast(a: seq<int>, b: seq<int>, c: seq<int>, k: int)
    requires |a| > 0
    ensures Coef(Mul(a, b), c, k)
            == Coef(Mul(a[..|a| - 1], b), c, k) + a[|a| - 1] * Coef(b, c, k - (|a| - 1))
  {
    var n := |a| - 1;
    var P := Mul(a, b);
    var P' := Mul(a[..n], b);
    forall j
      ensures At(P, j) == At(P', j) + a[n] * At(b, j - n)
    {
      MulLastRow(a, b, j);
    }
    var N := |P| + |P'| + |b| + n + 1;
    Extend(P, c, k, 0, N);
    Linear(P, P', b, a[n], n, c, k, 0, N);
    Extend(P', c, k, 0, N);
    Extend(b, c, k - n, -n, N - n);
  }

  lemma {:induction false} CoefAssoc(a: seq<int>, b: seq<int>, c: seq<int>, k: int)
    ensures Coef(Mul(a, b), c, k) == Coef(a, Mul(b, c), k)
    decreases |a|
  {
    if |a| == 0 {
      CoefAssocEmpty(a, b, c, k);
    } else {
      CoefAssoc(a[..|a| - 1], b, c, k);
      CoefAssocStep(a, b, c, k);
    }
  }

  /** The inductive step of CoefAssoc: from a' = a without its last coefficient to a. */
  lemma CoefAssocStep(a: seq<int>, b: seq<int>, c: seq<int>, k: int)
    requires |a| > 0
    requires Coef(Mul(a[..|a| - 1], b), c, k) == Coef(a[..|a| - 1], Mul(b, c), k)
    ensures Coef(Mul(a, b), c, k) == Coef(a, Mul(b, c), k)
  {
    var n := |a| - 1;
    CoefMulLast(a, b, c, k);
    AtMul(b, c, k - n);
    CoefLast(a, Mul(b, c), k);
  }

  lemma CoefAssocEmpty(a: seq<int>, b: seq<int>, c: seq<int>, k: int)
    requires |a| == 0
    ensures Coef(Mul(a, b), c, k) == 0 == Coef(a, Mul(b, c), k)
  {
    var P := Mul(a, b);
    assert |P| == 0;
  }

  lemma MulAssoc(a: seq<int>, b: seq<int>, c: seq<int>)
    ensures Mul(Mul(a, b), c) == Mul(a, Mul(b, c))
  {
    var L := Mul(Mul(a, b), c);
    var R := Mul(a, Mul(b, c));
    assert |L| == |R|;
    forall k | 0 <= k < |L|
      ensures At(L, k) == At(R, k)
    {
      AtMul(Mul(a, b), c, k);
      AtMul(a, Mul(b, c), k);
      CoefAssoc(a, b, c, k);
    }
    SeqEqFromAt(L, R);
  }

  //---------------------------------------------------------------------------
  // Reduction modulo m

  lemma MulAtLeast(m: int, d: int)
    requires m > 0 && d >= 1
    ensures m * d >= m
  {
  }

  lemma UniqueMod(w: int, m: int, q: int, r: int)
    requires m > 0 && 0 <= r < m && w == m * q + r
    ensures w % m == r
  {
    var q2 := w / m;
    var r2 := w % m;
    assert m * (q - q2) == r2 - r;
    if q - q2 >= 1 {
      MulAtLeast(m, q - q2);
    }
    if q2 - q >= 1 {
      MulAtLeast(m, q2 - q);
    }
  }

  lemma ModShift(t: int, z: int, m: int)
    requires m > 0
    ensures (m * t + z) % m == z % m
  {
    var q := z / m;
    assert m * t + z == m * (t + q) + z % m;
    UniqueMod(m * t + z, m, t + q, z % m);
  }

  /** (x + y) mod m only depends on x mod m. */
  lemma ModSum(x: int, y: int, m: int)
    requires m > 0
    ensures (x + y) % m == (x % m + y) % m
  {
    ModShift(x / m, x % m + y, m);
  }

  /** x * y mod m only depends on x mod m. */
  lemma ModProd(x: int, y: int, m: int)
    requires m > 0
    ensures (x * y) % m == ((x % m) * y) % m
  {
    var q := x / m;
    assert x * y == m * (q * y) + (x % m) * y;
    ModShift(q * y, (x % m) * y, m);
  }

  lemma ModCongSum(x: int, x': int, y: int, y': int, m: int)
    requires m > 0 && x % m == x' % m && y % m == y' % m
    ensures (x + y) % m == (x' + y') % m
  {
    ModSum(x, y, m);
    ModSum(x', y, m);
    ModSum(y, x', m);
    ModSum(y', x', m);
  }

  lemma {:induction false} RangeSumModCong(p: seq<int>, q: seq<int>, c: seq<int>, k: int, lo: int, hi: int, m: int)
    requires m > 0
    requires forall j :: At(p, j) % m == At(q, j) % m
    ensures RangeSum(p, c, k, lo, hi) % m == RangeSum(q, c, k, lo, hi) % m
    decreases hi - lo
  {
    if lo < hi {
      RangeSumModCong(p, q, c, k, lo, hi - 1, m);
      var y := At(c, k - (hi - 1));
      ModProd(At(p, hi - 1), y, m);
      ModProd(At(q, hi - 1), y, m);
      ModCongSum(RangeSum(p, c, k, lo, hi - 1), RangeSum(q, c, k, lo, hi - 1),
                 At(p, hi - 1) * y, At(q, hi - 1) * y, m);
    }
  }

  /** Reducing the left factor modulo m first does not change the product modulo m. */
  lemma MulModLeft(p: seq<int>, q: seq<int>, c: seq<int>, m: int)
    requires m > 0 && |p| == |q| && ModP(p, m) == ModP(q, m)
    ensures ModP(Mul(p, c), m) == ModP(Mul(q, c), m)
  {
    forall j
      ensures At(p, j) % m == At(q, j) % m
    {
      if 0 <= j < |p| {
        assert ModP(p, m)[j] == ModP(q, m)[j];
      }
    }
    forall k | 0 <= k < |Mul(p, c)|
      ensures Mul(p, c)[k] % m == Mul(q, c)[k] % m
    {
      RangeSumModCong(p, q, c, k, 0, |p|, m);
    }
  }

  lemma ModPIdempotent(p: seq<int>, m: int)
    requires m > 0
    ensures ModP(ModP(p, m), m) == ModP(p, m)
  {
  }

  /** The product modulo m with either factor reduced first. */
  lemma MulModBoth(p: seq<int>, c: seq<int>, m: int)
    requires m > 0
    ensures ModP(Mul(ModP(p, m), c), m) == ModP(Mul(p, c), m)
    ensures ModP(Mul(c, ModP(p, m)), m) == ModP(Mul(c, p), m)
  {
    ModPIdempotent(p, m);
    MulModLeft(ModP(p, m), p, c, m);
    MulComm(c, ModP(p, m));
    MulComm(c, p);
  }
}
