/** The naive O(n m) polynomial products: `multPoly` over plain integers and
    `multPolyMod` / `FactorialNTT::multiplySlow` reducing modulo a modulus after
    every accumulation. Coefficient k of the result is the sum of
    left[j] * right[i] over i + j == k, written `Coef(right, left, k)`. */
module Convolution {
  import opened PolyAlgebra

  /** C++ `%` on a non-negative dividend and positive divisor; it truncates toward
      zero, which differs from the Euclidean `%` only for negative dividends. */
  function CppRem(x: int, m: int): (r: int)
    requires m > 0
    ensures x >= 0 ==> r == x % m
    ensures x < 0 ==> -m < r <= 0
  {
    if x >= 0 then x % m else -((-x) % m)
  }

  predicate NonNegative(p: seq<int>)
  {
    forall i :: 0 <= i < |p| ==> p[i] >= 0
  }

  /** What entry k holds after the outer loop has processed right[..i] and the
      inner loop left[..j] of row i. */
  function Partial(left: seq<int>, right: seq<int>, i: nat, j: nat, k: int): int
    requires i < |right| && j <= |left|
  {
    RangeSum(right, left, k, 0, i) + (if i <= k < i + j then right[i] * left[k - i] else 0)
  }

  lemma PartialStep(left: seq<int>, right: seq<int>, i: nat, j: nat, k: int)
    requires i < |right| && j < |left|
    ensures Partial(left, right, i, j + 1, k)
            == Partial(left, right, i, j, k) + (if k == i + j then right[i] * left[j] else 0)
  {
  }

  lemma ProductNonNegative(x: int, y: int)
    requires x >= 0 && y >= 0
    ensures x * y >= 0
  {
  }

  lemma PartialRowDone(left: seq<int>, right: seq<int>, i: nat, k: int)
    requires i < |right|
    ensures Partial(left, right, i, |left|, k) == RangeSum(right, left, k, 0, i + 1)
  {
  }

  lemma RangeSumNonNegative(a: seq<int>, b: seq<int>, k: int, lo: int, hi: int)
    requires NonNegative(a) && NonNegative(b)
    ensures RangeSum(a, b, k, lo, hi) >= 0
    decreases hi - lo
  {
    if lo < hi {
      RangeSumNonNegative(a, b, k, lo, hi - 1);
      assert At(a, hi - 1) >= 0 && At(b, k - (hi - 1)) >= 0;
    }
  }

  /** The result equals the product polynomial when both inputs are non-empty. */
  lemma ResultIsProduct(left: seq<int>, right: seq<int>, res: seq<int>)
    requires |left| > 0 && |right| > 0 && |res| == |left| + |right| - 1
    requires forall k :: 0 <= k < |res| ==> res[k] == Coef(right, left, k)
    ensures res == Mul(left, right)
  {
    MulComm(left, right);
    forall k | 0 <= k < |res|
      ensures At(res, k) == At(Mul(right, left), k)
    {
      AtMul(right, left, k);
    }
    SeqEqFromAt(res, Mul(right, left));
  }

  /** multPoly: res[i + j] += left[j] * right[i] over both loops. */
  method MultPoly(left: seq<int>, right: seq<int>) returns (res: seq<int>)
    requires |left| + |right| >= 1
    ensures |res| == |left| + |right| - 1
    ensures forall k :: 0 <= k < |res| ==> res[k] == Coef(right, left, k)
    ensures |left| > 0 && |right| > 0 ==> res == Mul(left, right)
  {
    res := seq(|left| + |right| - 1, _ => 0);
    var i := 0;
    while i < |right|
      invariant 0 <= i <= |right| && |res| == |left| + |right| - 1
      invariant forall k :: 0 <= k < |res| ==> res[k] == RangeSum(right, left, k, 0, i)
    {
      var j := 0;
      while j < |left|
        invariant 0 <= j <= |left| && |res| == |left| + |right| - 1
        invariant forall k :: 0 <= k < |res| ==> res[k] == Partial(left, right, i, j, k)
      {
        res := res[i + j := res[i + j] + left[j] * right[i]];
        j := j + 1;
      }
      forall k | 0 <= k < |res|
        ensures res[k] == RangeSum(right, left, k, 0, i + 1)
      {
        PartialRowDone(left, right, i, k);
      }
      i := i + 1;
    }
    if |left| > 0 && |right| > 0 {
      ResultIsProduct(left, right, res);
    }
  }

  /** The value the multPoly test compares against the FFT product: (1 + 2x + x^2)^2. */
  lemma SquareOfOneTwoOne()
    ensures Mul([1, 2, 1], [1, 2, 1]) == [1, 4, 6, 4, 1]
  {
    var p := [1, 2, 1];
    assert At(p, 0) == 1 && At(p, 1) == 2 && At(p, 2) == 1;
    assert forall t :: t < 0 || t > 2 ==> At(p, t) == 0;
    forall k | 0 <= k < 5
      ensures Coef(p, p, k) == [1, 4, 6, 4, 1][k]
    {
      assert RangeSum(p, p, k, 0, 1) == At(p, k);
      assert RangeSum(p, p, k, 0, 2) == At(p, k) + 2 * At(p, k - 1);
      assert RangeSum(p, p, k, 0, 3) == At(p, k) + 2 * At(p, k - 1) + At(p, k - 2);
    }
  }

  /** Every entry is reduced and holds the partial sum modulo m. */
  ghost predicate RowModInvariant(res: seq<int>, left: seq<int>, right: seq<int>, i: nat, j: nat, m: int)
    requires m > 0 && i < |right| && j <= |left|
  {
    forall k :: 0 <= k < |res| ==> 0 <= res[k] < m && res[k] == Partial(left, right, i, j, k) % m
  }

  /** One update res[i + j] = (res[i + j] + left[j] * right[i]) % m keeps the invariant. */
  lemma RowModStep(res: seq<int>, left: seq<int>, right: seq<int>, i: nat, j: nat, m: int)
    requires m > 0 && i < |right| && j < |left| && |res| == |left| + |right| - 1
    requires NonNegative(left) && NonNegative(right)
    requires RowModInvariant(res, left, right, i, j, m)
    ensures RowModInvariant(res[i + j := CppRem(res[i + j] + left[j] * right[i], m)], left, right, i, j + 1, m)
  {
    var d := left[j] * right[i];
    ProductNonNegative(left[j], right[i]);
    ModSum(Partial(left, right, i, j, i + j), d, m);
    forall k | 0 <= k < |res|
      ensures Partial(left, right, i, j + 1, k) == Partial(left, right, i, j, k) + (if k == i + j then d else 0)
    {
      PartialStep(left, right, i, j, k);
    }
  }

  /** One row of multPolyMod's inner loop: left scaled by right[i] is
      accumulated into res[i ..], reducing after every addition. */
  method AccumulateRowMod(res0: seq<int>, left: seq<int>, right: seq<int>, i: nat, m: int) returns (res: seq<int>)
    requires m > 0 && i < |right| && |res0| == |left| + |right| - 1
    requires NonNegative(left) && NonNegative(right)
    requires forall k :: 0 <= k < |res0| ==> 0 <= res0[k] < m && res0[k] == RangeSum(right, left, k, 0, i) % m
    ensures |res| == |res0|
    ensures forall k :: 0 <= k < |res| ==> 0 <= res[k] < m && res[k] == RangeSum(right, left, k, 0, i + 1) % m
  {
    res := res0;
    var j := 0;
    while j < |left|
      invariant 0 <= j <= |left| && |res| == |res0|
      invariant RowModInvariant(res, left, right, i, j, m)
    {
      RowModStep(res, left, right, i, j, m);
      res := res[i + j := CppRem(res[i + j] + left[j] * right[i], m)];
      j := j + 1;
    }
    forall k | 0 <= k < |res|
      ensures res[k] == RangeSum(right, left, k, 0, i + 1) % m
    {
      PartialRowDone(left, right, i, k);
    }
  }

  /** multPolyMod: res[i + j] = (res[i + j] + left[j] * right[i]) % MOD. */
  method MultPolyMod(left: seq<int>, right: seq<int>, m: int) returns (res: seq<int>)
    requires m > 0 && |left| + |right| >= 1
    requires NonNegative(left) && NonNegative(right)
    ensures |res| == |left| + |right| - 1
    ensures forall k :: 0 <= k < |res| ==> 0 <= res[k] < m && res[k] == Coef(right, left, k) % m
    ensures |left| > 0 && |right| > 0 ==> res == ModP(Mul(left, right), m)
  {
    res := seq(|left| + |right| - 1, _ => 0);
    var i := 0;
    while i < |right|
      invariant 0 <= i <= |right| && |res| == |left| + |right| - 1
      invariant forall k :: 0 <= k < |res| ==> 0 <= res[k] < m && res[k] == RangeSum(right, left, k, 0, i) % m
    {
      res := AccumulateRowMod(res, left, right, i, m);
      i := i + 1;
    }
    if |left| > 0 && |right| > 0 {
      forall k | 0 <= k < |res|
        ensures res[k] == ModP(Mul(left, right), m)[k]
      {
        CoefComm(right, left, k);
      }
    }
  }
}
