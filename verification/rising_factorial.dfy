/** The rising-factorial product (x + left)(x + left + 1)...(x + right),
    coefficients high order first: its shape, its constant coefficient, and
    what a multiply modulo m must satisfy to be used for it. */
module RisingFactorial {
  import opened PolyAlgebra
  import opened Convolution
  import opened NatBits

  /** The exact product, high order first; a single factor x + left when right <= left. */
  function Rising(left: int, right: int): seq<int>
    decreases right - left
  {
    if right <= left then [1, left] else Mul(Rising(left, right - 1), [1, right])
  }

  /** A fast multiply (FFT or NTT based) behaves as the naive one. */
  ghost predicate IsModProduct(fast: (seq<int>, seq<int>) -> seq<int>, m: int)
    requires m > 0
  {
    forall a, b :: fast(a, b) == ModP(Mul(a, b), m)
  }

  //---------------------------------------------------------------------------
  // Facts about the product

  lemma CoefZero(a: seq<int>, b: seq<int>)
    ensures Coef(a, b, 0) == At(a, 0) * At(b, 0)
  {
    if |a| > 0 {
      PeelFirst(a, b, 0, 0, |a|);
      RangeZero(a, b, 0, 1, |a|);
    }
  }

  /** The rising factorial has one coefficient more than factors, leading 1, and
      non-negative coefficients when left is non-negative. */
  lemma {:induction false} RisingShape(left: int, right: int)
    requires left <= right
    ensures |Rising(left, right)| == right - left + 2
    ensures Rising(left, right)[0] == 1
    ensures left >= 0 ==> NonNegative(Rising(left, right))
    decreases right - left
  {
    if left < right {
      RisingShape(left, right - 1);
      var p := Rising(left, right - 1);
      CoefZero(p, [1, right]);
      if left >= 0 {
        forall k | 0 <= k < |Rising(left, right)|
          ensures Rising(left, right)[k] >= 0
        {
          RangeSumNonNegative(p, [1, right], k, 0, |p|);
        }
      }
    }
  }

  /** left * (left + 1) * ... * right, or left alone when right <= left. */
  function RangeProduct(left: int, right: int): int
    decreases right - left
  {
    if right <= left then left else RangeProduct(left, right - 1) * right
  }

  /** The constant coefficient of a product is the product of the constant ones. */
  lemma CoefTop(a: seq<int>, b: seq<int>)
    requires |a| > 0 && |b| > 0
    ensures Coef(a, b, |a| + |b| - 2) == a[|a| - 1] * b[|b| - 1]
  {
    var k := |a| + |b| - 2;
    RangeZero(a, b, k, 0, |a| - 1);
  }

  /** The constant coefficient of the rising factorial is left (left + 1) ... right. */
  lemma {:induction false} RisingConstant(left: int, right: int)
    requires left <= right
    ensures |Rising(left, right)| == right - left + 2
    ensures Rising(left, right)[right - left + 1] == RangeProduct(left, right)
    decreases right - left
  {
    RisingShape(left, right);
    if left < right {
      RisingConstant(left, right - 1);
      CoefTop(Rising(left, right - 1), [1, right]);
    }
  }

  lemma MulOne(b: seq<int>)
    requires |b| > 0
    ensures Mul([1], b) == b && Mul(b, [1]) == b
  {
    forall k | 0 <= k < |b|
      ensures At(Mul([1], b), k) == At(b, k)
    {
      AtMul([1], b, k);
    }
    SeqEqFromAt(Mul([1], b), b);
    MulComm(b, [1]);
  }
}
