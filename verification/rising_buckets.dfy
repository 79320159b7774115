/** The rising-factorial product modulo m as `multPolyPolyMod` and the two
    `FactorialNTT` functions compute it: directly for fewer than 128 factors,
    otherwise by keeping a list of "buckets" whose lengths are powers of two
    (except while one grows) and merging equal-length neighbours. */
module RisingBuckets {
  import opened PolyAlgebra
  import opened Convolution
  import opened NatBits
  import opened RisingFactorial

  //---------------------------------------------------------------------------
  // Products of bucket lists

  predicate AllNonEmpty(bs: seq<seq<int>>)
  {
    forall k :: 0 <= k < |bs| ==> |bs[k]| > 0
  }

  /** The product of all buckets, in list order. */
  function Prod(bs: seq<seq<int>>): seq<int>
  {
    if |bs| == 0 then [1] else Mul(Prod(bs[..|bs| - 1]), bs[|bs| - 1])
  }

  lemma {:induction false} ProdNonEmpty(bs: seq<seq<int>>)
    requires AllNonEmpty(bs)
    ensures |Prod(bs)| >= 1
  {
    if |bs| > 0 {
      ProdNonEmpty(bs[..|bs| - 1]);
    }
  }

  lemma {:induction false} ProdAppend(A: seq<seq<int>>, B: seq<seq<int>>)
    requires AllNonEmpty(A) && AllNonEmpty(B)
    ensures Prod(A + B) == Mul(Prod(A), Prod(B))
    decreases |B|
  {
    ProdNonEmpty(A);
    if |B| == 0 {
      assert A + B == A;
      MulOne(Prod(A));
    } else {
      var B' := B[..|B| - 1];
      assert (A + B)[..|A + B| - 1] == A + B';
      ProdAppend(A, B');
      MulAssoc(Prod(A), Prod(B'), B[|B| - 1]);
    }
  }

  lemma ProdSingle(b: seq<int>)
    requires |b| > 0
    ensures Prod([b]) == b
  {
    assert [b][..0] == [];
    MulOne(b);
  }

  lemma TakeSnoc<T>(s: seq<T>, n: nat)
    requires n < |s|
    ensures s[..n + 1] == s[..n] + [s[n]]
  {
  }

  lemma DropCons<T>(s: seq<T>, i: nat)
    requires i < |s|
    ensures s[i..] == [s[i]] + s[i + 1..]
  {
  }

  lemma DropPastEnd<T>(s: seq<T>, i: nat)
    requires i == |s|
    ensures s[i..] == []
  {
  }

  lemma DropNothing<T>(s: seq<T>)
    ensures s[0..] == s
  {
  }

  lemma ProdPush(bs: seq<seq<int>>, x: seq<int>)
    ensures Prod(bs + [x]) == Mul(Prod(bs), x)
  {
    assert (bs + [x])[..|bs|] == bs;
  }

  /** Folding a factor into the last bucket, reduced, multiplies the product by
      it modulo m. */
  lemma ExtendLast(bs: seq<seq<int>>, f: seq<int>, g: seq<int>, m: int)
    requires m > 0 && |bs| >= 1
    requires g == ModP(Mul(bs[|bs| - 1], f), m)
    ensures ModP(Prod(bs[|bs| - 1 := g]), m) == ModP(Mul(Prod(bs), f), m)
  {
    var n := |bs|;
    var P := Prod(bs[..n - 1]);
    var x := bs[n - 1];
    assert bs[n - 1 := g] == bs[..n - 1] + [g];
    ProdPush(bs[..n - 1], g);
    MulModBoth(Mul(x, f), P, m);
    MulAssoc(P, x, f);
  }

  /** Replacing the last two buckets by their reduced product keeps the product
      modulo m. */
  lemma MergeLast(bs: seq<seq<int>>, g: seq<int>, m: int)
    requires m > 0 && |bs| >= 2
    requires g == ModP(Mul(bs[|bs| - 2], bs[|bs| - 1]), m)
    ensures ModP(Prod(bs[..|bs| - 2] + [g]), m) == ModP(Prod(bs), m)
  {
    var n := |bs|;
    var Q := Prod(bs[..n - 2]);
    var x := bs[n - 2];
    var y := bs[n - 1];
    ProdPush(bs[..n - 2], g);
    ProdLastTwo(bs);
    MulModBoth(Mul(x, y), Q, m);
    MulAssoc(Q, x, y);
  }

  lemma ProdLastTwo(bs: seq<seq<int>>)
    requires |bs| >= 2
    ensures Prod(bs) == Mul(Mul(Prod(bs[..|bs| - 2]), bs[|bs| - 2]), bs[|bs| - 1])
  {
    var n := |bs|;
    TakeSnoc(bs, n - 2);
    ProdPush(bs[..n - 2], bs[n - 2]);
  }

  /** The product of a list is its head times the product of its tail. */
  lemma ProdCons(b: seq<int>, bs: seq<seq<int>>)
    requires |b| > 0 && AllNonEmpty(bs)
    ensures Prod([b] + bs) == Mul(b, Prod(bs))
  {
    ProdAppend([b], bs);
    ProdSingle(b);
  }

  //---------------------------------------------------------------------------
  // The algorithm

  /** Every bucket has at least two coefficients; every one but the last has a
      power-of-two length; and every bucket is reduced modulo m except the
      two-coefficient ones, which are factors x + i pushed unreduced. */
  ghost predicate BucketsOk(bs: seq<seq<int>>, m: int)
    requires m > 0
  {
    && (forall k :: 0 <= k < |bs| ==> |bs[k]| >= 2 && NonNegative(bs[k]))
    && (forall k :: 0 <= k < |bs| - 1 ==> IsPow2(|bs[k]|))
    && (forall k :: 0 <= k < |bs| && |bs[k]| != 2 ==> ModP(bs[k], m) == bs[k])
  }

  /** The search loop of one step: the first bucket whose length is not a power of two. */
  method FirstNonPow2(bs: seq<seq<int>>) returns (j: nat)
    requires forall k :: 0 <= k < |bs| ==> |bs[k]| >= 1
    ensures j <= |bs|
    ensures forall k :: 0 <= k < j ==> IsPow2(|bs[k]|)
    ensures j < |bs| ==> !IsPow2(|bs[j]|)
  {
    j := 0;
    while j < |bs| && And(|bs[j]|, |bs[j]| - 1) == 0
      invariant j <= |bs|
      invariant forall k :: 0 <= k < j ==> IsPow2(|bs[k]|)
    {
      AndPredecessorZeroIffPow2(|bs[j]|);
      j := j + 1;
    }
    if j < |bs| {
      AndPredecessorZeroIffPow2(|bs[j]|);
    }
  }

  /** Multiplying anything congruent to the product up to i - 1 by x + i gives
      something congruent to the product up to i. */
  lemma RisingStep(left: int, i: int, p: seq<int>, m: int)
    requires m > 0 && left < i
    requires ModP(p, m) == ModP(Rising(left, i - 1), m)
    ensures ModP(Mul(p, [1, i]), m) == ModP(Rising(left, i), m)
  {
    MulModBoth(p, [1, i], m);
    MulModBoth(Rising(left, i - 1), [1, i], m);
  }

  lemma PushOk(bs: seq<seq<int>>, i: int, m: int)
    requires m > 0 && i >= 0 && BucketsOk(bs, m)
    requires forall k :: 0 <= k < |bs| ==> IsPow2(|bs[k]|)
    ensures BucketsOk(bs + [[1, i]], m)
  {
  }

  lemma SetLastOk(bs: seq<seq<int>>, g: seq<int>, m: int)
    requires m > 0 && |bs| >= 1 && BucketsOk(bs, m)
    requires |g| >= 2 && NonNegative(g) && ModP(g, m) == g
    ensures BucketsOk(bs[|bs| - 1 := g], m)
  {
  }

  lemma MergeOk(bs: seq<seq<int>>, g: seq<int>, m: int)
    requires m > 0 && |bs| >= 2 && BucketsOk(bs, m)
    requires |g| >= 2 && NonNegative(g) && ModP(g, m) == g
    ensures BucketsOk(bs[..|bs| - 2] + [g], m)
  {
  }

  lemma EraseLast<T>(s: seq<T>, g: T)
    requires |s| >= 2
    ensures s[..|s| - 2] + [g] + s[|s|..] == s[..|s| - 2] + [g]
  {
  }

  /** Folding x + i into the bucket list, before any merging. */
  method AddFactor(bs0: seq<seq<int>>, i: int, left: int, m: int) returns (bs: seq<seq<int>>, j: nat)
    requires m > 0 && 0 <= left < i
    requires |bs0| >= 1 && BucketsOk(bs0, m)
    requires ModP(Prod(bs0), m) == ModP(Rising(left, i - 1), m)
    ensures |bs| >= 1 && j == |bs| - 1 && BucketsOk(bs, m)
    ensures ModP(Prod(bs), m) == ModP(Rising(left, i), m)
  {
    var f := [1, i];
    j := FirstNonPow2(bs0);
    RisingStep(left, i, Prod(bs0), m);
    if j >= |bs0| {
      bs := bs0 + [f];
      ProdPush(bs0, f);
      PushOk(bs0, i, m);
    } else {
      var g := MultPolyMod(bs0[j], f, m);
      bs := bs0[j := g];
      ExtendLast(bs0, f, g, m);
      ModPIdempotent(Mul(bs0[j], f), m);
      SetLastOk(bs0, g, m);
    }
  }

  /** One merge of the two last buckets, as the body of the merge loop does it. */
  lemma MergeStep(bs: seq<seq<int>>, g: seq<int>, left: int, i: int, m: int)
    requires m > 0 && |bs| >= 2 && BucketsOk(bs, m)
    requires ModP(Prod(bs), m) == ModP(Rising(left, i), m)
    requires g == ModP(Mul(bs[|bs| - 2], bs[|bs| - 1]), m)
    ensures BucketsOk(bs[..|bs| - 2] + [g], m)
    ensures ModP(Prod(bs[..|bs| - 2] + [g]), m) == ModP(Rising(left, i), m)
  {
    MergeLast(bs, g, m);
    ModPIdempotent(Mul(bs[|bs| - 2], bs[|bs| - 1]), m);
    MergeOk(bs, g, m);
  }

  /** One step of the bucket loop: fold the factor x + i into the first bucket
      whose length is not a power of two (always the last one) or push it as a
      new bucket, then merge equal power-of-two neighbours from there down. */
  method BucketStep(bs0: seq<seq<int>>, i: int, left: int, m: int,
                    fast: (seq<int>, seq<int>) -> seq<int>) returns (bs: seq<seq<int>>)
    requires m > 0 && 0 <= left < i && IsModProduct(fast, m)
    requires |bs0| >= 1 && BucketsOk(bs0, m)
    requires ModP(Prod(bs0), m) == ModP(Rising(left, i - 1), m)
    ensures |bs| >= 1 && BucketsOk(bs, m)
    ensures ModP(Prod(bs), m) == ModP(Rising(left, i), m)
  {
    var j;
    bs, j := AddFactor(bs0, i, left, m);
    while j > 0 && |bs[j]| == |bs[j - 1]| && And(|bs[j]|, |bs[j]| - 1) == 0
      invariant |bs| >= 1 && j == |bs| - 1 && BucketsOk(bs, m)
      invariant ModP(Prod(bs), m) == ModP(Rising(left, i), m)
      decreases j
    {
      var g;
      if |bs[j]| < 128 {
        g := MultPolyMod(bs[j - 1], bs[j], m);
      } else {
        g := fast(bs[j - 1], bs[j]);
      }
      MergeStep(bs, g, left, i, m);
      EraseLast(bs, g);
      bs := bs[..j - 1] + [g] + bs[j + 1..];
      j := j - 1;
    }
  }

  /** The final combination: res = last bucket, then res * poly[i] for i downwards. */
  method CombineBuckets(bs: seq<seq<int>>, m: int, fast: (seq<int>, seq<int>) -> seq<int>) returns (res: seq<int>)
    requires m > 0 && |bs| >= 1 && BucketsOk(bs, m) && IsModProduct(fast, m)
    ensures ModP(res, m) == ModP(Prod(bs), m)
    ensures |bs| >= 2 || |bs[0]| != 2 ==> ModP(res, m) == res
  {
    res := bs[|bs| - 1];
    ProdSingle(res);
    DropCons(bs, |bs| - 1);
    DropPastEnd(bs, |bs|);
    var i := |bs| - 2;
    while i >= 0
      invariant -1 <= i <= |bs| - 2
      invariant |res| >= 1
      invariant ModP(res, m) == ModP(Prod(bs[i + 1..]), m)
      invariant i < |bs| - 2 || |bs[|bs| - 1]| != 2 ==> ModP(res, m) == res
    {
      var next := fast(res, bs[i]);
      DropCons(bs, i);
      ProdCons(bs[i], bs[i + 1..]);
      MulComm(res, bs[i]);
      MulComm(Prod(bs[i + 1..]), bs[i]);
      MulModBoth(res, bs[i], m);
      MulModBoth(Prod(bs[i + 1..]), bs[i], m);
      ModPIdempotent(Mul(res, bs[i]), m);
      res := next;
      i := i - 1;
    }
    DropNothing(bs);
  }

  /** The direct branch for fewer than 128 factors. */
  method DirectProduct(left: int, right: int, m: int) returns (res: seq<int>)
    requires m > 0 && left >= 0
    ensures right <= left ==> res == [1, left]
    ensures left < right ==> res == ModP(Rising(left, right), m)
  {
    res := [1, left];
    var i := left + 1;
    while i <= right
      invariant left + 1 <= i && (i == left + 1 || i <= right + 1)
      invariant NonNegative(res) && |res| >= 1
      invariant ModP(res, m) == ModP(Rising(left, i - 1), m)
      invariant i == left + 1 ==> res == [1, left]
      invariant i > left + 1 ==> ModP(res, m) == res
    {
      var next := MultPolyMod(res, [1, i], m);
      RisingStep(left, i, res, m);
      ModPIdempotent(Mul(res, [1, i]), m);
      res := next;
      i := i + 1;
    }
  }

  /** The bucketed branch, for any number of factors. */
  method BucketProduct(left: int, right: int, m: int, fast: (seq<int>, seq<int>) -> seq<int>) returns (res: seq<int>)
    requires m > 0 && 0 <= left < right && IsModProduct(fast, m)
    ensures res == ModP(Rising(left, right), m)
  {
    var poly := [[1, left]];
    InitialBucket(left, m);
    var i := left + 1;
    while i <= right
      invariant left + 1 <= i <= right + 1
      invariant |poly| >= 1 && BucketsOk(poly, m)
      invariant ModP(Prod(poly), m) == ModP(Rising(left, i - 1), m)
    {
      poly := BucketStep(poly, i, left, m, fast);
      i := i + 1;
    }
    res := CombineBuckets(poly, m, fast);
    SingleBucketReduced(poly, left, right, m);
  }

  lemma InitialBucket(left: int, m: int)
    requires m > 0 && left >= 0
    ensures BucketsOk([[1, left]], m)
    ensures ModP(Prod([[1, left]]), m) == ModP(Rising(left, left), m)
  {
    ProdSingle([1, left]);
  }

  /** A single remaining bucket holds all right - left + 1 factors, so it is not a
      pushed two-coefficient factor. */
  lemma SingleBucketReduced(bs: seq<seq<int>>, left: int, right: int, m: int)
    requires m > 0 && 0 <= left < right && |bs| >= 1 && BucketsOk(bs, m)
    requires ModP(Prod(bs), m) == ModP(Rising(left, right), m)
    ensures |bs| >= 2 || |bs[0]| != 2
  {
    if |bs| == 1 {
      assert bs == [bs[0]];
      ProdSingle(bs[0]);
      RisingShape(left, right);
      assert |bs[0]| == |ModP(Rising(left, right), m)|;
    }
  }

  /** The shared body of multPolyPolyMod, multiplyRisingFactorialSmall and
      multiplyRisingFactorial; `fast` is the FFT or NTT multiply. */
  method RisingProduct(left: int, right: int, m: int, fast: (seq<int>, seq<int>) -> seq<int>) returns (res: seq<int>)
    requires m > 0 && left >= 0 && IsModProduct(fast, m)
    ensures right <= left ==> res == [1, left]
    ensures left < right ==> res == ModP(Rising(left, right), m)
    ensures left <= right ==> |res| == right - left + 2
    ensures m > 1 || right <= left ==> res[0] == 1
  {
    var n := right - left + 1;
    if n < 128 {
      res := DirectProduct(left, right, m);
    } else {
      res := BucketProduct(left, right, m, fast);
    }
    if left < right {
      ReducedShape(left, right, m);
    }
  }

  /** multPolyPolyMod: (x + left)(x + left + 1)...(x + right) modulo m, with
      `fftMod` standing for multPolyFFTMod. */
  method MultPolyPolyMod(left: int, right: int, m: int, fftMod: (seq<int>, seq<int>) -> seq<int>) returns (res: seq<int>)
    requires m > 0 && left >= 0 && IsModProduct(fftMod, m)
    ensures right <= left ==> res == [1, left]
    ensures left < right ==> res == ModP(Rising(left, right), m)
    ensures left <= right ==> |res| == right - left + 2
    ensures m > 1 || right <= left ==> res[0] == 1
  {
    res := RisingProduct(left, right, m, fftMod);
  }

  /** The reduced product has one coefficient more than factors and, for m > 1,
      leading coefficient 1. */
  lemma ReducedShape(left: int, right: int, m: int)
    requires m > 0 && left <= right
    ensures |ModP(Rising(left, right), m)| == right - left + 2
    ensures m > 1 ==> ModP(Rising(left, right), m)[0] == 1
  {
    RisingShape(left, right);
  }
}
