/** The quadratic reference convolutions `slowXor`, `slowOr` and `slowAnd`
    against which the fast Walsh-Hadamard transforms are compared:
    C[k] = sum of A[i] * B[j] over all pairs with i op j == k. */
module WalshHadamard {
  import opened NatBits

  datatype BitOp = XorOp | OrOp | AndOp

  function Apply(op: BitOp, i: nat, j: nat): nat
  {
    match op
    case XorOp => Xor(i, j)
    case OrOp => Or(i, j)
    case AndOp => And(i, j)
  }

  function Sum(s: seq<int>): int
  {
    if |s| == 0 then 0 else Sum(s[..|s| - 1]) + s[|s| - 1]
  }

  /** Sum over j < m of a * B[j] for the j with i op j == k. */
  function RowSum(op: BitOp, a: int, B: seq<int>, i: nat, k: nat, m: nat): int
    requires m <= |B|
  {
    if m == 0 then 0
    else RowSum(op, a, B, i, k, m - 1) + (if Apply(op, i, m - 1) == k then a * B[m - 1] else 0)
  }

  /** Sum over i < n and j < |B| of A[i] * B[j] for the pairs with i op j == k. */
  function PairSum(op: BitOp, A: seq<int>, B: seq<int>, k: nat, n: nat): int
    requires n <= |A|
  {
    if n == 0 then 0
    else PairSum(op, A, B, k, n - 1) + RowSum(op, A[n - 1], B, n - 1, k, |B|)
  }

  /** The closed form of entry k of the op-convolution of A and B. */
  function Convolution(op: BitOp, A: seq<int>, B: seq<int>, k: nat): int
  {
    PairSum(op, A, B, k, |A|)
  }

  lemma SumUpdate(s: seq<int>, t: nat, d: int)
    requires t < |s|
    ensures Sum(s[t := s[t] + d]) == Sum(s) + d
  {
    if t < |s| - 1 {
      assert s[t := s[t] + d][..|s| - 1] == s[..|s| - 1][t := s[t] + d];
      SumUpdate(s[..|s| - 1], t, d);
    } else {
      assert s[t := s[t] + d][..|s| - 1] == s[..|s| - 1];
    }
  }

  lemma SumZeros(n: nat)
    ensures Sum(seq(n, _ => 0)) == 0
  {
    if n > 0 {
      assert seq(n, _ => 0)[..n - 1] == seq(n - 1, _ => 0);
      SumZeros(n - 1);
    }
  }

  lemma SumPrefixStep(s: seq<int>, i: nat)
    requires i < |s|
    ensures Sum(s[..i + 1]) == Sum(s[..i]) + s[i]
  {
    assert s[..i + 1][..i] == s[..i];
  }

  /** The output length: the smallest power of two that is at least |A| and |B|. */
  method OutputSize(na: nat, nb: nat) returns (size: nat)
    ensures IsPow2(size) && na <= size && nb <= size
    ensures size == 1 || size / 2 < na || size / 2 < nb
  {
    size := 1;
    while size < na || size < nb
      invariant IsPow2(size)
      invariant size == 1 || size / 2 < na || size / 2 < nb
      decreases na + nb - size
    {
      assert (2 * size) / 2 == size;
      size := 2 * size;
    }
  }

  /** Every index i op j written by the double loop lies inside the output. */
  lemma IndexInRange(op: BitOp, i: nat, j: nat, size: nat)
    requires IsPow2(size) && i < size && j < size
    ensures Apply(op, i, j) < size
  {
    var k := IsPow2IsPow2Of(size);
    match op
    case XorOp => XorBound(i, j, k);
    case OrOp => OrBound(i, j, k);
    case AndOp => AndAtMostMin(i, j);
  }

  /** Adding a * B[j] at one entry moves the total from Sum(C0) + a * Sum(B[..j]) on to j + 1. */
  lemma AccumulateSum(C: seq<int>, C0: seq<int>, a: int, B: seq<int>, j: nat, t: nat)
    requires j < |B| && t < |C| && Sum(C) == Sum(C0) + a * Sum(B[..j])
    ensures Sum(C[t := C[t] + a * B[j]]) == Sum(C0) + a * Sum(B[..j + 1])
  {
    SumUpdate(C, t, a * B[j]);
    SumPrefixStep(B, j);
    Distribute(a, Sum(B[..j]), B[j]);
  }

  /** One more row: a total Sum(A[..i]) * sb plus A[i] * sb is Sum(A[..i + 1]) * sb. */
  lemma RowTotal(c: int, c0: int, A: seq<int>, i: nat, sb: int)
    requires i < |A| && c == c0 + A[i] * sb && c0 == Sum(A[..i]) * sb
    ensures c == Sum(A[..i + 1]) * sb
  {
    SumPrefixStep(A, i);
    Distribute(sb, Sum(A[..i]), A[i]);
  }

  lemma Distribute(a: int, x: int, y: int)
    ensures a * (x + y) == a * x + a * y && (x + y) * a == x * a + y * a
  {
  }

  /** One pass of the inner loop: row i of A, scaled into every C[i op j]. */
  method AccumulateRow(C0: seq<int>, a: int, B: seq<int>, i: nat, op: BitOp) returns (C: seq<int>)
    requires IsPow2(|C0|) && i < |C0| && |B| <= |C0|
    ensures |C| == |C0|
    ensures forall k :: 0 <= k < |C| ==> C[k] == C0[k] + RowSum(op, a, B, i, k, |B|)
    ensures Sum(C) == Sum(C0) + a * Sum(B)
  {
    C := C0;
    var j := 0;
    while j < |B|
      invariant 0 <= j <= |B| && |C| == |C0|
      invariant forall k :: 0 <= k < |C| ==> C[k] == C0[k] + RowSum(op, a, B, i, k, j)
      invariant Sum(C) == Sum(C0) + a * Sum(B[..j])
    {
      IndexInRange(op, i, j, |C0|);
      var t := Apply(op, i, j);
      AccumulateSum(C, C0, a, B, j, t);
      C := C[t := C[t] + a * B[j]];
      j := j + 1;
    }
    assert B[..|B|] == B;
  }

  /** The shared double loop of slowXor, slowOr and slowAnd. */
  method SlowConvolve(A: seq<int>, B: seq<int>, op: BitOp) returns (C: seq<int>)
    ensures IsPow2(|C|) && |A| <= |C| && |B| <= |C| && |C| >= 1
    ensures |C| == 1 || |C| / 2 < |A| || |C| / 2 < |B|
    ensures forall k :: 0 <= k < |C| ==> C[k] == Convolution(op, A, B, k)
    ensures Sum(C) == Sum(A) * Sum(B)
  {
    var size := OutputSize(|A|, |B|);
    C := seq(size, _ => 0);
    SumZeros(size);
    var i := 0;
    while i < |A|
      invariant 0 <= i <= |A| && |C| == size
      invariant forall k :: 0 <= k < size ==> C[k] == PairSum(op, A, B, k, i)
      invariant Sum(C) == Sum(A[..i]) * Sum(B)
    {
      var next := AccumulateRow(C, A[i], B, i, op);
      RowTotal(Sum(next), Sum(C), A, i, Sum(B));
      C, i := next, i + 1;
    }
    assert A[..|A|] == A;
  }

  method SlowXor(A: seq<int>, B: seq<int>) returns (C: seq<int>)
    ensures IsPow2(|C|) && |A| <= |C| && |B| <= |C|
    ensures |C| == 1 || |C| / 2 < |A| || |C| / 2 < |B|
    ensures forall k :: 0 <= k < |C| ==> C[k] == Convolution(XorOp, A, B, k)
    ensures Sum(C) == Sum(A) * Sum(B)
  {
    C := SlowConvolve(A, B, XorOp);
  }

  method SlowOr(A: seq<int>, B: seq<int>) returns (C: seq<int>)
    ensures IsPow2(|C|) && |A| <= |C| && |B| <= |C|
    ensures |C| == 1 || |C| / 2 < |A| || |C| / 2 < |B|
    ensures forall k :: 0 <= k < |C| ==> C[k] == Convolution(OrOp, A, B, k)
    ensures Sum(C) == Sum(A) * Sum(B)
  {
    C := SlowConvolve(A, B, OrOp);
  }

  lemma {:induction false} RowSumAndVanishes(a: int, B: seq<int>, i: nat, k: nat, m: nat)
    requires m <= |B| && (i < k || m <= k)
    ensures RowSum(AndOp, a, B, i, k, m) == 0
  {
    if m > 0 {
      RowSumAndVanishes(a, B, i, k, m - 1);
      AndAtMostMin(i, m - 1);
    }
  }

  lemma {:induction false} PairSumAndVanishes(A: seq<int>, B: seq<int>, k: nat, n: nat)
    requires n <= |A| && (n <= k || |B| <= k)
    ensures PairSum(AndOp, A, B, k, n) == 0
  {
    if n > 0 {
      PairSumAndVanishes(A, B, k, n - 1);
      RowSumAndVanishes(A[n - 1], B, n - 1, k, |B|);
    }
  }

  method SlowAnd(A: seq<int>, B: seq<int>) returns (C: seq<int>)
    ensures IsPow2(|C|) && |A| <= |C| && |B| <= |C|
    ensures |C| == 1 || |C| / 2 < |A| || |C| / 2 < |B|
    ensures forall k :: 0 <= k < |C| ==> C[k] == Convolution(AndOp, A, B, k)
    ensures Sum(C) == Sum(A) * Sum(B)
    ensures forall k :: |A| <= k < |C| || |B| <= k < |C| ==> C[k] == 0
  {
    C := SlowConvolve(A, B, AndOp);
    forall k | |A| <= k < |C| || |B| <= k < |C|
      ensures C[k] == 0
    {
      PairSumAndVanishes(A, B, k, |A|);
    }
  }
}
