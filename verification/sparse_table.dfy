/** Static range-query tables: level k, entry v combines the window
    a[v .. min(v + 2^k, n)) of the input. `SparseTable` answers a range with two
    overlapping windows (`query`) or with disjoint power-of-two blocks
    (`queryNoOverlap`); `SparseTableMin` is the instance with `min`, and
    `SparseTableMinIndex` stores positions of minima instead of values. */
module SparseTable {
  import opened NatBits
  import opened Folds

  //---------------------------------------------------------------------------
  // The floor-log table H

  /** floor(log2 i) */
  function Log2(i: nat): nat
    requires i >= 1
  {
    if i == 1 then 0 else Log2(i / 2) + 1
  }

  lemma {:induction false} Log2Bounds(i: nat)
    requires i >= 1
    ensures Pow2(Log2(i)) <= i < 2 * Pow2(Log2(i))
  {
    if i > 1 {
      Log2Bounds(i / 2);
    }
  }

  lemma {:induction false} Log2Monotone(i: nat, j: nat)
    requires 1 <= i <= j
    ensures Log2(i) <= Log2(j)
  {
    if i > 1 {
      Log2Monotone(i / 2, j / 2);
    }
  }

  /** H[1] = 0 and H[i] = H[i >> 1] + 1; H[0] keeps its initial 0. */
  method FloorLogTable(n: nat) returns (H: seq<nat>)
    requires n >= 1
    ensures |H| == n + 1
    ensures forall i :: 1 <= i <= n ==> H[i] == Log2(i) && Pow2(H[i]) <= i < 2 * Pow2(H[i])
  {
    H := seq(n + 1, _ => 0);
    var i := 2;
    while i < |H|
      invariant 2 <= i <= n + 1 && |H| == n + 1
      invariant forall t :: 1 <= t < i ==> H[t] == Log2(t)
    {
      H := H[i := H[i / 2] + 1];
      i := i + 1;
    }
    forall i | 1 <= i <= n
      ensures Pow2(H[i]) <= i < 2 * Pow2(H[i])
    {
      Log2Bounds(i);
    }
  }

  /** Where a window starting at v and 2^k long is cut off by the end n. */
  function WindowEnd(v: nat, k: nat, n: nat): nat
  {
    if v + Pow2(k) < n then v + Pow2(k) else n
  }

  //---------------------------------------------------------------------------
  // SparseTable<T, BinOp>

  datatype Table = Table(n: nat, value: seq<seq<int>>, H: seq<nat>, dflt: int, op: (int, int) -> int)

  /** What `_init` stores at level k, entry v: level k - 1 at v merged with level
      k - 1 at v + 2^(k-1) when that is inside the array, else level k - 1 at v. */
  function Win(op: (int, int) -> int, a: seq<int>, k: nat, v: nat): int
    requires v < |a|
    decreases k
  {
    if k == 0 then a[v]
    else if v + Pow2(k - 1) < |a| then op(Win(op, a, k - 1, v), Win(op, a, k - 1, v + Pow2(k - 1)))
    else Win(op, a, k - 1, v)
  }

  /** The state `_init(a, n)` leaves: H is the floor-log table, there are
      H[n] + 1 levels of n entries each, and level k, entry v holds Win. */
  ghost predicate Valid(t: Table, a: seq<int>)
  {
    && t.n >= 1 && |a| == t.n
    && |t.H| == t.n + 1
    && (forall i :: 1 <= i <= t.n ==> t.H[i] == Log2(i))
    && |t.value| == Log2(t.n) + 1
    && Levels(t.value, t.op, a)
  }

  /** Every stored level has one entry per element, and entry v of level k is Win. */
  ghost predicate Levels(value: seq<seq<int>>, op: (int, int) -> int, a: seq<int>)
  {
    && (forall k :: 0 <= k < |value| ==> |value[k]| == |a|)
    && (forall k, v :: 0 <= k < |value| && 0 <= v < |a| ==> value[k][v] == Win(op, a, k, v))
  }

  lemma LevelsAppend(value: seq<seq<int>>, op: (int, int) -> int, a: seq<int>, curr: seq<int>)
    requires Levels(value, op, a) && |curr| == |a|
    requires forall v :: 0 <= v < |a| ==> curr[v] == Win(op, a, |value|, v)
    ensures Levels(value + [curr], op, a)
  {
    var value' := value + [curr];
    forall k, v | 0 <= k < |value'| && 0 <= v < |a|
      ensures value'[k][v] == Win(op, a, k, v)
    {
      if k < |value| {
        assert value'[k] == value[k];
      }
    }
  }

  /** The fold of a[lo..hi), indexed in place rather than through a slice. */
  function FoldRange(op: (int, int) -> int, a: seq<int>, lo: nat, hi: nat): int
    requires lo < hi <= |a|
    decreases hi - lo
  {
    if hi - lo == 1 then a[lo] else op(FoldRange(op, a, lo, hi - 1), a[hi - 1])
  }

  lemma {:induction false} FoldRangeIsFold(op: (int, int) -> int, a: seq<int>, lo: nat, hi: nat)
    requires lo < hi <= |a|
    ensures FoldRange(op, a, lo, hi) == Fold(op, a[lo..hi])
    decreases hi - lo
  {
    if hi - lo > 1 {
      FoldRangeIsFold(op, a, lo, hi - 1);
      assert a[lo..hi][..hi - lo - 1] == a[lo..hi - 1];
    }
  }

  /** Splitting a range at mid splits its fold, for an associative op. */
  lemma {:induction false} FoldRangeSplit(op: (int, int) -> int, a: seq<int>, lo: nat, mid: nat, hi: nat)
    requires Associative(op) && lo < mid < hi <= |a|
    ensures FoldRange(op, a, lo, hi) == op(FoldRange(op, a, lo, mid), FoldRange(op, a, mid, hi))
    decreases hi - mid
  {
    if hi - mid > 1 {
      FoldRangeSplit(op, a, lo, mid, hi - 1);
      assert AssocAt(op, FoldRange(op, a, lo, mid), FoldRange(op, a, mid, hi - 1), a[hi - 1]);
    }
  }

  /** For an associative op, level k entry v folds the window a[v .. v + 2^k)
      cut off at the end of the array. */
  lemma {:induction false} WinIsFold(op: (int, int) -> int, a: seq<int>, k: nat, v: nat)
    requires Associative(op) && v < |a|
    ensures Win(op, a, k, v) == FoldRange(op, a, v, WindowEnd(v, k, |a|))
    decreases k
  {
    if k > 0 {
      var p := Pow2(k - 1);
      assert Pow2(k) == p + p;
      var e := WindowEnd(v, k, |a|);
      WinIsFold(op, a, k - 1, v);
      if v + p < |a| {
        WinIsFold(op, a, k - 1, v + p);
        assert Win(op, a, k, v) == op(Win(op, a, k - 1, v), Win(op, a, k - 1, v + p));
        assert WindowEnd(v, k - 1, |a|) == v + p && WindowEnd(v + p, k - 1, |a|) == e;
        FoldRangeSplit(op, a, v, v + p, e);
      } else {
        assert Win(op, a, k, v) == Win(op, a, k - 1, v);
        assert WindowEnd(v, k - 1, |a|) == e;
      }
    }
  }

  /** One level of `_init`: curr[v] = op(prev[v], prev[v + 2^(k-1)]) inside the
      array, prev[v] past its end. */
  method BuildLevel(prev: seq<int>, k: nat, op: (int, int) -> int, ghost a: seq<int>) returns (curr: seq<int>)
    requires k >= 1 && |prev| == |a|
    requires forall v :: 0 <= v < |a| ==> prev[v] == Win(op, a, k - 1, v)
    ensures |curr| == |a|
    ensures forall v :: 0 <= v < |a| ==> curr[v] == Win(op, a, k, v)
    ensures Associative(op) ==> forall v :: 0 <= v < |a| ==> curr[v] == FoldRange(op, a, v, WindowEnd(v, k, |a|))
  {
    var n := |prev|;
    curr := seq(n, _ => 0);
    var v := 0;
    while v < n
      invariant 0 <= v <= n && |curr| == n
      invariant forall u :: 0 <= u < v ==> curr[u] == Win(op, a, k, u)
    {
      if v + Pow2(k - 1) < n {
        curr := curr[v := op(prev[v], prev[v + Pow2(k - 1)])];
      } else {
        curr := curr[v := prev[v]];
      }
      v := v + 1;
    }
    if Associative(op) {
      forall u | 0 <= u < |a|
        ensures curr[u] == FoldRange(op, a, u, WindowEnd(u, k, |a|))
      {
        WinIsFold(op, a, k, u);
      }
    }
  }

  /** _init(a, n): reads a[0..n); n >= 1 because H[1] is written. */
  method Init(a: seq<int>, n: nat, op: (int, int) -> int, dflt: int) returns (t: Table)
    requires 1 <= n <= |a|
    ensures t.n == n && t.op == op && t.dflt == dflt
    ensures Valid(t, a[..n])
    ensures t.value[0] == a[..n]
  {
    var H := FloorLogTable(n);
    var levels := H[n] + 1;
    var value := [a[..n]];
    var i := 1;
    while i < levels
      invariant 1 <= i <= levels && |value| == i
      invariant value[0] == a[..n]
      invariant Levels(value, op, a[..n])
    {
      var curr := BuildLevel(value[i - 1], i, op, a[..n]);
      LevelsAppend(value, op, a[..n], curr);
      value := value + [curr];
      i := i + 1;
    }
    t := Table(n, value, H, dflt, op);
  }

  /** For an associative op, every stored entry folds its window. */
  lemma TableHoldsWindows(t: Table, a: seq<int>, k: nat, v: nat)
    requires Valid(t, a) && Associative(t.op)
    requires k < |t.value| && v < t.n
    ensures t.value[k][v] == FoldRange(t.op, a, v, WindowEnd(v, k, t.n))
  {
    WinIsFold(t.op, a, k, v);
  }

  /** With k = floor(log2 len), the two windows of length 2^k at l and at
      l + len - 2^k lie inside [l, l + len) and together cover it. */
  lemma WindowsCover(len: nat)
    requires len >= 1
    ensures Pow2(Log2(len)) <= len <= 2 * Pow2(Log2(len)) - 1
  {
    Log2Bounds(len);
  }

  /** Two overlapping windows of length p fold to the whole range [lo, hi) for an
      associative, idempotent op (min, max, gcd). */
  lemma OverlapFold(op: (int, int) -> int, a: seq<int>, lo: nat, hi: nat, p: nat)
    requires Associative(op) && Idempotent(op)
    requires 1 <= p && lo + p <= hi <= |a| && hi - lo < 2 * p
    ensures op(FoldRange(op, a, lo, lo + p), FoldRange(op, a, hi - p, hi)) == FoldRange(op, a, lo, hi)
  {
    if lo + p < hi {
      var x := FoldRange(op, a, lo, hi - p);
      var y := FoldRange(op, a, hi - p, lo + p);
      var z := FoldRange(op, a, lo + p, hi);
      FoldRangeSplit(op, a, lo, hi - p, lo + p);
      FoldRangeSplit(op, a, hi - p, lo + p, hi);
      FoldRangeSplit(op, a, lo, hi - p, hi);
      OverlapAlgebra(op, x, y, z);
    } else {
      assert IdemAt(op, FoldRange(op, a, lo, hi));
    }
  }

  lemma OverlapAlgebra(op: (int, int) -> int, x: int, y: int, z: int)
    requires Associative(op) && Idempotent(op)
    ensures op(op(x, y), op(y, z)) == op(x, op(y, z))
  {
    calc {
      op(op(x, y), op(y, z));
      { assert AssocAt(op, x, y, op(y, z)); }
      op(x, op(y, op(y, z)));
      { assert AssocAt(op, y, y, z); }
      op(x, op(op(y, y), z));
      { assert IdemAt(op, y); }
      op(x, op(y, z));
    }
  }

  /** query(left, right), inclusive: two overlapping windows of length 2^H[len]. */
  method Query(t: Table, ghost a: seq<int>, left: int, right: int) returns (res: int)
    requires Valid(t, a)
    requires left <= right ==> 0 <= left && right < t.n
    ensures right < left ==> res == t.dflt
    ensures left <= right && Associative(t.op) && Idempotent(t.op) ==> res == Fold(t.op, a[left..right + 1])
  {
    var r := right + 1;
    if r <= left {
      return t.dflt;
    }
    var k := t.H[r - left];
    assert k == Log2(r - left);
    Log2Monotone(r - left, t.n);
    WindowsCover(r - left);
    res := t.op(t.value[k][left], t.value[k][r - Pow2(k)]);
    if Associative(t.op) && Idempotent(t.op) {
      QueryWindows(t, a, left, r, k);
      FoldRangeIsFold(t.op, a, left, r);
    }
  }

  /** The two overlapping windows of query fold to the whole range. */
  lemma QueryWindows(t: Table, a: seq<int>, left: nat, r: nat, k: nat)
    requires Valid(t, a) && Associative(t.op) && Idempotent(t.op)
    requires left < r <= t.n && k == Log2(r - left)
    ensures k < |t.value| && Pow2(k) <= r - left
    ensures t.op(t.value[k][left], t.value[k][r - Pow2(k)]) == FoldRange(t.op, a, left, r)
  {
    Log2Monotone(r - left, t.n);
    WindowsCover(r - left);
    var p := Pow2(k);
    TableHoldsWindows(t, a, k, left);
    TableHoldsWindows(t, a, k, r - p);
    MergeWindows(t.op, a, left, r, k, t.value[k][left], t.value[k][r - p]);
  }

  /** The windows of level k at left and at r - 2^k merge to the range [left, r). */
  lemma MergeWindows(op: (int, int) -> int, a: seq<int>, left: nat, r: nat, k: nat, x: int, y: int)
    requires Associative(op) && Idempotent(op)
    requires left + Pow2(k) <= r <= |a| && r - left < 2 * Pow2(k)
    requires x == FoldRange(op, a, left, WindowEnd(left, k, |a|))
    requires y == FoldRange(op, a, r - Pow2(k), WindowEnd(r - Pow2(k), k, |a|))
    ensures op(x, y) == FoldRange(op, a, left, r)
  {
    var p := Pow2(k);
    assert WindowEnd(left, k, |a|) == left + p;
    assert WindowEnd(r - p, k, |a|) == r;
    OverlapFold(op, a, left, r, p);
  }

  /** queryNoOverlap(left, right), inclusive: the set bits of len = right - left + 1,
      low to high, peel disjoint blocks of length 2^i off the right end, so the
      blocks tile [left, right] and the loop ends with the cursor at left. */
  method QueryNoOverlap(t: Table, ghost a: seq<int>, left: int, right: int) returns (res: int)
    requires Valid(t, a)
    requires left <= right ==> 0 <= left && right < t.n
    ensures right < left ==> res == t.dflt
    ensures left <= right && Laws(t) ==> res == Fold(t.op, a[left..right + 1])
  {
    var r := right + 1;
    if r <= left {
      return t.dflt;
    }
    res := t.dflt;
    var length := r - left;
    var i := 0;
    while length != 0
      invariant Round(t, a, left, right, r, i, length, res)
      decreases length
    {
      if length % 2 == 1 {
        OddRound(t, a, left, right, r, i, length, res);
        r := r - Pow2(i);
        res := t.op(res, t.value[i][r]);
      } else {
        EvenRound(t, a, left, right, r, i, length, res);
      }
      length := length / 2;
      i := i + 1;
    }
    ShlZero(i);
    if Laws(t) {
      FoldRangeIsFold(t.op, a, left, right + 1);
    }
  }

  ghost predicate Laws(t: Table)
  {
    Associative(t.op) && Commutative(t.op) && IsIdentity(t.op, t.dflt)
  }

  /** The fold of a[lo..hi) started from the default, which is the default
      itself for an empty range. */
  ghost function Suffix(t: Table, a: seq<int>, lo: nat, hi: nat): int
    requires lo <= hi <= |a|
  {
    if lo == hi then t.dflt else FoldRange(t.op, a, lo, hi)
  }

  /** The state between rounds of queryNoOverlap: the cursor r is length * 2^i
      past left, and res merges a[r..right] when the laws hold. */
  ghost predicate Round(t: Table, a: seq<int>, left: int, right: int, r: int, i: nat, length: int, res: int)
  {
    && length >= 0 && 0 <= left <= r <= right + 1 <= |a|
    && r - left == Shl(length, i)
    && (Laws(t) ==> res == Suffix(t, a, r, right + 1))
  }

  lemma OddRound(t: Table, a: seq<int>, left: int, right: int, r: int, i: nat, length: int, res: int)
    requires Valid(t, a) && right < t.n
    requires Round(t, a, left, right, r, i, length, res) && length % 2 == 1
    ensures 0 <= i < |t.value| && 0 <= r - Pow2(i) < t.n
    ensures Round(t, a, left, right, r - Pow2(i), i + 1, length / 2, t.op(res, t.value[i][r - Pow2(i)]))
  {
    ShlAtLeast(length, i);
    BlockInTable(t, a, left, right, r, i, length);
    TakeBlock(t, a, left, right, r, i, length, res, t.value[i][r - Pow2(i)]);
  }

  /** A round that merges the block x = fold of a[r - 2^i .. r) into res. */
  lemma TakeBlock(t: Table, a: seq<int>, left: int, right: int, r: int, i: nat, length: int, res: int, x: int)
    requires Round(t, a, left, right, r, i, length, res) && length % 2 == 1
    requires Pow2(i) <= r - left
    requires Associative(t.op) ==> x == FoldRange(t.op, a, r - Pow2(i), r)
    ensures Round(t, a, left, right, r - Pow2(i), i + 1, length / 2, t.op(res, x))
  {
    ShlStep(length, i);
    PrependBlock(t, a, r - Pow2(i), r, right + 1, res, x);
  }

  /** x << i */
  function Shl(x: nat, i: nat): nat
  {
    if i == 0 then x else 2 * Shl(x, i - 1)
  }

  /** One round of the cursor: x << i is (x >> 1) << (i + 1), plus the block
      2^i when the low bit of x is set. */
  lemma {:induction false} ShlStep(x: nat, i: nat)
    ensures Shl(x, i) == Shl(x / 2, i + 1) + (if x % 2 == 1 then Pow2(i) else 0)
  {
    if i > 0 {
      ShlStep(x, i - 1);
    }
  }

  lemma {:induction false} ShlAtLeast(x: nat, i: nat)
    requires x >= 1
    ensures Shl(x, i) >= Pow2(i)
  {
    if i > 0 {
      ShlAtLeast(x, i - 1);
    }
  }

  lemma {:induction false} ShlZero(i: nat)
    ensures Shl(0, i) == 0
  {
    if i > 0 {
      ShlZero(i - 1);
    }
  }

  /** Merging the block a[lo..mid) into the fold of a[mid..hi), for an
      associative, commutative op with identity dflt. */
  lemma PrependBlock(t: Table, a: seq<int>, lo: nat, mid: nat, hi: nat, res: int, x: int)
    requires lo < mid <= hi <= |a|
    requires Laws(t) ==> res == Suffix(t, a, mid, hi)
    requires Associative(t.op) ==> x == FoldRange(t.op, a, lo, mid)
    ensures Laws(t) ==> t.op(res, x) == Suffix(t, a, lo, hi)
  {
    var op := t.op;
    if !Laws(t) {
    } else if mid == hi {
      assert IdentityAt(op, t.dflt, x);
    } else {
      FoldRangeSplit(op, a, lo, mid, hi);
      assert CommAt(op, res, x);
    }
  }

  lemma EvenRound(t: Table, a: seq<int>, left: int, right: int, r: int, i: nat, length: int, res: int)
    requires Round(t, a, left, right, r, i, length, res) && length % 2 == 0
    ensures Round(t, a, left, right, r, i + 1, length / 2, res)
  {
    ShlStep(length, i);
  }

  /** The block of length 2^i ending at r exists in the table: level i exists
      and its window at r - 2^i is exactly a[r - 2^i .. r). */
  lemma BlockInTable(t: Table, a: seq<int>, left: int, right: int, r: int, i: nat, length: int)
    requires Valid(t, a) && 0 <= left <= right < t.n && left <= r <= right + 1
    requires length >= 1 && r - left == Shl(length, i)
    ensures Pow2(i) <= r - left
    ensures i < |t.value|
    ensures WindowEnd(r - Pow2(i), i, t.n) == r
    ensures Associative(t.op) ==> t.value[i][r - Pow2(i)] == FoldRange(t.op, a, r - Pow2(i), r)
  {
    ShlAtLeast(length, i);
    Pow2Log2(i);
    Log2Monotone(Pow2(i), t.n);
    var v := r - Pow2(i);
    assert 0 <= i < |t.value| && 0 <= v < t.n;
    if Associative(t.op) {
      TableHoldsWindows(t, a, i, v);
    }
  }

  lemma {:induction false} Pow2Log2(i: nat)
    ensures Log2(Pow2(i)) == i
  {
    if i > 0 {
      Pow2Log2(i - 1);
      assert Pow2(i) / 2 == Pow2(i - 1);
    }
  }

  //---------------------------------------------------------------------------
  // SparseTableMin

  const IntMax: int := 0x7fff_ffff

  function Min(x: int, y: int): int
  {
    if x <= y then x else y
  }

  lemma MinLaws()
    ensures Associative(Min) && Idempotent(Min) && Commutative(Min)
  {
    forall x, y, z ensures AssocAt(Min, x, y, z) {}
    forall x, y ensures CommAt(Min, x, y) {}
  }

  /** The fold of min is an element of the sequence and below all of them. */
  lemma {:induction false} FoldMin(s: seq<int>)
    requires |s| > 0
    ensures Fold(Min, s) in s
    ensures forall x :: x in s ==> Fold(Min, s) <= x
  {
    if |s| > 1 {
      FoldMin(s[..|s| - 1]);
      assert s == s[..|s| - 1] + [s[|s| - 1]];
    }
  }

  /** SparseTableMin(a, n): the table of `_init` with min as the merge. */
  method MinInit(a: seq<int>, n: nat) returns (t: Table)
    requires 1 <= n <= |a|
    ensures t.n == n && t.op == Min && t.dflt == IntMax
    ensures Valid(t, a[..n])
  {
    t := Init(a, n, Min, IntMax);
  }

  /** SparseTableMin::query: INT_MAX for an empty range, else min(a[left..right]). */
  method MinQuery(t: Table, ghost a: seq<int>, left: int, right: int) returns (res: int)
    requires Valid(t, a) && t.op == Min && t.dflt == IntMax
    requires left <= right ==> 0 <= left && right < t.n
    ensures right < left ==> res == IntMax
    ensures left <= right ==> res in a[left..right + 1]
    ensures left <= right ==> forall i :: left <= i <= right ==> res <= a[i]
  {
    MinLaws();
    res := Query(t, a, left, right);
    if left <= right {
      var s := a[left..right + 1];
      assert res == Fold(Min, s);
      FoldMin(s);
      forall i | left <= i <= right
        ensures res <= a[i]
      {
        assert a[i] == s[i - left];
        assert a[i] in s;
      }
    }
  }

  //---------------------------------------------------------------------------
  // SparseTableMinIndex

  /** i is the position of the minimum of vals[lo..hi), the rightmost one on ties. */
  ghost predicate RightmostMin(vals: seq<int>, lo: int, hi: int, i: int)
  {
    && 0 <= lo <= i < hi <= |vals|
    && (forall t :: lo <= t < hi ==> vals[i] <= vals[t])
    && (forall t :: i < t < hi ==> vals[i] < vals[t])
  }

  /** Picking with the strict `<` between the answers for [lo, a1) and [b0, hi),
      with b0 <= a1, answers [lo, hi): the left one only when strictly smaller. */
  lemma PickRightmost(vals: seq<int>, lo: int, a1: int, b0: int, hi: int, i1: int, i2: int)
    requires lo <= b0 <= a1 <= hi
    requires RightmostMin(vals, lo, a1, i1) && RightmostMin(vals, b0, hi, i2)
    ensures RightmostMin(vals, lo, hi, if vals[i1] < vals[i2] then i1 else i2)
  {
  }

  datatype IndexTable = IndexTable(n: nat, value: seq<seq<int>>, H: seq<nat>, vals: seq<int>)

  /** The state `build(a, n)` leaves: `in` is a copy of a[0..n), and level k,
      entry v is the rightmost minimum of the window a[v .. v + 2^k) cut at n. */
  ghost predicate ValidIndex(t: IndexTable)
  {
    && t.n >= 1 && |t.vals| == t.n
    && |t.H| == t.n + 1
    && (forall i :: 1 <= i <= t.n ==> t.H[i] == Log2(i))
    && |t.value| == Log2(t.n) + 1
    && (forall k :: 0 <= k < |t.value| ==> |t.value[k]| == t.n)
    && (forall k, v :: 0 <= k < |t.value| && 0 <= v < t.n ==>
          RightmostMin(t.vals, v, WindowEnd(v, k, t.n), t.value[k][v]))
  }

  method BuildIndexLevel(prev: seq<int>, k: nat, vals: seq<int>) returns (curr: seq<int>)
    requires k >= 1 && |prev| == |vals|
    requires forall v :: 0 <= v < |vals| ==> RightmostMin(vals, v, WindowEnd(v, k - 1, |vals|), prev[v])
    ensures |curr| == |vals|
    ensures forall v :: 0 <= v < |vals| ==> RightmostMin(vals, v, WindowEnd(v, k, |vals|), curr[v])
  {
    var n := |prev|;
    curr := seq(n, _ => 0);
    var v := 0;
    while v < n
      invariant 0 <= v <= n && |curr| == n
      invariant forall u :: 0 <= u < v ==> RightmostMin(vals, u, WindowEnd(u, k, n), curr[u])
    {
      var v2 := v + Pow2(k - 1);
      if v2 < n {
        assert WindowEnd(v, k, n) == WindowEnd(v2, k - 1, n);
        PickRightmost(vals, v, v2, v2, WindowEnd(v, k, n), prev[v], prev[v2]);
        if vals[prev[v]] < vals[prev[v2]] {
          curr := curr[v := prev[v]];
        } else {
          curr := curr[v := prev[v2]];
        }
      } else {
        curr := curr[v := prev[v]];
      }
      v := v + 1;
    }
  }

  /** SparseTableMinIndex::build(a, n). */
  method BuildIndex(a: seq<int>, n: nat) returns (t: IndexTable)
    requires 1 <= n <= |a|
    ensures t.n == n && t.vals == a[..n]
    ensures ValidIndex(t)
    ensures forall v :: 0 <= v < n ==> t.value[0][v] == v
  {
    var vals := a[..n];
    var H := FloorLogTable(n);
    var levels := H[n] + 1;
    var level0 := seq(n, v => v);
    var value := [level0];
    var i := 1;
    while i < levels
      invariant 1 <= i <= levels && |value| == i && value[0] == level0
      invariant forall k :: 0 <= k < i ==> |value[k]| == n
      invariant forall k, v :: 0 <= k < i && 0 <= v < n ==> RightmostMin(vals, v, WindowEnd(v, k, n), value[k][v])
    {
      var curr := BuildIndexLevel(value[i - 1], i, vals);
      value := value + [curr];
      i := i + 1;
    }
    t := IndexTable(n, value, H, vals);
  }

  /** SparseTableMinIndex::query, inclusive: `left` for an invalid range, else the
      position of the minimum of [left, right], the rightmost one on ties. */
  method IndexQuery(t: IndexTable, left: int, right: int) returns (res: int)
    requires ValidIndex(t)
    requires left <= right ==> 0 <= left && right < t.n
    ensures right < left ==> res == left
    ensures left <= right ==> RightmostMin(t.vals, left, right + 1, res)
  {
    var r := right + 1;
    if r <= left {
      return left;
    }
    var k := t.H[r - left];
    Log2Monotone(r - left, t.n);
    WindowsCover(r - left);
    var i1 := t.value[k][left];
    var i2 := t.value[k][r - Pow2(k)];
    assert WindowEnd(left, k, t.n) == left + Pow2(k);
    assert WindowEnd(r - Pow2(k), k, t.n) == r;
    PickRightmost(t.vals, left, left + Pow2(k), r - Pow2(k), r, i1, i2);
    if t.vals[i1] < t.vals[i2] {
      res := i1;
    } else {
      res := i2;
    }
  }
}
