/** The node layer of `SplayTreeRangeQuery`: nodes with a subtree size `cnt`, a
    subtree aggregate `rangeValue` and a pending assignment tag (`lazy` valid when
    `lazyExist`), and the `update`/`pushDown` helpers. */
module SplayCore {
  import opened Folds

  datatype Node = Node(cnt: int, value: int, rangeValue: int, lazy: int, lazyExist: bool)

  datatype Tree = Nil | Br(left: Tree, node: Node, right: Tree)

  /** mergeOp, blockOp and defaultValue. */
  datatype Ops = Ops(merge: (int, int) -> int, block: (int, int) -> int, dflt: int)

  function Size(t: Tree): nat
  {
    match t
    case Nil => 0
    case Br(l, _, r) => Size(l) + 1 + Size(r)
  }

  /** `x ? x->cnt : 0` */
  function Cnt(t: Tree): int
  {
    if t.Nil? then 0 else t.node.cnt
  }

  /** The in-order sequence the tree stands for: a tagged node stands for its
      whole subtree filled with the tag, whatever lies below it. */
  function Abs(t: Tree): (s: seq<int>)
    ensures |s| == Size(t)
  {
    match t
    case Nil => []
    case Br(l, n, r) =>
      if n.lazyExist then seq(Size(t), _ => n.lazy) else Abs(l) + [n.value] + Abs(r)
  }

  /** Sizes are exact at every node, and a tagged node already holds its tag as
      its value; both hold below pending tags too. */
  ghost predicate Shape(t: Tree)
  {
    match t
    case Nil => true
    case Br(l, n, r) =>
      && n.cnt == Size(t)
      && (n.lazyExist ==> n.value == n.lazy)
      && Shape(l) && Shape(r)
  }

  /** Shape below the root: the root's own cnt may be stale, as it is right
      after insert creates a node without setting its count. */
  ghost predicate Loose(t: Tree)
  {
    t.Br? ==> Shape(t.left) && Shape(t.right) && (t.node.lazyExist ==> t.node.value == t.node.lazy)
  }

  /** updateValue: value, then the left aggregate, then the right one. */
  function Combine(o: Ops, v: int, l: Tree, r: Tree): int
  {
    var x := if l.Br? then o.merge(v, l.node.rangeValue) else v;
    if r.Br? then o.merge(x, r.node.rangeValue) else x
  }

  /** Aggregates are what `update` would store: blockOp(lazy, cnt) at a tagged
      node, Combine of the children elsewhere; nothing is asked below a tag. */
  ghost predicate Aggs(o: Ops, t: Tree)
  {
    match t
    case Nil => true
    case Br(l, n, r) =>
      if n.lazyExist then n.rangeValue == o.block(n.lazy, n.cnt)
      else n.rangeValue == Combine(o, n.value, l, r) && Aggs(o, l) && Aggs(o, r)
  }

  ghost predicate Good(o: Ops, t: Tree)
  {
    Shape(t) && Aggs(o, t)
  }

  /** update(x): updateCnt then updateValue, from the children as they are. */
  function UpdateNode(o: Ops, l: Tree, n: Node, r: Tree): (t: Tree)
    ensures t.Br? && t.left == l && t.right == r
    ensures t.node.value == n.value && t.node.lazyExist == n.lazyExist && t.node.lazy == n.lazy
    ensures Shape(l) && Shape(r) && (n.lazyExist ==> n.value == n.lazy) ==> Shape(t)
    ensures !n.lazyExist && Aggs(o, l) && Aggs(o, r) ==> Aggs(o, t)
    ensures !n.lazyExist ==> Abs(t) == Abs(l) + [n.value] + Abs(r)
  {
    Br(l, n.(cnt := 1 + Cnt(l) + Cnt(r), rangeValue := Combine(o, n.value, l, r)), r)
  }

  /** What pushDown does to each child, and range update to the interval node:
      tag it with v and set its aggregate to blockOp(v, cnt). */
  function Tag(o: Ops, t: Tree, v: int): (r: Tree)
    ensures Size(r) == Size(t) && Abs(r) == seq(Size(t), _ => v)
    ensures Shape(t) ==> Shape(r)
    ensures Loose(t) ==> Loose(r)
    ensures Aggs(o, r)
    ensures r.Br? ==> r.node.lazyExist && r.node.cnt == t.node.cnt
  {
    match t
    case Nil => Nil
    case Br(l, c, rt) =>
      Br(l, c.(lazyExist := true, value := v, lazy := v, rangeValue := o.block(v, c.cnt)), rt)
  }

  //---------------------------------------------------------------------------
  // The laws under which aggregates mean folds

  ghost predicate BlockAt(o: Ops, v: int, k: int)
  {
    k >= 1 ==> o.block(v, k) == Fold(o.merge, seq(k, _ => v))
  }

  /** mergeOp is associative and commutative, and blockOp(v, k) is v merged k times. */
  ghost predicate Laws(o: Ops)
  {
    && Associative(o.merge) && Commutative(o.merge)
    && (forall v, k :: BlockAt(o, v, k))
  }

  /** Folding L, v, R in order equals what updateValue computes from v and the
      folds of L and R, for an associative, commutative merge. */
  lemma MergeAround(o: Ops, L: seq<int>, v: int, R: seq<int>)
    requires Associative(o.merge) && Commutative(o.merge)
    ensures Fold(o.merge, L + [v] + R)
            == (var x := if |L| > 0 then o.merge(v, Fold(o.merge, L)) else v;
                if |R| > 0 then o.merge(x, Fold(o.merge, R)) else x)
  {
    var m := o.merge;
    var x := if |L| > 0 then m(v, Fold(m, L)) else v;
    if |L| > 0 {
      FoldAppend(m, L, [v]);
      assert Fold(m, [v]) == v;
      assert CommAt(m, Fold(m, L), v);
    } else {
      assert L + [v] == [v];
    }
    assert Fold(m, L + [v]) == x;
    if |R| > 0 {
      FoldAppend(m, L + [v], R);
    } else {
      assert L + [v] + R == L + [v];
    }
  }

  lemma RepeatSplit(a: nat, v: int, b: nat)
    ensures seq(a + 1 + b, _ => v) == seq(a, _ => v) + [v] + seq(b, _ => v)
  {
  }

  /** blockOp(v, a + 1 + b) splits the way updateValue combines a node with
      two tagged children of sizes a and b. */
  lemma BlockSplit(o: Ops, v: int, a: nat, b: nat)
    requires Associative(o.merge) && Commutative(o.merge)
    requires BlockAt(o, v, a + 1 + b) && BlockAt(o, v, a) && BlockAt(o, v, b)
    ensures o.block(v, a + 1 + b)
            == (var x := if a > 0 then o.merge(v, o.block(v, a)) else v;
                if b > 0 then o.merge(x, o.block(v, b)) else x)
  {
    RepeatSplit(a, v, b);
    MergeAround(o, seq(a, _ => v), v, seq(b, _ => v));
  }

  /** A tagged node's aggregate blockOp(v, cnt) equals what updateValue computes
      once the tag has moved to its children. */
  lemma BlockAround(o: Ops, v: int, l: Tree, r: Tree)
    requires Laws(o) && Shape(l) && Shape(r)
    ensures o.block(v, 1 + Size(l) + Size(r)) == Combine(o, v, Tag(o, l, v), Tag(o, r, v))
  {
    var a, b := Size(l), Size(r);
    assert BlockAt(o, v, a + 1 + b) && BlockAt(o, v, a) && BlockAt(o, v, b);
    BlockSplit(o, v, a, b);
    TagAgg(o, l, v);
    TagAgg(o, r, v);
    assert 1 + a + b == a + 1 + b;
  }

  /** Tagging a sized subtree gives it the aggregate blockOp(v, size). */
  lemma TagAgg(o: Ops, t: Tree, v: int)
    requires Shape(t)
    ensures Tag(o, t, v).Br? == t.Br? == (Size(t) > 0)
    ensures t.Br? ==> Tag(o, t, v).node.rangeValue == o.block(v, Size(t))
  {
  }

  /** Under the laws, every aggregate the invariant asks for is the fold of the
      subtree's in-order sequence. */
  lemma {:induction false} AggIsFold(o: Ops, t: Tree)
    requires Laws(o) && Good(o, t) && t.Br?
    ensures t.node.rangeValue == Fold(o.merge, Abs(t))
  {
    var n := t.node;
    if n.lazyExist {
      assert BlockAt(o, n.lazy, n.cnt);
    } else {
      if t.left.Br? {
        AggIsFold(o, t.left);
      }
      if t.right.Br? {
        AggIsFold(o, t.right);
      }
      MergeAround(o, Abs(t.left), n.value, Abs(t.right));
    }
  }

  //---------------------------------------------------------------------------
  // pushDown

  /** pushDown(x): a tagged node hands its tag to both children and forgets it. */
  function PushDown(o: Ops, t: Tree): (r: Tree)
    ensures !(t.Br? && t.node.lazyExist) ==> r == t
    ensures Size(r) == Size(t) && (r.Br? ==> !r.node.lazyExist && r.node.value == t.node.value)
    ensures Loose(t) ==> Loose(r) && Abs(r) == Abs(t)
    ensures Shape(t) ==> Shape(r)
    ensures Aggs(o, t) && r.Br? ==> Aggs(o, r.left) && Aggs(o, r.right)
    ensures Laws(o) && Good(o, t) ==> Good(o, r)
  {
    match t
    case Nil => Nil
    case Br(l, n, rt) =>
      if !n.lazyExist then t
      else
        var r := Br(Tag(o, l, n.lazy), n.(lazy := o.dflt, lazyExist := false), Tag(o, rt, n.lazy));
        assert Loose(t) ==> Abs(r) == Abs(t) by {
          if Loose(t) {
            RepeatSplit(Size(l), n.lazy, Size(rt));
          }
        }
        assert Laws(o) && Good(o, t) ==> Aggs(o, r) by {
          if Laws(o) && Good(o, t) {
            BlockAround(o, n.lazy, l, rt);
          }
        }
        r
  }

  /** A second pushDown changes nothing. */
  lemma PushDownTwice(o: Ops, t: Tree)
    ensures PushDown(o, PushDown(o, t)) == PushDown(o, t)
  {
  }
}
