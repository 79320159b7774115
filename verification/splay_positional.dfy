/** Positional mode of `SplayTreeRangeQuery`: elements addressed by in-order
    rank, with range aggregate queries and range assignment. The reference model
    is the in-order sequence `Abs(tree)`, a plain array of values. */
module SplayPositional {
  import opened Folds
  import opened SplayCore
  import opened SplayZip
  import opened Optional

  /** The structure's state: the root `tree` and the node counter `count`. */
  datatype RangeTree = RangeTree(tree: Tree, count: int)

  /** The counter agrees with the tree, and every count below the root is exact. */
  ghost predicate Wf(s: RangeTree)
  {
    Loose(s.tree) && s.count == Size(s.tree)
  }

  //---------------------------------------------------------------------------
  // operator[]

  /** The aggregates a descent keeps: the subtree still to be entered and every
      sibling left behind on the path. */
  ghost predicate AggsAbove(o: Ops, z: Zip)
  {
    Aggs(o, z.focus) && SiblingsAggs(o, z.path)
  }

  /** The descent of operator[]: push the tag of every visited node down, go
      left while the left subtree holds more than nth elements, stop when nth
      has run out, go right otherwise. */
  function Descend(o: Ops, z: Zip, nth: nat): (r: Zip)
    requires z.focus.Br? && Loose(z.focus) && nth < Size(z.focus) && PathClean(z.path)
    ensures r.focus.Br? && !r.focus.node.lazyExist && PathClean(r.path)
    ensures Abs(Plug(r.focus, r.path)) == Abs(Plug(z.focus, z.path))
    ensures Rank(r) == |PathLeft(z.path)| + nth
    ensures |r.path| >= |z.path|
    ensures |r.path| == |z.path| ==> r.focus == PushDown(o, z.focus)
    ensures SiblingsShape(z.path) ==> ZipShape(r)
    ensures AggsAbove(o, z) ==> ZipAggs(o, r)
    decreases Size(z.focus)
  {
    var x := PushDown(o, z.focus);
    PlugCongruence(x, z.focus, z.path);
    if x.left.Br? && x.left.node.cnt > nth then
      var f := LeftOf(x.node, x.right);
      var z' := Zip(x.left, [f] + z.path);
      DescendStep(o, z.path, x, f, z');
      Descend(o, z', nth)
    else
      var m := nth - Size(x.left);
      if m == 0 then
        Zip(x, z.path)
      else
        var f := RightOf(x.left, x.node);
        var z' := Zip(x.right, [f] + z.path);
        DescendStep(o, z.path, x, f, z');
        Descend(o, z', m - 1)
  }

  ghost predicate SiblingsShape(path: seq<Frame>)
  {
    forall i :: 0 <= i < |path| ==> Shape(path[i].sibling)
  }

  ghost predicate SiblingsAggs(o: Ops, path: seq<Frame>)
  {
    forall i :: 0 <= i < |path| ==> Aggs(o, path[i].sibling)
  }

  /** One step of the descent from a pushed node x keeps the zipper's invariants. */
  lemma DescendStep(o: Ops, path: seq<Frame>, x: Tree, f: Frame, z': Zip)
    requires x.Br? && !x.node.lazyExist && Loose(x) && PathClean(path)
    requires f == LeftOf(x.node, x.right) || f == RightOf(x.left, x.node)
    requires z' == Zip(if f.LeftOf? then x.left else x.right, [f] + path)
    ensures PathClean(z'.path) && Loose(z'.focus)
    ensures Plug(z'.focus, z'.path) == Plug(x, path)
    ensures f.LeftOf? ==> |PathLeft(z'.path)| == |PathLeft(path)|
    ensures f.RightOf? ==> |PathLeft(z'.path)| == |PathLeft(path)| + Size(x.left) + 1
    ensures SiblingsShape(path) ==> ZipShape(z')
    ensures SiblingsAggs(o, path) && Aggs(o, x.left) && Aggs(o, x.right) ==> AggsAbove(o, z')
  {
    ConsFrame(f, path, z'.path);
    assert Attach(z'.focus, f) == x;
    if f.LeftOf? {
      assert PathLeft(z'.path) == PathLeft(path);
    } else {
      assert PathLeft(z'.path) == PathLeft(path) + Abs(x.left) + [x.node.value];
    }
  }

  /** Pushing a frame of a clean node onto a path: the parts of the new path. */
  lemma ConsFrame(f: Frame, path: seq<Frame>, path': seq<Frame>)
    requires path' == [f] + path && PathClean(path) && !f.up.lazyExist
    ensures PathClean(path') && path'[1..] == path
    ensures SiblingsShape(path) && Shape(f.sibling) ==> SiblingsShape(path')
    ensures forall o: Ops :: SiblingsAggs(o, path) && Aggs(o, f.sibling) ==> SiblingsAggs(o, path')
  {
    assert forall i :: 1 <= i < |path'| ==> path'[i] == path[i - 1];
  }

  /** operator[](nth): null outside [0, count); otherwise the node of in-order
      rank nth, pushed clean and splayed to the root. Only the guard reads
      `count`; the descent reads the children's counts. */
  function Select(o: Ops, s: RangeTree, nth: int): (r: Option<RangeTree>)
    requires Loose(s.tree) && (0 <= nth < s.count ==> nth < Size(s.tree))
    ensures r.None? <==> !(0 <= nth < s.count)
    ensures r.Some? ==> r.value.count == s.count && Selected(s.tree, r.value.tree, nth)
    ensures r.Some? && Shape(s.tree) ==> Shape(r.value.tree)
    ensures r.Some? && Laws(o) && Good(o, s.tree) ==> Good(o, r.value.tree)
  {
    if nth < 0 || nth >= s.count then None
    else
      var d := Descend(o, Zip(s.tree, []), nth);
      var t := Splay(o, d);
      SplayKeepsShape(o, d);
      SplayKeepsAggs(o, d);
      assert Abs(t) == Abs(s.tree);
      assert Abs(t) == Abs(t.left) + [t.node.value] + Abs(t.right);
      Some(RangeTree(t, s.count))
  }

  /** t is s rearranged with the element of rank nth at an untagged root. */
  ghost predicate Selected(s: Tree, t: Tree, nth: int)
  {
    && t.Br? && !t.node.lazyExist && Loose(t)
    && Abs(t) == Abs(s) && Size(t.left) == nth
    && 0 <= nth < |Abs(s)| && t.node.value == Abs(s)[nth]
  }

  //---------------------------------------------------------------------------
  // indexOf

  /** The climb of indexOf: one plus the left count at every ancestor reached
      from its right child. */
  function Climb(path: seq<Frame>): (r: int)
    ensures (forall i :: 0 <= i < |path| ==> Shape(path[i].sibling)) ==> r == |PathLeft(path)|
    decreases |path|
  {
    if |path| == 0 then 0
    else
      var rest := Climb(path[1..]);
      assert (forall i :: 0 <= i < |path| ==> Shape(path[i].sibling)) ==>
             (forall i :: 0 <= i < |path| - 1 ==> Shape(path[1..][i].sibling));
      match path[0]
      case LeftOf(_, _) => rest
      case RightOf(s, _) => rest + 1 + Cnt(s)
  }

  /** indexOf(p): -1 for null, otherwise the in-order rank of p. */
  function IndexOf(z: Zip): (r: int)
    ensures z.focus.Nil? ==> r == -1
    ensures z.focus.Br? && ZipShape(z) ==> r == Rank(z)
  {
    if z.focus.Nil? then -1 else Cnt(z.focus.left) + Climb(z.path)
  }

  /** The node operator[](nth) returns sits at rank nth. */
  lemma SelectIndexOf(o: Ops, s: RangeTree, nth: int)
    requires Wf(s) && 0 <= nth < s.count
    ensures IndexOf(Zip(Select(o, s, nth).value.tree, [])) == nth
  {
  }

  //---------------------------------------------------------------------------
  // build

  /** Every node's left child is empty: the tree is a chain to the right. */
  predicate RightChain(t: Tree)
  {
    t.Nil? || (t.left.Nil? && RightChain(t.right))
  }

  /** merge(A[0], merge(A[1], ... A[n-1])): the aggregate build leaves at the root. */
  function FoldRight(m: (int, int) -> int, a: seq<int>): int
    requires |a| >= 1
    decreases |a|
  {
    if |a| == 1 then a[0] else m(a[0], FoldRight(m, a[1..]))
  }

  /** Putting A[i] in front of the chain holding A[i + 1..] gives the chain
      holding A[i..], with its count and aggregate right. */
  lemma BuildStep(o: Ops, A: seq<int>, i: nat, t: Tree)
    requires i < |A| && Abs(t) == A[i + 1..] && Good(o, t) && RightChain(t)
    requires t.Br? <==> i + 1 < |A|
    requires t.Br? ==> t.node.rangeValue == FoldRight(o.merge, A[i + 1..])
    ensures var u := Br(Nil, Node(|A| - i, A[i], Combine(o, A[i], Nil, t), o.dflt, false), t);
      Abs(u) == A[i..] && Good(o, u) && RightChain(u) && u.node.rangeValue == FoldRight(o.merge, A[i..])
  {
    assert A[i..] == [A[i]] + A[i + 1..];
    assert A[i..][1..] == A[i + 1..];
  }

  /** build(A, n), n >= 1: node i holds A[i] with cnt n - i, each the right child
      of the one before; the second loop climbs back from the last node merging
      each value with its right child's aggregate. Every created node adds one to
      `count`, and the old tree is dropped. */
  method Build(o: Ops, s: RangeTree, A: seq<int>) returns (r: RangeTree)
    requires |A| >= 1
    ensures r.count == s.count + |A|
    ensures r.tree.Br? && Abs(r.tree) == A && RightChain(r.tree)
    ensures Good(o, r.tree)
    ensures r.tree.node.rangeValue == FoldRight(o.merge, A)
    ensures Laws(o) ==> r.tree.node.rangeValue == Fold(o.merge, A)
  {
    var t := Nil;
    var i := |A|;
    while i > 0
      invariant 0 <= i <= |A|
      invariant Abs(t) == A[i..] && Good(o, t) && RightChain(t)
      invariant t.Br? <==> i < |A|
      invariant t.Br? ==> t.node.rangeValue == FoldRight(o.merge, A[i..])
    {
      i := i - 1;
      BuildStep(o, A, i, t);
      t := Br(Nil, Node(|A| - i, A[i], Combine(o, A[i], Nil, t), o.dflt, false), t);
    }
    r := RangeTree(t, s.count + |A|);
    if Laws(o) {
      AggIsFold(o, t);
    }
  }

  //---------------------------------------------------------------------------
  // interval

  /** A tree together with the position of one of its subtrees. */
  datatype Located = Located(s: RangeTree, at: Zip)

  /** What interval promises: the structure reads the same, and the located
      subtree sits under a clean path, holding exactly ranks l..r. */
  ghost predicate Locates(o: Ops, s: RangeTree, l: int, r: int, res: Located)
    requires 0 <= l <= r < |Abs(s.tree)|
  {
    && res.s.count == s.count && Wf(res.s) && Abs(res.s.tree) == Abs(s.tree)
    && res.at.focus.Br? && PathClean(res.at.path) && Plug(res.at.focus, res.at.path) == res.s.tree
    && |PathLeft(res.at.path)| == l && Abs(res.at.focus) == Abs(s.tree)[l..r + 1]
    && (Shape(s.tree) ==> Shape(res.s.tree))
    && (Laws(o) && Good(o, s.tree) ==> Good(o, res.s.tree))
  }

  /** interval(l, r), 0 <= l <= r < count: splay the neighbours of the range so
      that one subtree holds exactly ranks l..r. */
  function Interval(o: Ops, s: RangeTree, l: int, r: int): (res: Located)
    requires Wf(s) && 0 <= l <= r < s.count
    ensures Locates(o, s, l, r, res)
  {
    if l == 0 then
      if r == s.count - 1 then
        assert Abs(s.tree)[0..r + 1] == Abs(s.tree);
        Located(s, Zip(s.tree, []))
      else
        IntervalPrefix(o, s, r)
    else if r == s.count - 1 then
      IntervalSuffix(o, s, l)
    else
      IntervalMiddle(o, s, l, r)
  }

  lemma PartsOf(a: seq<int>, v: int, b: seq<int>)
    ensures (a + [v] + b)[..|a|] == a
    ensures (a + [v] + b)[|a| + 1..] == b
  {
  }

  lemma SuffixOf(s: seq<int>, a: seq<int>, v: int, b: seq<int>)
    requires s == a + [v] + b
    ensures s[|a| + 1..|s|] == b
  {
  }

  lemma PlugOne(t: Tree, f: Frame)
    ensures Plug(t, [f]) == Attach(t, f)
  {
  }

  lemma MiddleOf(s: seq<int>, a: seq<int>, v: int, b: seq<int>, w: int, c: seq<int>, l: int, r: int)
    requires s == a + [v] + (b + [w] + c) && l == |a| + 1 && r + 1 == l + |b|
    ensures s[l..r + 1] == b
  {
  }

  /** interval(0, r), r < count - 1: splay rank r + 1; its left subtree. */
  function IntervalPrefix(o: Ops, s: RangeTree, r: int): (res: Located)
    requires Wf(s) && 0 <= r < s.count - 1
    ensures Locates(o, s, 0, r, res)
  {
    var t := Select(o, s, r + 1).value.tree;
    assert Abs(t) == Abs(t.left) + [t.node.value] + Abs(t.right);
    PartsOf(Abs(t.left), t.node.value, Abs(t.right));
    Located(RangeTree(t, s.count), Zip(t.left, [LeftOf(t.node, t.right)]))
  }

  /** interval(l, count - 1), l > 0: splay rank l - 1; its right subtree. */
  function IntervalSuffix(o: Ops, s: RangeTree, l: int): (res: Located)
    requires Wf(s) && 0 < l < s.count
    ensures Locates(o, s, l, s.count - 1, res)
  {
    var t := Select(o, s, l - 1).value.tree;
    assert Abs(t) == Abs(t.left) + [t.node.value] + Abs(t.right);
    SuffixOf(Abs(s.tree), Abs(t.left), t.node.value, Abs(t.right));
    var path := [RightOf(t.left, t.node)];
    assert PathLeft(path) == Abs(t.left) + [t.node.value];
    PlugOne(t.right, path[0]);
    Located(RangeTree(t, s.count), Zip(t.right, path))
  }

  /** interval(l, r), 0 < l <= r < count - 1: splay rank l - 1 to the root x;
      splay rank r - l + 1 of x's right subtree on its own, as a tree, while
      `count` still holds the global count; hang it back under x without
      updating x; the left subtree of the new right child. */
  function IntervalMiddle(o: Ops, s: RangeTree, l: int, r: int): (res: Located)
    requires Wf(s) && 0 < l <= r < s.count - 1
    ensures Locates(o, s, l, r, res)
  {
    var x := Select(o, s, l - 1).value.tree;
    SplitRoot(x);
    var y := Select(o, RangeTree(x.right, s.count), r - l + 1).value.tree;
    var path := [LeftOf(y.node, y.right), RightOf(x.left, x.node)];
    MiddleLocates(o, s, l, r, x, y, path);
    Located(RangeTree(Br(x.left, x.node, y), s.count), Zip(y.left, path))
  }

  /** The middle case once both splays are done: x holds rank l - 1 at the
      root of the whole tree, y holds rank r - l + 1 at the root of what was
      x's right subtree. */
  lemma MiddleLocates(o: Ops, s: RangeTree, l: int, r: int, x: Tree, y: Tree, path: seq<Frame>)
    requires Wf(s) && 0 < l <= r < s.count - 1
    requires Selected(s.tree, x, l - 1) && (Shape(s.tree) ==> Shape(x))
    requires Laws(o) && Good(o, s.tree) ==> Good(o, x)
    requires Selected(x.right, y, r - l + 1) && (Shape(x.right) ==> Shape(y))
    requires Laws(o) && Good(o, x.right) ==> Good(o, y)
    requires path == [LeftOf(y.node, y.right), RightOf(x.left, x.node)]
    ensures Locates(o, s, l, r, Located(RangeTree(Br(x.left, x.node, y), s.count), Zip(y.left, path)))
  {
    SplitRoot(x);
    SplitRoot(y);
    HangBack(o, x, y);
    MiddleOf(Abs(s.tree), Abs(x.left), x.node.value, Abs(y.left), y.node.value, Abs(y.right), l, r);
    MiddlePath(x, y, path);
  }

  /** An untagged root splits its reading at itself. */
  lemma SplitRoot(t: Tree)
    requires t.Br? && !t.node.lazyExist
    ensures Abs(t) == Abs(t.left) + [t.node.value] + Abs(t.right)
    ensures Size(t) == Size(t.left) + 1 + Size(t.right)
  {
  }

  /** Hanging a rearranged right subtree back under an untagged root that is not
      updated keeps the root's size and reading, and, under the laws, its
      aggregate, since the new subtree folds to the same value. */
  lemma HangBack(o: Ops, x: Tree, y: Tree)
    requires x.Br? && !x.node.lazyExist && Loose(x) && Abs(y) == Abs(x.right)
    requires y.Br? && Loose(y) && (Shape(x.right) ==> Shape(y))
    requires Laws(o) && Good(o, x.right) ==> Good(o, y)
    ensures Abs(Br(x.left, x.node, y)) == Abs(x) && Loose(Br(x.left, x.node, y))
    ensures Shape(x) ==> Shape(Br(x.left, x.node, y))
    ensures Laws(o) && Good(o, x) ==> Good(o, Br(x.left, x.node, y))
  {
    if Laws(o) && Good(o, x) {
      AggIsFold(o, x.right);
      AggIsFold(o, y);
    }
  }

  lemma MiddlePath(x: Tree, y: Tree, path: seq<Frame>)
    requires x.Br? && y.Br? && !x.node.lazyExist && !y.node.lazyExist
    requires path == [LeftOf(y.node, y.right), RightOf(x.left, x.node)]
    ensures PathClean(path) && Plug(y.left, path) == Br(x.left, x.node, y)
    ensures |PathLeft(path)| == Size(x.left) + 1
  {
    assert path[1..] == [RightOf(x.left, x.node)];
    assert PathLeft(path) == PathLeft(path[1..]);
    assert Plug(y.left, path) == Plug(y, path[1..]);
  }

  //---------------------------------------------------------------------------
  // range update and range query

  /** The guard shared by the range operations: an empty structure, an empty
      range, or a range entirely outside [0, count). */
  predicate OutOfRange(s: RangeTree, l: int, r: int)
  {
    s.count <= 0 || l > r || r < 0 || l >= s.count
  }

  function Max(a: int, b: int): int { if a < b then b else a }

  function Min(a: int, b: int): int { if a < b then a else b }

  /** The array model of a range assignment: positions l..r, as far as they
      lie inside a, become v. */
  function AssignRange(a: seq<int>, l: int, r: int, v: int): (b: seq<int>)
  {
    seq(|a|, i requires 0 <= i < |a| => if l <= i <= r then v else a[i])
  }

  /** The climb of update(l, r, v): every ancestor recomputes its aggregate
      with updateValue, nearest first; counts are left alone. */
  function Reroot(o: Ops, t: Tree, path: seq<Frame>): (r: Tree)
    decreases |path|
  {
    if |path| == 0 then t
    else
      var up := Attach(t, path[0]);
      Reroot(o, Br(up.left, up.node.(rangeValue := Combine(o, up.node.value, up.left, up.right)), up.right), path[1..])
  }

  /** Recomputing aggregates on the way up changes no element. */
  lemma {:induction false} RerootAbs(o: Ops, t: Tree, path: seq<Frame>)
    requires PathClean(path)
    ensures Abs(Reroot(o, t, path)) == Abs(Plug(t, path))
    decreases |path|
  {
    if |path| > 0 {
      var up := Attach(t, path[0]);
      var up' := Br(up.left, up.node.(rangeValue := Combine(o, up.node.value, up.left, up.right)), up.right);
      PathCleanTail(path);
      RerootAbs(o, up', path[1..]);
      assert !path[0].up.lazyExist;
      assert Abs(up') == Abs(up);
      PlugCongruence(up', up, path[1..]);
      assert Plug(t, path) == Plug(up, path[1..]);
    }
  }

  /** Every subtree of a tree with exact counts has exact counts; below the root
      that holds already when only the root's own count may be stale. */
  lemma {:induction false} PlugShape(t: Tree, path: seq<Frame>)
    ensures Shape(Plug(t, path)) ==> Shape(t)
    ensures |path| >= 1 && Loose(Plug(t, path)) ==> Shape(t)
    decreases |path|
  {
    if |path| > 0 {
      var up := Attach(t, path[0]);
      assert Plug(t, path) == Plug(up, path[1..]);
      PlugShape(up, path[1..]);
    }
  }

  /** Below a clean path, every aggregate the invariant asks for is in place. */
  lemma {:induction false} PlugAggs(o: Ops, t: Tree, path: seq<Frame>)
    requires PathClean(path)
    ensures Aggs(o, Plug(t, path)) ==> Aggs(o, t)
    decreases |path|
  {
    if |path| > 0 {
      var up := Attach(t, path[0]);
      assert Plug(t, path) == Plug(up, path[1..]);
      PathCleanTail(path);
      PlugAggs(o, up, path[1..]);
      assert !path[0].up.lazyExist;
    }
  }

  /** Putting a subtree of the same size with exact counts in place of u and
      climbing keeps the counts exact (the root's own count as it was). */
  lemma {:induction false} RerootShape(o: Ops, t: Tree, u: Tree, path: seq<Frame>)
    requires PathClean(path) && Shape(t) && Size(t) == Size(u)
    ensures Shape(Plug(u, path)) ==> Shape(Reroot(o, t, path))
    ensures |path| >= 1 && Loose(Plug(u, path)) ==> Loose(Reroot(o, t, path))
    decreases |path|
  {
    if |path| > 0 {
      var f := path[0];
      var u' := Attach(u, f);
      var up := Attach(t, f);
      var t' := Br(up.left, up.node.(rangeValue := Combine(o, up.node.value, up.left, up.right)), up.right);
      var rest := path[1..];
      assert Plug(u, path) == Plug(u', rest);
      assert !f.up.lazyExist;
      PathCleanTail(path);
      PlugShape(u', rest);
      if |rest| == 0 {
        assert Reroot(o, t, path) == t';
      } else if Shape(u') {
        RerootShape(o, t', u', rest);
      }
    }
  }

  /** Putting a subtree whose aggregates are in place at u and climbing puts
      every aggregate on the path back in place. */
  lemma {:induction false} RerootAggs(o: Ops, t: Tree, u: Tree, path: seq<Frame>)
    requires PathClean(path) && Aggs(o, t)
    ensures Aggs(o, Plug(u, path)) ==> Aggs(o, Reroot(o, t, path))
    decreases |path|
  {
    if |path| > 0 {
      var f := path[0];
      var u' := Attach(u, f);
      var up := Attach(t, f);
      var t' := Br(up.left, up.node.(rangeValue := Combine(o, up.node.value, up.left, up.right)), up.right);
      var rest := path[1..];
      assert Plug(u, path) == Plug(u', rest);
      assert !f.up.lazyExist;
      PathCleanTail(path);
      PlugAggs(o, u', rest);
      if Aggs(o, u') {
        RerootAggs(o, t', u', rest);
      }
    }
  }

  /** update(l, r, v): nothing under the guard; otherwise clamp the range, tag
      the interval's subtree with v and blockOp(v, cnt), and climb. */
  function Update(o: Ops, s: RangeTree, l: int, r: int, v: int): (res: RangeTree)
    requires Wf(s)
    ensures OutOfRange(s, l, r) ==> res == s
    ensures res.count == s.count && Wf(res)
    ensures Abs(res.tree) == AssignRange(Abs(s.tree), l, r, v)
    ensures Shape(s.tree) ==> Shape(res.tree)
    ensures Laws(o) && Good(o, s.tree) ==> Good(o, res.tree)
  {
    if OutOfRange(s, l, r) then
      assert AssignRange(Abs(s.tree), l, r, v) == Abs(s.tree);
      s
    else
      var lo, hi := Max(0, l), Min(s.count - 1, r);
      var loc := Interval(o, s, lo, hi);
      var x := Tag(o, loc.at.focus, v);
      UpdateAbs(o, s, l, r, v, loc);
      UpdateKeeps(o, s, lo, hi, v, loc);
      RangeTree(Reroot(o, x, loc.at.path), s.count)
  }

  lemma UpdateAbs(o: Ops, s: RangeTree, l: int, r: int, v: int, loc: Located)
    requires Wf(s) && !OutOfRange(s, l, r)
    requires Locates(o, s, Max(0, l), Min(s.count - 1, r), loc)
    ensures Abs(Reroot(o, Tag(o, loc.at.focus, v), loc.at.path)) == AssignRange(Abs(s.tree), l, r, v)
  {
    var x := Tag(o, loc.at.focus, v);
    var path := loc.at.path;
    RerootAbs(o, x, path);
    PlugAbs(x, path);
    PlugAbs(loc.at.focus, path);
    AssignSplice(Abs(s.tree), PathLeft(path), Abs(loc.at.focus), Abs(x), PathRight(path), l, r, v);
  }

  /** Splicing a run of v over the middle part of a is the array assignment. */
  lemma AssignSplice(a: seq<int>, L: seq<int>, M: seq<int>, V: seq<int>, R: seq<int>, l: int, r: int, v: int)
    requires a == L + M + R && |V| == |M| && forall i :: 0 <= i < |V| ==> V[i] == v
    requires |L| == Max(0, l) && |L| + |M| == Min(|a| - 1, r) + 1
    ensures L + V + R == AssignRange(a, l, r, v)
  {
    var b := L + V + R;
    assert |b| == |a|;
    forall i | 0 <= i < |a|
      ensures b[i] == AssignRange(a, l, r, v)[i]
    {
      if i < |L| {
        assert b[i] == L[i] == a[i];
      } else if i < |L| + |M| {
        assert b[i] == V[i - |L|];
      } else {
        assert b[i] == R[i - |L| - |M|] == a[i];
      }
    }
  }

  lemma UpdateKeeps(o: Ops, s: RangeTree, lo: int, hi: int, v: int, loc: Located)
    requires Wf(s) && 0 <= lo <= hi < s.count
    requires Locates(o, s, lo, hi, loc)
    ensures Loose(Reroot(o, Tag(o, loc.at.focus, v), loc.at.path))
    ensures Size(Reroot(o, Tag(o, loc.at.focus, v), loc.at.path)) == s.count
    ensures Shape(s.tree) ==> Shape(Reroot(o, Tag(o, loc.at.focus, v), loc.at.path))
    ensures Laws(o) && Good(o, s.tree) ==> Good(o, Reroot(o, Tag(o, loc.at.focus, v), loc.at.path))
  {
    var u := loc.at.focus;
    var path := loc.at.path;
    var x := Tag(o, u, v);
    RerootAbs(o, x, path);
    PlugAbs(x, path);
    PlugAbs(u, path);
    PlugShape(u, path);
    PlugAggs(o, u, path);
    if |path| == 0 {
      assert Reroot(o, x, path) == x;
    } else {
      RerootShape(o, x, u, path);
    }
    if Shape(s.tree) {
      RerootShape(o, x, u, path);
    }
    RerootAggs(o, x, u, path);
  }

  /** query(l, r): defaultValue under the guard; otherwise clamp the range and
      read the interval subtree's aggregate, which under the laws is the fold of
      the clamped range. */
  function Query(o: Ops, s: RangeTree, l: int, r: int): (res: (RangeTree, int))
    requires Wf(s)
    ensures OutOfRange(s, l, r) ==> res == (s, o.dflt)
    ensures res.0.count == s.count && Wf(res.0) && Abs(res.0.tree) == Abs(s.tree)
    ensures Shape(s.tree) ==> Shape(res.0.tree)
    ensures Laws(o) && Good(o, s.tree) ==> Good(o, res.0.tree)
    ensures !OutOfRange(s, l, r) && Laws(o) && Good(o, s.tree) ==>
              res.1 == Fold(o.merge, Abs(s.tree)[Max(0, l)..Min(s.count - 1, r) + 1])
  {
    if OutOfRange(s, l, r) then (s, o.dflt)
    else
      var loc := Interval(o, s, Max(0, l), Min(s.count - 1, r));
      QueryFold(o, s, l, r, loc);
      (loc.s, loc.at.focus.node.rangeValue)
  }

  lemma QueryFold(o: Ops, s: RangeTree, l: int, r: int, loc: Located)
    requires Wf(s) && !OutOfRange(s, l, r)
    requires Locates(o, s, Max(0, l), Min(s.count - 1, r), loc)
    ensures Laws(o) && Good(o, s.tree) ==>
              loc.at.focus.node.rangeValue == Fold(o.merge, Abs(s.tree)[Max(0, l)..Min(s.count - 1, r) + 1])
  {
    if Laws(o) && Good(o, s.tree) {
      PlugShape(loc.at.focus, loc.at.path);
      PlugAggs(o, loc.at.focus, loc.at.path);
      AggIsFold(o, loc.at.focus);
    }
  }

  //---------------------------------------------------------------------------
  // point query and point update

  /** query(index): defaultValue outside [0, count); otherwise the value of the
      node operator[] splays to the root. */
  function QueryPoint(o: Ops, s: RangeTree, index: int): (res: (RangeTree, int))
    requires Wf(s)
    ensures !(0 <= index < s.count) ==> res == (s, o.dflt)
    ensures 0 <= index < s.count ==> res.1 == Abs(s.tree)[index]
    ensures res.0.count == s.count && Wf(res.0) && Abs(res.0.tree) == Abs(s.tree)
    ensures Shape(s.tree) ==> Shape(res.0.tree)
    ensures Laws(o) && Good(o, s.tree) ==> Good(o, res.0.tree)
  {
    if s.count <= 0 || index < 0 || index >= s.count then (s, o.dflt)
    else
      var t := Select(o, s, index).value;
      (t, t.tree.node.value)
  }

  /** update(index, value): the result of operator[] is used without a check,
      so index must lie in [0, count). The root takes the value and recomputes
      its aggregate from its children. */
  function UpdatePoint(o: Ops, s: RangeTree, index: int, v: int): (res: RangeTree)
    requires Wf(s) && 0 <= index < s.count
    ensures res.count == s.count && Wf(res)
    ensures Abs(res.tree) == Abs(s.tree)[index := v]
    ensures Shape(s.tree) ==> Shape(res.tree)
    ensures Laws(o) && Good(o, s.tree) ==> Good(o, res.tree)
  {
    var t := Select(o, s, index).value.tree;
    var x := Br(t.left, t.node.(value := v, rangeValue := Combine(o, v, t.left, t.right)), t.right);
    SetRoot(o, t, v, x);
    RangeTree(x, s.count)
  }

  /** Overwriting the value of an untagged root and recomputing its aggregate
      replaces the element at the root's position and keeps the invariants. */
  lemma SetRoot(o: Ops, t: Tree, v: int, x: Tree)
    requires t.Br? && !t.node.lazyExist && Loose(t)
    requires x == Br(t.left, t.node.(value := v, rangeValue := Combine(o, v, t.left, t.right)), t.right)
    ensures Size(x) == Size(t) && Loose(x)
    ensures Abs(x) == Abs(t)[Size(t.left) := v]
    ensures Shape(t) ==> Shape(x)
    ensures Good(o, t) ==> Good(o, x)
  {
    SplitRoot(t);
    SplitRoot(x);
    assert Abs(x) == Abs(t)[Size(t.left) := v];
  }

  //---------------------------------------------------------------------------
  // serialize

  /** No node carries a pending tag. */
  ghost predicate NoTags(t: Tree)
  {
    t.Br? ==> !t.node.lazyExist && NoTags(t.left) && NoTags(t.right)
  }

  /** serialize(x, out): push x's tag down, emit the left subtree, x's value,
      the right subtree. Returns the tree as the pushes leave it, and the
      emitted values. */
  function SerializeTree(o: Ops, t: Tree): (res: (Tree, seq<int>))
    ensures Size(res.0) == Size(t) && |res.1| == Size(t)
    ensures t.Br? ==> res.0.Br? && res.0.node.cnt == t.node.cnt && res.0.node.rangeValue == t.node.rangeValue
    decreases Size(t)
  {
    if t.Nil? then (Nil, [])
    else
      var x := PushDown(o, t);
      var (l, a) := SerializeTree(o, x.left);
      var (r, b) := SerializeTree(o, x.right);
      (Br(l, x.node, r), a + [x.node.value] + b)
  }

  /** The emitted values are the in-order reading, which the pushes keep, and
      afterwards no tag is left; the invariants survive. */
  lemma {:induction false} SerializeKeeps(o: Ops, t: Tree)
    ensures Loose(t) ==> SerializeTree(o, t).1 == Abs(t) && Abs(SerializeTree(o, t).0) == Abs(t)
    ensures Loose(t) ==> Loose(SerializeTree(o, t).0) && NoTags(SerializeTree(o, t).0)
    ensures Shape(t) ==> Shape(SerializeTree(o, t).0)
    ensures Laws(o) && Good(o, t) ==> Good(o, SerializeTree(o, t).0)
    decreases Size(t)
  {
    if t.Br? {
      var x := PushDown(o, t);
      SerializeKeeps(o, x.left);
      SerializeKeeps(o, x.right);
    }
  }

  /** serialize(): the in-order values, with every tag pushed to the leaves. */
  function Serialize(o: Ops, s: RangeTree): (res: (RangeTree, seq<int>))
    requires Wf(s)
    ensures res.1 == Abs(s.tree)
    ensures res.0.count == s.count && Wf(res.0) && Abs(res.0.tree) == Abs(s.tree) && NoTags(res.0.tree)
    ensures Shape(s.tree) ==> Shape(res.0.tree)
    ensures Laws(o) && Good(o, s.tree) ==> Good(o, res.0.tree)
  {
    SerializeKeeps(o, s.tree);
    var (t, out) := SerializeTree(o, s.tree);
    (RangeTree(t, s.count), out)
  }
}
