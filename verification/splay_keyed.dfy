/** Keyed mode of `SplayTreeRangeQuery`: the tree used as a binary search tree
    over `value`, with `find`, `insert` and `erase`. The reference model is the
    in-order sequence, strictly increasing. Keyed operations are modelled on
    trees without pending assignment tags. */
module SplayKeyed {
  import opened Folds
  import opened SplayCore
  import opened SplayZip
  import opened SplayPositional
  import opened SortedSeq

  //---------------------------------------------------------------------------
  // no pending tags survive a splay

  /** Every node of the zipper's focus and of its siblings is untagged. */
  ghost predicate ZipNoTags(z: Zip)
  {
    NoTags(z.focus) && forall i :: 0 <= i < |z.path| ==> NoTags(z.path[i].sibling)
  }

  lemma RotateNoTags(o: Ops, z: Zip)
    requires z.focus.Br? && |z.path| >= 1
    requires !z.focus.node.lazyExist && !z.path[0].up.lazyExist
    ensures ZipNoTags(z) ==> ZipNoTags(Rotate(o, z))
  {
    if ZipNoTags(z) {
      assert NoTags(z.path[0].sibling);
      assert forall i :: 0 <= i < |Rotate(o, z).path| ==> Rotate(o, z).path[i] == z.path[i + 1];
    }
  }

  lemma ZigZigNoTags(o: Ops, z: Zip)
    requires z.focus.Br? && |z.path| >= 2 && z.path[0].LeftOf? == z.path[1].LeftOf?
    requires !z.focus.node.lazyExist && PathClean(z.path)
    ensures ZipNoTags(z) ==> ZipNoTags(ZigZig(o, z))
  {
    var pz := Zip(Attach(z.focus, z.path[0]), z.path[1..]);
    PathCleanTail(z.path);
    var q := Rotate(o, pz);
    var down :=
      if z.path[0].LeftOf? then Zip(q.focus.left, [LeftOf(q.focus.node, q.focus.right)] + q.path)
      else Zip(q.focus.right, [RightOf(q.focus.left, q.focus.node)] + q.path);
    ZigZigDownClean(o, z, q, down);
    assert ZigZig(o, z) == Rotate(o, down);
    if ZipNoTags(z) {
      AttachNoTags(z, pz);
      RotateNoTags(o, pz);
      DownNoTags(q, down);
      RotateNoTags(o, down);
    }
  }

  lemma AttachNoTags(z: Zip, pz: Zip)
    requires |z.path| >= 1 && !z.path[0].up.lazyExist && ZipNoTags(z)
    requires pz == Zip(Attach(z.focus, z.path[0]), z.path[1..])
    ensures ZipNoTags(pz)
  {
    assert NoTags(z.path[0].sibling);
    assert forall i :: 0 <= i < |pz.path| ==> pz.path[i] == z.path[i + 1];
  }

  lemma DownNoTags(q: Zip, down: Zip)
    requires q.focus.Br? && ZipNoTags(q)
    requires down == Zip(q.focus.left, [LeftOf(q.focus.node, q.focus.right)] + q.path)
          || down == Zip(q.focus.right, [RightOf(q.focus.left, q.focus.node)] + q.path)
    ensures ZipNoTags(down)
  {
    assert forall i :: 1 <= i < |down.path| ==> down.path[i] == q.path[i - 1];
  }

  lemma ZigZagNoTags(o: Ops, z: Zip)
    requires z.focus.Br? && |z.path| >= 2
    requires !z.focus.node.lazyExist && PathClean(z.path)
    ensures ZipNoTags(z) ==> ZipNoTags(ZigZag(o, z))
  {
    RotateRearranges(o, z);
    RotateNoTags(o, z);
    var once := Rotate(o, z);
    RotateNoTags(o, once);
  }

  /** splay(x) builds every node it touches from an untagged one. */
  lemma {:induction false} SplayNoTags(o: Ops, z: Zip)
    requires z.focus.Br? && !z.focus.node.lazyExist && PathClean(z.path)
    ensures ZipNoTags(z) ==> NoTags(Splay(o, z))
    decreases |z.path|
  {
    if |z.path| == 1 {
      RotateNoTags(o, z);
    } else if |z.path| >= 2 {
      if z.path[0].LeftOf? == z.path[1].LeftOf? {
        ZigZigNoTags(o, z);
        SplayNoTags(o, ZigZig(o, z));
      } else {
        ZigZagNoTags(o, z);
        SplayNoTags(o, ZigZag(o, z));
      }
    }
  }

  //---------------------------------------------------------------------------
  // find

  /** The search for key has only discarded parts on the correct side: what
      lies left of the focus is below key, what lies right of it is above, and
      the focus still to be searched reads increasing. */
  ghost predicate Searched(z: Zip, key: int)
  {
    Increasing(Abs(z.focus)) && Below(PathLeft(z.path), key) && Above(PathRight(z.path), key)
  }

  /** Where the walk of find and insert stops: at the key, or at a node whose
      child on key's side is missing. */
  predicate Stopped(t: Tree, key: int)
  {
    t.Br? &&
    (t.node.value == key || (key < t.node.value && t.left.Nil?) || (key > t.node.value && t.right.Nil?))
  }

  lemma SearchLeft(x: Tree, path: seq<Frame>, key: int)
    requires x.Br? && !x.node.lazyExist && key < x.node.value
    requires Searched(Zip(x, path), key)
    ensures Searched(Zip(x.left, [LeftOf(x.node, x.right)] + path), key)
  {
    var v := x.node.value;
    var path' := [LeftOf(x.node, x.right)] + path;
    assert path'[1..] == path;
    assert PathLeft(path') == PathLeft(path);
    assert PathRight(path') == ([v] + Abs(x.right)) + PathRight(path);
    IncreasingAround(Abs(x.left), v, Abs(x.right));
    AboveCons(v, Abs(x.right), key);
    AboveCat([v] + Abs(x.right), PathRight(path), key);
  }

  lemma SearchRight(x: Tree, path: seq<Frame>, key: int)
    requires x.Br? && !x.node.lazyExist && key > x.node.value
    requires Searched(Zip(x, path), key)
    ensures Searched(Zip(x.right, [RightOf(x.left, x.node)] + path), key)
  {
    var v := x.node.value;
    var path' := [RightOf(x.left, x.node)] + path;
    assert path'[1..] == path;
    assert PathLeft(path') == PathLeft(path) + (Abs(x.left) + [v]);
    assert PathRight(path') == PathRight(path);
    IncreasingAround(Abs(x.left), v, Abs(x.right));
    BelowSnoc(Abs(x.left), v, key);
    BelowCat(PathLeft(path), Abs(x.left) + [v], key);
  }

  /** The walk of find: push the visited node's tag down, stop on the key,
      otherwise go to the child on key's side, or stop when it is missing. */
  function Search(o: Ops, z: Zip, key: int): (r: Zip)
    requires z.focus.Br? && Loose(z.focus) && PathClean(z.path)
    ensures r.focus.Br? && !r.focus.node.lazyExist && PathClean(r.path) && Loose(r.focus)
    ensures Abs(Plug(r.focus, r.path)) == Abs(Plug(z.focus, z.path))
    ensures |r.path| >= |z.path|
    ensures |r.path| == |z.path| ==> r.focus == PushDown(o, z.focus)
    ensures SiblingsShape(z.path) ==> ZipShape(r)
    ensures AggsAbove(o, z) ==> ZipAggs(o, r)
    ensures ZipNoTags(z) ==> ZipNoTags(r) && Plug(r.focus, r.path) == Plug(z.focus, z.path)
    ensures Stopped(r.focus, key) && (Searched(z, key) ==> Searched(r, key))
    decreases Size(z.focus)
  {
    var x := PushDown(o, z.focus);
    PlugCongruence(x, z.focus, z.path);
    if key == x.node.value || (key < x.node.value && x.left.Nil?) || (key > x.node.value && x.right.Nil?) then
      Zip(x, z.path)
    else
      var f := if key < x.node.value then LeftOf(x.node, x.right) else RightOf(x.left, x.node);
      var z' := Zip(if f.LeftOf? then x.left else x.right, [f] + z.path);
      DescendStep(o, z.path, x, f, z');
      SearchStep(o, z, key, x, z');
      Search(o, z', key)
  }

  /** The invariants of the walk that DescendStep does not cover. */
  lemma SearchStep(o: Ops, z: Zip, key: int, x: Tree, z': Zip)
    requires z.focus.Br? && Loose(z.focus) && x == PushDown(o, z.focus) && key != x.node.value
    requires z' == if key < x.node.value then Zip(x.left, [LeftOf(x.node, x.right)] + z.path)
                   else Zip(x.right, [RightOf(x.left, x.node)] + z.path)
    ensures ZipNoTags(z) ==> ZipNoTags(z')
    ensures Searched(z, key) ==> Searched(z', key)
  {
    if ZipNoTags(z) {
      assert forall i :: 1 <= i < |z'.path| ==> z'.path[i] == z.path[i - 1];
    }
    if Searched(z, key) {
      assert Abs(x) == Abs(z.focus);
      if key < x.node.value {
        SearchLeft(x, z.path, key);
      } else {
        SearchRight(x, z.path, key);
      }
    }
  }

  /** Where the walk stops, key is present exactly when the stopping node holds
      it, and that node's value is a neighbour of key in the reading. */
  lemma StopDecides(z: Zip, key: int)
    requires z.focus.Br? && !z.focus.node.lazyExist && Searched(z, key) && Stopped(z.focus, key)
    requires Increasing(PathLeft(z.path) + Abs(z.focus) + PathRight(z.path))
    ensures var w := PathLeft(z.path) + Abs(z.focus) + PathRight(z.path);
      (key in w <==> z.focus.node.value == key) && Neighbour(w, key, z.focus.node.value)
  {
    var t, v := z.focus, z.focus.node.value;
    var a, b := PathLeft(z.path) + Abs(t.left), Abs(t.right) + PathRight(z.path);
    assert PathLeft(z.path) + Abs(t) + PathRight(z.path) == a + [v] + b;
    if key < v && t.left.Nil? {
      assert a == PathLeft(z.path);
    } else if key > v && t.right.Nil? {
      assert b == PathRight(z.path);
    }
    NeighbourAround(a, v, b, key);
  }

  /** find(key): walk to key or to where it would hang, splay the last visited
      node to the root, and report whether it holds key. */
  function Find(o: Ops, s: RangeTree, key: int): (res: (RangeTree, bool))
    requires Wf(s)
    ensures res.0.count == s.count && Wf(res.0) && Abs(res.0.tree) == Abs(s.tree)
    ensures s.tree.Nil? ==> res == (s, false)
    ensures s.tree.Br? ==> res.0.tree.Br? && !res.0.tree.node.lazyExist
    ensures res.1 ==> res.0.tree.Br? && res.0.tree.node.value == key
    ensures Increasing(Abs(s.tree)) ==> (res.1 <==> key in Abs(s.tree))
    ensures s.tree.Br? && Increasing(Abs(s.tree)) ==> Neighbour(Abs(s.tree), key, res.0.tree.node.value)
    ensures Shape(s.tree) ==> Shape(res.0.tree)
    ensures Laws(o) && Good(o, s.tree) ==> Good(o, res.0.tree)
    ensures NoTags(s.tree) ==> NoTags(res.0.tree)
    ensures NoTags(s.tree) && Aggs(o, s.tree) ==> Aggs(o, res.0.tree)
  {
    if s.tree.Nil? then (s, false)
    else
      var d := Search(o, Zip(s.tree, []), key);
      FindFacts(o, s, key, d);
      (RangeTree(Splay(o, d), s.count), d.focus.node.value == key)
  }

  /** What the walk from the root establishes: the reading splits around the
      focus, and on an increasing reading the stopping node decides whether
      key is present and is a neighbour of key. */
  lemma WalkFacts(o: Ops, s: RangeTree, key: int, d: Zip)
    requires Wf(s) && s.tree.Br? && d == Search(o, Zip(s.tree, []), key)
    ensures Abs(s.tree) == PathLeft(d.path) + Abs(d.focus) + PathRight(d.path)
    ensures Increasing(Abs(s.tree)) ==>
      Searched(d, key) && (key in Abs(s.tree) <==> d.focus.node.value == key) &&
      Neighbour(Abs(s.tree), key, d.focus.node.value)
  {
    WalkSplits(o, s, key, d);
    if Increasing(Abs(s.tree)) {
      assert Searched(d, key) by {
        var z := Zip(s.tree, []);
        assert PathLeft(z.path) == [] && PathRight(z.path) == [] && Searched(z, key);
      }
      StopDecides(d, key);
    }
  }

  /** The reading of the tree is the walk's left part, its focus and its right part. */
  lemma WalkSplits(o: Ops, s: RangeTree, key: int, d: Zip)
    requires Wf(s) && s.tree.Br? && d == Search(o, Zip(s.tree, []), key)
    ensures Abs(s.tree) == PathLeft(d.path) + Abs(d.focus) + PathRight(d.path)
  {
    var z := Zip(s.tree, []);
    assert Plug(z.focus, z.path) == s.tree;
    PlugAbs(d.focus, d.path);
  }

  /** What the walk and the splay of find establish. */
  lemma FindFacts(o: Ops, s: RangeTree, key: int, d: Zip)
    requires Wf(s) && s.tree.Br? && d == Search(o, Zip(s.tree, []), key)
    ensures var t := Splay(o, d);
      && Loose(t) && Abs(t) == Abs(s.tree)
      && (Shape(s.tree) ==> Shape(t))
      && (Laws(o) && Good(o, s.tree) ==> Good(o, t))
      && (NoTags(s.tree) ==> NoTags(t))
      && (NoTags(s.tree) && Aggs(o, s.tree) ==> Aggs(o, t))
      && (Increasing(Abs(s.tree)) ==>
            (key in Abs(s.tree) <==> d.focus.node.value == key) && Neighbour(Abs(s.tree), key, t.node.value))
  {
    WalkFacts(o, s, key, d);
    SplayKeepsShape(o, d);
    SplayKeepsAggs(o, d);
    SplayNoTags(o, d);
  }

  //---------------------------------------------------------------------------
  // insert

  /** Where insert hangs the new node below the stopping node p. */
  function HangFrame(p: Tree, key: int): Frame
    requires p.Br?
  {
    if key < p.node.value then LeftOf(p.node, p.right) else RightOf(p.left, p.node)
  }

  /** The reading of the whole tree with the new leaf in the focus. */
  lemma HangAbs(d: Zip, key: int, n: Node)
    requires d.focus.Br? && !d.focus.node.lazyExist && PathClean(d.path)
    requires !n.lazyExist && n.value == key
    ensures PathClean([HangFrame(d.focus, key)] + d.path)
    ensures var path := [HangFrame(d.focus, key)] + d.path;
      Abs(Plug(Br(Nil, n, Nil), path)) == PathLeft(path) + [key] + PathRight(path)
  {
    var path := [HangFrame(d.focus, key)] + d.path;
    ConsFrame(HangFrame(d.focus, key), d.path, path);
    PlugAbs(Br(Nil, n, Nil), path);
  }

  /** The parts left and right of the new leaf's slot. */
  lemma HangSides(d: Zip, key: int)
    requires d.focus.Br? && !d.focus.node.lazyExist && Stopped(d.focus, key) && d.focus.node.value != key
    ensures var path := [HangFrame(d.focus, key)] + d.path;
      && PathLeft(path) + PathRight(path) == PathLeft(d.path) + Abs(d.focus) + PathRight(d.path)
      && (Searched(d, key) ==> Below(PathLeft(path), key) && Above(PathRight(path), key))
  {
    if key < d.focus.node.value {
      HangLeft(d, key);
    } else {
      HangRight(d, key);
    }
  }

  lemma HangLeft(d: Zip, key: int)
    requires d.focus.Br? && !d.focus.node.lazyExist && key < d.focus.node.value && d.focus.left.Nil?
    ensures var path := [LeftOf(d.focus.node, d.focus.right)] + d.path;
      && PathLeft(path) == PathLeft(d.path)
      && PathLeft(d.path) + Abs(d.focus) + PathRight(d.path) == PathLeft(path) + PathRight(path)
      && (Searched(d, key) ==> Below(PathLeft(path), key) && Above(PathRight(path), key))
  {
    var p, v := d.focus, d.focus.node.value;
    var path := [LeftOf(p.node, p.right)] + d.path;
    var L, R, P := PathLeft(d.path), Abs(p.right), PathRight(d.path);
    assert path[1..] == d.path;
    assert PathLeft(path) == L;
    assert PathRight(path) == ([v] + R) + P;
    assert Abs(p) == [v] + R by {
      assert Abs(p) == [] + [v] + R;
    }
    CatAssoc(L, [v] + R, P);
    if Searched(d, key) {
      IncreasingAround([], v, Abs(p.right));
      AboveCons(v, Abs(p.right), key);
      AboveCat([v] + Abs(p.right), PathRight(d.path), key);
    }
  }

  lemma HangRight(d: Zip, key: int)
    requires d.focus.Br? && !d.focus.node.lazyExist && key > d.focus.node.value && d.focus.right.Nil?
    ensures var path := [RightOf(d.focus.left, d.focus.node)] + d.path;
      && PathRight(path) == PathRight(d.path)
      && PathLeft(d.path) + Abs(d.focus) + PathRight(d.path) == PathLeft(path) + PathRight(path)
      && (Searched(d, key) ==> Below(PathLeft(path), key) && Above(PathRight(path), key))
  {
    var p, v := d.focus, d.focus.node.value;
    var path := [RightOf(p.left, p.node)] + d.path;
    var L, Q, P := PathLeft(d.path), Abs(p.left), PathRight(d.path);
    assert path[1..] == d.path;
    assert PathRight(path) == P;
    assert PathLeft(path) == L + (Q + [v]) by {
      CatAssoc(L, Q, [v]);
    }
    assert Abs(p) == Q + [v] by {
      assert Abs(p) == Q + [v] + [];
    }
    if Searched(d, key) {
      IncreasingAround(Abs(p.left), v, []);
      BelowSnoc(Abs(p.left), v, key);
      BelowCat(PathLeft(d.path), Abs(p.left) + [v], key);
    }
  }

  /** The tail of insert: hang the new leaf below the walk's last node p and
      splay it to the root. The reading gains key between the parts left and
      right of the leaf's slot, which together are the old reading. */
  function HangLeaf(o: Ops, d: Zip, key: int, n: Node): (t: Tree)
    requires d.focus.Br? && !d.focus.node.lazyExist && PathClean(d.path)
    requires Stopped(d.focus, key) && d.focus.node.value != key
    requires !n.lazyExist && n.value == key && n.rangeValue == key
    ensures t.Br? && t.node.value == key
    ensures var path := [HangFrame(d.focus, key)] + d.path;
      && Abs(t) == PathLeft(path) + [key] + PathRight(path)
      && PathLeft(path) + PathRight(path) == PathLeft(d.path) + Abs(d.focus) + PathRight(d.path)
      && (Searched(d, key) ==> Below(PathLeft(path), key) && Above(PathRight(path), key))
    ensures ZipShape(d) ==> Loose(t) && Shape(t)
    ensures ZipAggs(o, d) ==> Aggs(o, t)
    ensures ZipNoTags(d) ==> NoTags(t)
  {
    var path := [HangFrame(d.focus, key)] + d.path;
    var x := Br(Nil, n, Nil);
    HangAbs(d, key, n);
    HangSides(d, key);
    HangKeeps(o, d, key, n);
    SplayKeepsShape(o, Zip(x, path));
    SplayKeepsAggs(o, Zip(x, path));
    SplayNoTags(o, Zip(x, path));
    Splay(o, Zip(x, path))
  }

  /** insert(value), with the count the new node starts with as the parameter
      startCnt: an empty tree gets the new node as its root; otherwise see
      InsertInto. */
  function InsertCnt(o: Ops, s: RangeTree, key: int, startCnt: int): (res: (RangeTree, bool))
    requires Wf(s) && NoTags(s.tree)
    ensures Wf(res.0) && NoTags(res.0.tree)
    ensures !res.1 ==> res.0 == s
    ensures res.1 ==> res.0.count == s.count + 1 && res.0.tree.Br? && res.0.tree.node.value == key
    ensures res.1 ==> multiset(Abs(res.0.tree)) == multiset(Abs(s.tree)) + multiset{key}
    ensures Increasing(Abs(s.tree)) ==> (res.1 <==> key !in Abs(s.tree))
    ensures Increasing(Abs(s.tree)) ==> Abs(res.0.tree) == InsertSorted(Abs(s.tree), key)
    ensures s.tree.Br? && (res.1 || Shape(s.tree)) ==> Shape(res.0.tree)
    ensures s.tree.Br? && Aggs(o, s.tree) ==> Aggs(o, res.0.tree)
  {
    var n := Node(startCnt, key, key, 0, false);
    if s.tree.Nil? then
      (RangeTree(Br(Nil, n, Nil), s.count + 1), true)
    else
      InsertInto(o, s, key, n)
  }

  /** insert into a non-empty tree: the walk stops at the key, leaving
      everything as it is, or at the node the new leaf n hangs below, and the
      leaf is splayed to the root. The walk pushes each visited node before
      comparing, the order of find; on a tree without pending tags that is
      the tree insert's own walk leaves. */
  function InsertInto(o: Ops, s: RangeTree, key: int, n: Node): (res: (RangeTree, bool))
    requires Wf(s) && NoTags(s.tree) && s.tree.Br?
    requires !n.lazyExist && n.value == key && n.rangeValue == key
    ensures Wf(res.0) && NoTags(res.0.tree)
    ensures !res.1 ==> res.0 == s
    ensures res.1 ==> res.0.count == s.count + 1 && res.0.tree.Br? && res.0.tree.node.value == key
    ensures res.1 ==> multiset(Abs(res.0.tree)) == multiset(Abs(s.tree)) + multiset{key}
    ensures Increasing(Abs(s.tree)) ==> (res.1 <==> key !in Abs(s.tree))
    ensures Increasing(Abs(s.tree)) ==> Abs(res.0.tree) == InsertSorted(Abs(s.tree), key)
    ensures res.1 || Shape(s.tree) ==> Shape(res.0.tree)
    ensures Aggs(o, s.tree) ==> Aggs(o, res.0.tree)
  {
    var d := Search(o, Zip(s.tree, []), key);
    InsertFacts(o, s, key, d);
    if d.focus.node.value == key then
      assert Increasing(Abs(s.tree)) ==> InsertSorted(Abs(s.tree), key) == Abs(s.tree) by {
        if Increasing(Abs(s.tree)) {
          InsertSortedPresent(Abs(s.tree), key);
        }
      }
      (s, false)
    else
      var t := HangLeaf(o, d, key, n);
      var path := [HangFrame(d.focus, key)] + d.path;
      Splice(Abs(s.tree), Abs(t), PathLeft(path), PathRight(path), key);
      (RangeTree(t, s.count + 1), true)
  }

  /** insert(value) as written: the node for an empty tree comes from
      createNode's value-initialised `new Node()`, and init() is never called,
      so its cnt stays 0 while count becomes 1. */
  function InsertAsWritten(o: Ops, s: RangeTree, key: int): (res: (RangeTree, bool))
    requires Wf(s) && NoTags(s.tree)
    ensures Wf(res.0) && NoTags(res.0.tree)
    ensures Increasing(Abs(s.tree)) ==> (res.1 <==> key !in Abs(s.tree))
    ensures Increasing(Abs(s.tree)) ==> Abs(res.0.tree) == InsertSorted(Abs(s.tree), key)
    ensures s.tree.Nil? ==> res.1 && res.0.count == 1 && res.0.tree.node.cnt == 0 && !Shape(res.0.tree)
  {
    InsertCnt(o, s, key, 0)
  }

  /** insert(value) with the new node initialised to cnt 1, as init() would:
      every count is exact afterwards, also for the first node. */
  function Insert(o: Ops, s: RangeTree, key: int): (res: (RangeTree, bool))
    requires Wf(s) && NoTags(s.tree)
    ensures Wf(res.0) && NoTags(res.0.tree)
    ensures !res.1 ==> res.0 == s
    ensures res.1 ==> res.0.count == s.count + 1 && res.0.tree.Br? && res.0.tree.node.value == key
    ensures res.1 ==> multiset(Abs(res.0.tree)) == multiset(Abs(s.tree)) + multiset{key}
    ensures Increasing(Abs(s.tree)) ==> (res.1 <==> key !in Abs(s.tree))
    ensures Increasing(Abs(s.tree)) ==> Abs(res.0.tree) == InsertSorted(Abs(s.tree), key)
    ensures res.1 || Shape(s.tree) ==> Shape(res.0.tree)
    ensures Good(o, s.tree) ==> Good(o, res.0.tree)
  {
    InsertCnt(o, s, key, 1)
  }

  //---------------------------------------------------------------------------
  // the first insert into an empty tree

  /** Sum aggregates: merge is +, blockOp(v, k) is v * k, the default 0. */
  function SumOps(): (o: Ops)
    ensures Laws(o)
  {
    var o := Ops((a: int, b: int) => a + b, (v: int, k: int) => v * k, 0);
    SumLaws(o);
    o
  }

  lemma SumLaws(o: Ops)
    requires o.merge == ((a: int, b: int) => a + b) && o.block == ((v: int, k: int) => v * k)
    ensures Laws(o)
  {
    forall v, k ensures BlockAt(o, v, k) {
      if k >= 1 {
        SumFold(o, v, k);
      }
    }
  }

  lemma {:induction false} SumFold(o: Ops, v: int, k: nat)
    requires o.merge == ((a: int, b: int) => a + b) && k >= 1
    ensures Fold(o.merge, seq(k, _ => v)) == v * k
    decreases k
  {
    if k > 1 {
      SumFold(o, v, k - 1);
      assert seq(k, _ => v)[..k - 1] == seq(k - 1, _ => v);
    }
  }

  /** With sum aggregates, after inserting one key into an empty tree and
      assigning 5 to position 0, the element reads 5 but query(0, 0) reports
      blockOp(5, 0) = 0, since the node's cnt is 0. */
  lemma FirstInsertQueryAsWritten()
    ensures var o := SumOps();
      var s := InsertAsWritten(o, RangeTree(Nil, 0), 7).0;
      var u := Update(o, s, 0, 0, 5);
      Abs(u.tree) == [5] && Query(o, u, 0, 0).1 == 0
  {
    var o := SumOps();
    var s := InsertAsWritten(o, RangeTree(Nil, 0), 7).0;
    assert s == RangeTree(Br(Nil, Node(0, 7, 7, 0, false), Nil), 1);
    var u := Update(o, s, 0, 0, 5);
    assert u == RangeTree(Tag(o, s.tree, 5), 1);
    assert u.tree.node.rangeValue == 0;
  }

  /** With the corrected insert the same sequence of calls reports the element:
      for any aggregate satisfying the laws, query(0, 0) after assigning v to
      position 0 of a freshly inserted tree returns v. */
  lemma FirstInsertQuery(o: Ops, key: int, v: int)
    requires Laws(o)
    ensures var s := Insert(o, RangeTree(Nil, 0), key).0;
      var u := Update(o, s, 0, 0, v);
      Abs(u.tree) == [v] && Query(o, u, 0, 0).1 == v
  {
    var s := Insert(o, RangeTree(Nil, 0), key).0;
    var u := Update(o, s, 0, 0, v);
    assert Abs(u.tree)[0..1] == [v];
  }

  /** Adding key between the two parts of a reading: one more copy of key, and
      on an increasing reading with the parts on the correct sides, the sorted
      insertion. */
  lemma Splice(w: seq<int>, u: seq<int>, a: seq<int>, b: seq<int>, key: int)
    requires w == a + b && u == a + [key] + b
    requires Increasing(w) ==> Below(a, key) && Above(b, key)
    ensures multiset(u) == multiset(w) + multiset{key}
    ensures Increasing(w) ==> u == InsertSorted(w, key)
  {
    if Increasing(w) {
      InsertSortedSplit(a, b, key);
    }
  }

  /** What the walk from the root establishes for insert. */
  lemma InsertFacts(o: Ops, s: RangeTree, key: int, d: Zip)
    requires Wf(s) && NoTags(s.tree) && s.tree.Br?
    requires d == Search(o, Zip(s.tree, []), key)
    ensures Abs(s.tree) == PathLeft(d.path) + Abs(d.focus) + PathRight(d.path)
    ensures ZipShape(d) && ZipNoTags(d) && (Aggs(o, s.tree) ==> ZipAggs(o, d))
    ensures d.focus.node.value == key ==> Plug(d.focus, d.path) == s.tree
    ensures Increasing(Abs(s.tree)) ==> Searched(d, key) && (key in Abs(s.tree) <==> d.focus.node.value == key)
  {
    WalkFacts(o, s, key, d);
  }


  /** The zipper of the new leaf keeps what the walk's zipper had. */
  lemma HangKeeps(o: Ops, d: Zip, key: int, n: Node)
    requires d.focus.Br? && !d.focus.node.lazyExist && PathClean(d.path) && Stopped(d.focus, key)
    requires d.focus.node.value != key && !n.lazyExist
    ensures var z' := Zip(Br(Nil, n, Nil), [HangFrame(d.focus, key)] + d.path);
      && (ZipShape(d) ==> ZipShape(z'))
      && (ZipAggs(o, d) ==> ZipAggs(o, z'))
      && (ZipNoTags(d) ==> ZipNoTags(z'))
  {
    var path := [HangFrame(d.focus, key)] + d.path;
    assert forall i :: 1 <= i < |path| ==> path[i] == d.path[i - 1];
  }

  //---------------------------------------------------------------------------
  // erase

  /** The walk of erase down the left subtree: push each node that has a right
      child and go right; stop at the node without one, not pushed. */
  function Rightmost(o: Ops, z: Zip): (r: Zip)
    requires z.focus.Br? && Loose(z.focus) && PathClean(z.path) && ZipNoTags(z)
    ensures r.focus.Br? && r.focus.right.Nil? && !r.focus.node.lazyExist
    ensures PathClean(r.path) && ZipNoTags(r) && Loose(r.focus)
    ensures Plug(r.focus, r.path) == Plug(z.focus, z.path)
    ensures PathRight(r.path) == PathRight(z.path)
    ensures |r.path| >= |z.path| && (|r.path| == |z.path| ==> r.focus == z.focus)
    ensures SiblingsShape(z.path) ==> ZipShape(r)
    ensures AggsAbove(o, z) ==> ZipAggs(o, r)
    decreases Size(z.focus)
  {
    if z.focus.right.Nil? then z
    else
      var x := PushDown(o, z.focus);
      var f := RightOf(x.left, x.node);
      var z' := Zip(x.right, [f] + z.path);
      DescendStep(o, z.path, x, f, z');
      RightStep(z, x, z');
      Rightmost(o, z')
  }

  lemma RightStep(z: Zip, x: Tree, z': Zip)
    requires z.focus.Br? && ZipNoTags(z) && x == z.focus
    requires z' == Zip(x.right, [RightOf(x.left, x.node)] + z.path)
    ensures ZipNoTags(z') && PathRight(z'.path) == PathRight(z.path)
  {
    assert z'.path[1..] == z.path;
    assert forall i :: 1 <= i < |z'.path| ==> z'.path[i] == z.path[i - 1];
  }

  /** Removing the root p of a tree without pending tags: with two children the
      rightmost node x of the left subtree adopts the right subtree, is updated
      and splayed to the root; with one child that child is the new root. */
  function EraseRoot(o: Ops, p: Tree): (t: Tree)
    requires p.Br? && !p.node.lazyExist && Loose(p) && NoTags(p)
    ensures Abs(t) == Abs(p.left) + Abs(p.right)
    ensures Shape(t) && NoTags(t)
    ensures Aggs(o, p) ==> Aggs(o, t)
  {
    assert NoTags(p.left) && NoTags(p.right);
    if p.left.Br? then
      if p.right.Br? then
        var d := Rightmost(o, Zip(p.left, []));
        var x := PushDown(o, Br(d.focus.left, d.focus.node, p.right));
        var x' := UpdateNode(o, x.left, x.node, x.right);
        JoinAbs(o, p, d, x');
        JoinKeeps(o, p, d, x');
        SplayKeepsShape(o, Zip(x', d.path));
        SplayKeepsAggs(o, Zip(x', d.path));
        SplayNoTags(o, Zip(x', d.path));
        Splay(o, Zip(x', d.path))
      else
        assert Abs(p.right) == [];
        PushDown(o, p.left)
    else if p.right.Br? then
      assert Abs(p.left) == [];
      PushDown(o, p.right)
    else
      Nil
  }

  /** The rightmost node of the left subtree, holding the right subtree, reads
      as the two subtrees one after the other. */
  lemma JoinAbs(o: Ops, p: Tree, d: Zip, x': Tree)
    requires d.focus.Br? && d.focus.right.Nil? && !d.focus.node.lazyExist && PathClean(d.path)
    requires p.Br? && Abs(Plug(d.focus, d.path)) == Abs(p.left) && PathRight(d.path) == []
    requires x' == UpdateNode(o, d.focus.left, d.focus.node, p.right)
    ensures Abs(Plug(x', d.path)) == Abs(p.left) + Abs(p.right)
  {
    PlugAbs(x', d.path);
    PlugAbs(d.focus, d.path);
    var l, v := Abs(d.focus.left), d.focus.node.value;
    assert Abs(d.focus) == l + [v] + [];
    JoinRegroup(PathLeft(d.path), l, v, Abs(p.right));
  }

  lemma JoinRegroup(pl: seq<int>, l: seq<int>, v: int, r: seq<int>)
    ensures pl + (l + [v] + r) + [] == (pl + (l + [v] + []) + []) + r
  {
  }

  /** ... and keeps every invariant the splay needs. */
  lemma JoinKeeps(o: Ops, p: Tree, d: Zip, x': Tree)
    requires d.focus.Br? && !d.focus.node.lazyExist && ZipShape(d) && ZipNoTags(d)
    requires p.Br? && Shape(p.right) && NoTags(p.right)
    requires x' == UpdateNode(o, d.focus.left, d.focus.node, p.right)
    ensures ZipShape(Zip(x', d.path)) && Shape(x') && ZipNoTags(Zip(x', d.path))
    ensures ZipAggs(o, d) && Aggs(o, p.right) ==> ZipAggs(o, Zip(x', d.path)) && Aggs(o, x')
  {
  }

  /** erase(key): find key, splaying it to the root; if absent report false,
      otherwise remove the root and drop count by one. */
  function Erase(o: Ops, s: RangeTree, key: int): (res: (RangeTree, bool))
    requires Wf(s) && NoTags(s.tree)
    ensures Wf(res.0) && NoTags(res.0.tree)
    ensures !res.1 ==> res.0.count == s.count && Abs(res.0.tree) == Abs(s.tree)
    ensures res.1 ==> res.0.count == s.count - 1
    ensures res.1 ==> multiset(Abs(res.0.tree)) + multiset{key} == multiset(Abs(s.tree))
    ensures Increasing(Abs(s.tree)) ==> (res.1 <==> key in Abs(s.tree))
    ensures Increasing(Abs(s.tree)) ==> Abs(res.0.tree) == Without(Abs(s.tree), key)
    ensures res.1 || Shape(s.tree) ==> Shape(res.0.tree)
    ensures Aggs(o, s.tree) ==> Aggs(o, res.0.tree)
  {
    var (f, found) := Find(o, s, key);
    if !found then
      assert Increasing(Abs(s.tree)) ==> Without(Abs(s.tree), key) == Abs(s.tree) by {
        if Increasing(Abs(s.tree)) {
          WithoutAbsent(Abs(s.tree), key);
        }
      }
      (f, false)
    else
      (EraseFound(o, f, key), true)
  }

  /** The second half of erase: key is at the root of f; the root is removed
      and count drops by one. */
  function EraseFound(o: Ops, f: RangeTree, key: int): (r: RangeTree)
    requires Wf(f) && NoTags(f.tree) && f.tree.Br? && !f.tree.node.lazyExist && f.tree.node.value == key
    ensures Wf(r) && NoTags(r.tree) && Shape(r.tree) && r.count == f.count - 1
    ensures multiset(Abs(r.tree)) + multiset{key} == multiset(Abs(f.tree))
    ensures Increasing(Abs(f.tree)) ==> Abs(r.tree) == Without(Abs(f.tree), key)
    ensures Aggs(o, f.tree) ==> Aggs(o, r.tree)
  {
    var p := f.tree;
    var t := EraseRoot(o, p);
    EraseAbs(Abs(p), Abs(p.left), Abs(p.right), key);
    RangeTree(t, f.count - 1)
  }

  /** Dropping the root's key from the reading around it. */
  lemma EraseAbs(w: seq<int>, a: seq<int>, b: seq<int>, key: int)
    requires w == a + [key] + b
    ensures multiset(a + b) + multiset{key} == multiset(w)
    ensures Increasing(w) ==> Without(w, key) == a + b
  {
    if Increasing(w) {
      IncreasingAround(a, key, b);
      WithoutSplit(a, b, key);
    }
  }
}
