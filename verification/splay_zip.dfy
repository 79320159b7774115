/** Bottom-up `rotate`/`splay` of `SplayTreeRangeQuery`. Parent pointers are
    replaced by a zipper: the focused subtree plus the path of frames back to
    the root, nearest parent first. */
module SplayZip {
  import opened Folds
  import opened SplayCore

  //---------------------------------------------------------------------------
  // The zipper

  /** One step towards the root: the parent node, and the sibling subtree on the
      other side. LeftOf: the focus is the parent's left child. */
  datatype Frame = LeftOf(up: Node, sibling: Tree) | RightOf(sibling: Tree, up: Node)

  datatype Zip = Zip(focus: Tree, path: seq<Frame>)

  function Attach(t: Tree, f: Frame): Tree
  {
    match f
    case LeftOf(n, s) => Br(t, n, s)
    case RightOf(s, n) => Br(s, n, t)
  }

  /** The whole tree, rebuilt without recomputing anything on the path. */
  function Plug(t: Tree, path: seq<Frame>): Tree
    decreases |path|
  {
    if |path| == 0 then t else Plug(Attach(t, path[0]), path[1..])
  }

  /** No node on the path carries a pending tag: the descent pushed them all. */
  ghost predicate PathClean(path: seq<Frame>)
  {
    forall i :: 0 <= i < |path| ==> !path[i].up.lazyExist
  }

  /** The in-order elements left of the focus, contributed by the path. */
  function PathLeft(path: seq<Frame>): seq<int>
    decreases |path|
  {
    if |path| == 0 then []
    else match path[0]
      case LeftOf(_, _) => PathLeft(path[1..])
      case RightOf(s, n) => PathLeft(path[1..]) + Abs(s) + [n.value]
  }

  /** The in-order elements right of the focus, contributed by the path. */
  function PathRight(path: seq<Frame>): seq<int>
    decreases |path|
  {
    if |path| == 0 then []
    else match path[0]
      case LeftOf(n, s) => [n.value] + Abs(s) + PathRight(path[1..])
      case RightOf(_, _) => PathRight(path[1..])
  }

  /** The in-order reading of a frame's subtree with t in the focus slot. */
  lemma AttachAbs(t: Tree, f: Frame)
    requires !f.up.lazyExist
    ensures f.LeftOf? ==> Abs(Attach(t, f)) == Abs(t) + [f.up.value] + Abs(f.sibling)
    ensures f.RightOf? ==> Abs(Attach(t, f)) == Abs(f.sibling) + [f.up.value] + Abs(t)
  {
  }

  lemma Regroup(a: seq<int>, v: int, b: seq<int>, w: int, c: seq<int>)
    ensures a + [v] + (b + [w] + c) == (a + [v] + b) + [w] + c
  {
  }

  lemma RegroupLeft(l: seq<int>, t: seq<int>, v: int, s: seq<int>, r: seq<int>)
    ensures l + (t + [v] + s) + r == l + t + ([v] + s + r)
  {
  }

  lemma RegroupRight(l: seq<int>, s: seq<int>, v: int, t: seq<int>, r: seq<int>)
    ensures l + (s + [v] + t) + r == (l + s + [v]) + t + r
  {
  }

  lemma {:induction false} PlugAbs(t: Tree, path: seq<Frame>)
    requires PathClean(path)
    ensures Abs(Plug(t, path)) == PathLeft(path) + Abs(t) + PathRight(path)
    decreases |path|
  {
    if |path| > 0 {
      var rest := path[1..];
      var f := path[0];
      var up := Attach(t, f);
      PathCleanTail(path);
      PlugAbs(up, rest);
      assert Plug(t, path) == Plug(up, rest);
      AttachAbs(t, f);
      if f.LeftOf? {
        assert PathRight(path) == [f.up.value] + Abs(f.sibling) + PathRight(rest);
        assert PathLeft(path) == PathLeft(rest);
        RegroupLeft(PathLeft(rest), Abs(t), f.up.value, Abs(f.sibling), PathRight(rest));
      } else {
        assert PathLeft(path) == PathLeft(rest) + Abs(f.sibling) + [f.up.value];
        assert PathRight(path) == PathRight(rest);
        RegroupRight(PathLeft(rest), Abs(f.sibling), f.up.value, Abs(t), PathRight(rest));
      }
    }
  }

  /** The in-order rank of the focus node. */
  function Rank(z: Zip): nat
    requires z.focus.Br?
  {
    |PathLeft(z.path)| + Size(z.focus.left)
  }

  /** The parts a splay keeps: the children of the focus, the siblings on the
      path, and the focus itself when it is already the root. The focus node's
      own cnt and rangeValue are recomputed by the first rotation. */
  ghost predicate ZipShape(z: Zip)
  {
    && (z.focus.Br? ==> Shape(z.focus.left) && Shape(z.focus.right))
    && (forall i :: 0 <= i < |z.path| ==> Shape(z.path[i].sibling))
  }

  ghost predicate ZipAggs(o: Ops, z: Zip)
  {
    && (z.focus.Br? ==> Aggs(o, z.focus.left) && Aggs(o, z.focus.right))
    && (forall i :: 0 <= i < |z.path| ==> Aggs(o, z.path[i].sibling))
  }

  /** What every rotation keeps: the focus is the same untagged node, the path is
      clean, the whole tree reads the same, the focus keeps its rank, and the
      kept parts keep their invariants. */
  ghost predicate Rearranged(o: Ops, z: Zip, z': Zip)
    requires z.focus.Br?
  {
    && z'.focus.Br? && !z'.focus.node.lazyExist
    && z'.focus.node.value == z.focus.node.value
    && PathClean(z'.path)
    && Abs(Plug(z'.focus, z'.path)) == Abs(Plug(z.focus, z.path))
    && Rank(z') == Rank(z)
    && (ZipShape(z) ==> ZipShape(z') && Shape(z'.focus))
    && (ZipAggs(o, z) ==> ZipAggs(o, z') && Aggs(o, z'.focus))
  }

  lemma PathCleanTail(path: seq<Frame>)
    requires PathClean(path) && |path| >= 1
    ensures PathClean(path[1..])
  {
    forall i | 0 <= i < |path| - 1 ensures !path[1..][i].up.lazyExist {
      assert path[1..][i] == path[i + 1];
    }
  }

  //---------------------------------------------------------------------------
  // rotate and splay

  /** rotate(x): x takes its parent's place; p adopts x's inner child and is
      updated, then x is updated. */
  function Rotate(o: Ops, z: Zip): (r: Zip)
    requires z.focus.Br? && |z.path| >= 1
    requires !z.focus.node.lazyExist && !z.path[0].up.lazyExist
    ensures r.focus.Br? && r.path == z.path[1..]
    ensures !r.focus.node.lazyExist && r.focus.node.value == z.focus.node.value
    ensures Abs(r.focus) == Abs(Attach(z.focus, z.path[0]))
    ensures Size(r.focus.left) == Size(z.focus.left) + |PathLeft(z.path)| - |PathLeft(r.path)|
    ensures z.path[0].LeftOf? ==> r.focus.left == z.focus.left
    ensures z.path[0].RightOf? ==> r.focus.right == z.focus.right
  {
    var x := z.focus;
    match z.path[0]
    case LeftOf(pn, c) =>
      var p := UpdateNode(o, x.right, pn, c);
      Regroup(Abs(x.left), x.node.value, Abs(x.right), pn.value, Abs(c));
      Zip(UpdateNode(o, x.left, x.node, p), z.path[1..])
    case RightOf(c, pn) =>
      var p := UpdateNode(o, c, pn, x.left);
      Regroup(Abs(c), pn.value, Abs(x.left), x.node.value, Abs(x.right));
      Zip(UpdateNode(o, p, x.node, x.right), z.path[1..])
  }

  /** A rotation rebuilds only x and p: the subtrees it moves keep their
      invariants, and the rebuilt nodes get exact sizes and aggregates. */
  lemma RotateKeeps(o: Ops, z: Zip)
    requires z.focus.Br? && |z.path| >= 1
    requires !z.focus.node.lazyExist && !z.path[0].up.lazyExist
    ensures Shape(z.focus.left) && Shape(z.focus.right) && Shape(z.path[0].sibling) ==>
              Shape(Rotate(o, z).focus) && Shape(Rotate(o, z).focus.left) && Shape(Rotate(o, z).focus.right)
    ensures Aggs(o, z.focus.left) && Aggs(o, z.focus.right) && Aggs(o, z.path[0].sibling) ==>
              Aggs(o, Rotate(o, z).focus) && Aggs(o, Rotate(o, z).focus.left) && Aggs(o, Rotate(o, z).focus.right)
    ensures z.path[0].LeftOf? && Shape(z.focus.right) && Shape(z.path[0].sibling) ==> Shape(Rotate(o, z).focus.right)
    ensures z.path[0].RightOf? && Shape(z.focus.left) && Shape(z.path[0].sibling) ==> Shape(Rotate(o, z).focus.left)
    ensures z.path[0].LeftOf? && Aggs(o, z.focus.right) && Aggs(o, z.path[0].sibling) ==> Aggs(o, Rotate(o, z).focus.right)
    ensures z.path[0].RightOf? && Aggs(o, z.focus.left) && Aggs(o, z.path[0].sibling) ==> Aggs(o, Rotate(o, z).focus.left)
  {
  }

  /** One rotation as a step of the splay: the focus climbs one level. */
  lemma RotateRearranges(o: Ops, z: Zip)
    requires z.focus.Br? && |z.path| >= 1
    requires !z.focus.node.lazyExist && PathClean(z.path)
    ensures Rearranged(o, z, Rotate(o, z))
  {
    RotatePlug(o, z);
    RotateZipKeeps(o, z);
  }

  lemma RotatePlug(o: Ops, z: Zip)
    requires z.focus.Br? && |z.path| >= 1
    requires !z.focus.node.lazyExist && PathClean(z.path)
    ensures PathClean(Rotate(o, z).path)
    ensures Abs(Plug(Rotate(o, z).focus, Rotate(o, z).path)) == Abs(Plug(z.focus, z.path))
  {
    var r := Rotate(o, z);
    PathCleanTail(z.path);
    assert Plug(z.focus, z.path) == Plug(Attach(z.focus, z.path[0]), r.path);
    PlugCongruence(r.focus, Attach(z.focus, z.path[0]), r.path);
  }

  lemma RotateZipKeeps(o: Ops, z: Zip)
    requires z.focus.Br? && |z.path| >= 1
    requires !z.focus.node.lazyExist && !z.path[0].up.lazyExist
    ensures ZipShape(z) ==> ZipShape(Rotate(o, z)) && Shape(Rotate(o, z).focus)
    ensures ZipAggs(o, z) ==> ZipAggs(o, Rotate(o, z)) && Aggs(o, Rotate(o, z).focus)
  {
    var r := Rotate(o, z);
    RotateKeeps(o, z);
    if ZipShape(z) {
      assert Shape(z.path[0].sibling);
      assert forall i :: 0 <= i < |r.path| ==> r.path[i] == z.path[i + 1];
    }
    if ZipAggs(o, z) {
      assert Aggs(o, z.path[0].sibling);
      assert forall i :: 0 <= i < |r.path| ==> r.path[i] == z.path[i + 1];
    }
  }

  /** The zig-zig case: rotate the parent first, step back down to x, rotate x. */
  function ZigZig(o: Ops, z: Zip): (r: Zip)
    requires z.focus.Br? && |z.path| >= 2 && z.path[0].LeftOf? == z.path[1].LeftOf?
    requires !z.focus.node.lazyExist && PathClean(z.path)
    ensures |r.path| == |z.path| - 2 && Rearranged(o, z, r)
  {
    var pz := Zip(Attach(z.focus, z.path[0]), z.path[1..]);
    PathCleanTail(z.path);
    var q := Rotate(o, pz);
    var down :=
      if z.path[0].LeftOf? then Zip(q.focus.left, [LeftOf(q.focus.node, q.focus.right)] + q.path)
      else Zip(q.focus.right, [RightOf(q.focus.left, q.focus.node)] + q.path);
    ZigZigDown(o, z, q, down);
    RotateRearranges(o, down);
    Rotate(o, down)
  }

  /** The state after the first rotation of a zig-zig: the parent has climbed,
      and the zipper steps back down to x. */
  ghost predicate ZigZigMid(o: Ops, z: Zip, q: Zip, down: Zip)
    requires z.focus.Br? && |z.path| >= 2
    requires !z.focus.node.lazyExist && PathClean(z.path)
  {
    && PathClean(z.path[1..])
    && q == Rotate(o, Zip(Attach(z.focus, z.path[0]), z.path[1..]))
    && down == if z.path[0].LeftOf? then Zip(q.focus.left, [LeftOf(q.focus.node, q.focus.right)] + q.path)
               else Zip(q.focus.right, [RightOf(q.focus.left, q.focus.node)] + q.path)
  }

  lemma ZigZigDown(o: Ops, z: Zip, q: Zip, down: Zip)
    requires z.focus.Br? && |z.path| >= 2 && z.path[0].LeftOf? == z.path[1].LeftOf?
    requires !z.focus.node.lazyExist && PathClean(z.path)
    requires ZigZigMid(o, z, q, down)
    ensures |down.path| == |z.path| - 1 && down.focus == z.focus && PathClean(down.path)
    ensures Abs(Plug(down.focus, down.path)) == Abs(Plug(z.focus, z.path))
    ensures Rank(down) == Rank(z)
    ensures ZipShape(z) ==> ZipShape(down)
    ensures ZipAggs(o, z) ==> ZipAggs(o, down)
  {
    ZigZigDownClean(o, z, q, down);
    ZigZigDownAbs(o, z, q, down);
    ZigZigDownKeeps(o, z, q, down);
  }

  lemma ZigZigDownClean(o: Ops, z: Zip, q: Zip, down: Zip)
    requires z.focus.Br? && |z.path| >= 2 && z.path[0].LeftOf? == z.path[1].LeftOf?
    requires !z.focus.node.lazyExist && PathClean(z.path)
    requires ZigZigMid(o, z, q, down)
    ensures |down.path| == |z.path| - 1 && down.focus == z.focus && PathClean(down.path)
    ensures forall i :: 1 <= i < |down.path| ==> down.path[i] == z.path[i + 1]
  {
    assert PathClean(down.path) by {
      forall i | 0 <= i < |down.path| ensures !down.path[i].up.lazyExist {
        if i > 0 {
          assert down.path[i] == z.path[i + 1];
        }
      }
    }
  }

  lemma ZigZigDownAbs(o: Ops, z: Zip, q: Zip, down: Zip)
    requires z.focus.Br? && |z.path| >= 2 && z.path[0].LeftOf? == z.path[1].LeftOf?
    requires !z.focus.node.lazyExist && PathClean(z.path)
    requires ZigZigMid(o, z, q, down)
    ensures down.focus.Br?
    ensures Abs(Plug(down.focus, down.path)) == Abs(Plug(z.focus, z.path))
    ensures Rank(down) == Rank(z)
  {
    ZigZigDownClean(o, z, q, down);
    var x := z.focus;
    var top := Attach(Attach(x, z.path[0]), z.path[1]);
    assert down.path[1..] == q.path;
    assert Plug(down.focus, down.path) == Plug(q.focus, q.path);
    assert Plug(x, z.path) == Plug(top, z.path[2..]) by {
      assert z.path[1..][1..] == z.path[2..];
    }
    assert q.path == z.path[2..];
    PathCleanTail(z.path[1..]);
    assert z.path[1..][1..] == z.path[2..];
    PlugCongruence(q.focus, top, q.path);
    ZigZigDownRank(o, z, q, down);
  }

  lemma ZigZigDownRank(o: Ops, z: Zip, q: Zip, down: Zip)
    requires z.focus.Br? && |z.path| >= 2 && z.path[0].LeftOf? == z.path[1].LeftOf?
    requires !z.focus.node.lazyExist && PathClean(z.path)
    requires ZigZigMid(o, z, q, down)
    ensures down.focus.Br? && Rank(down) == Rank(z)
  {
    ZigZigDownClean(o, z, q, down);
    assert down.path[1..] == q.path;
    assert z.path[1..][1..] == z.path[2..];
    assert |PathLeft(z.path[1..])| == |PathLeft(z.path[2..])| + (if z.path[1].RightOf? then Size(z.path[1].sibling) + 1 else 0);
  }

  /** Replacing the focus by a subtree that reads the same keeps the whole tree
      reading the same. */
  lemma PlugCongruence(a: Tree, b: Tree, path: seq<Frame>)
    requires PathClean(path) && Abs(a) == Abs(b)
    ensures Abs(Plug(a, path)) == Abs(Plug(b, path))
  {
    PlugAbs(a, path);
    PlugAbs(b, path);
  }

  lemma ZigZigDownKeeps(o: Ops, z: Zip, q: Zip, down: Zip)
    requires z.focus.Br? && |z.path| >= 2 && z.path[0].LeftOf? == z.path[1].LeftOf?
    requires !z.focus.node.lazyExist && PathClean(z.path)
    requires ZigZigMid(o, z, q, down)
    ensures ZipShape(z) ==> ZipShape(down)
    ensures ZipAggs(o, z) ==> ZipAggs(o, down)
  {
    ZigZigDownClean(o, z, q, down);
    RotateKeeps(o, Zip(Attach(z.focus, z.path[0]), z.path[1..]));
    if ZipShape(z) {
      ZigZigDownShape(o, z, q, down);
    }
    if ZipAggs(o, z) {
      ZigZigDownAggs(o, z, q, down);
    }
  }

  lemma ZigZigDownShape(o: Ops, z: Zip, q: Zip, down: Zip)
    requires z.focus.Br? && |z.path| >= 2 && z.path[0].LeftOf? == z.path[1].LeftOf?
    requires !z.focus.node.lazyExist && PathClean(z.path)
    requires ZigZigMid(o, z, q, down)
    requires |down.path| == |z.path| - 1 && down.focus == z.focus
    requires forall i :: 1 <= i < |down.path| ==> down.path[i] == z.path[i + 1]
    requires ZipShape(z)
    ensures ZipShape(down)
  {
    RotateKeeps(o, Zip(Attach(z.focus, z.path[0]), z.path[1..]));
    assert Shape(z.path[0].sibling) && Shape(z.path[1].sibling);
  }

  lemma ZigZigDownAggs(o: Ops, z: Zip, q: Zip, down: Zip)
    requires z.focus.Br? && |z.path| >= 2 && z.path[0].LeftOf? == z.path[1].LeftOf?
    requires !z.focus.node.lazyExist && PathClean(z.path)
    requires ZigZigMid(o, z, q, down)
    requires |down.path| == |z.path| - 1 && down.focus == z.focus
    requires forall i :: 1 <= i < |down.path| ==> down.path[i] == z.path[i + 1]
    requires ZipAggs(o, z)
    ensures ZipAggs(o, down)
  {
    RotateKeeps(o, Zip(Attach(z.focus, z.path[0]), z.path[1..]));
    assert Aggs(o, z.path[0].sibling) && Aggs(o, z.path[1].sibling);
  }

  /** The zig-zag case: rotate x twice. */
  function ZigZag(o: Ops, z: Zip): (r: Zip)
    requires z.focus.Br? && |z.path| >= 2
    requires !z.focus.node.lazyExist && PathClean(z.path)
    ensures |r.path| == |z.path| - 2 && Rearranged(o, z, r)
  {
    RotateRearranges(o, z);
    var once := Rotate(o, z);
    RotateRearranges(o, once);
    Rotate(o, once)
  }

  /** splay(x): rotate x up to the root, pairing rotations from the bottom. */
  function Splay(o: Ops, z: Zip): (r: Tree)
    requires z.focus.Br? && !z.focus.node.lazyExist && PathClean(z.path)
    ensures r.Br? && !r.node.lazyExist && r.node.value == z.focus.node.value
    ensures Abs(r) == Abs(Plug(z.focus, z.path))
    ensures Size(r.left) == Rank(z)
    decreases |z.path|
  {
    if |z.path| == 0 then
      z.focus
    else if |z.path| == 1 then
      RotateRearranges(o, z);
      Rotate(o, z).focus
    else if z.path[0].LeftOf? == z.path[1].LeftOf? then
      Splay(o, ZigZig(o, z))
    else
      Splay(o, ZigZag(o, z))
  }

  /** The invariants a splay keeps: counts and aggregates are exact at the new
      root whenever they were below x and on the path; the root's own are
      recomputed unless x was the root already. */
  lemma {:induction false} SplayKeepsShape(o: Ops, z: Zip)
    requires z.focus.Br? && !z.focus.node.lazyExist && PathClean(z.path)
    ensures ZipShape(z) ==> Loose(Splay(o, z))
    ensures ZipShape(z) && (|z.path| > 0 || Shape(z.focus)) ==> Shape(Splay(o, z))
    decreases |z.path|
  {
    if |z.path| == 1 {
      RotateRearranges(o, z);
    } else if |z.path| >= 2 {
      var z' := if z.path[0].LeftOf? == z.path[1].LeftOf? then ZigZig(o, z) else ZigZag(o, z);
      SplayKeepsShape(o, z');
    }
  }

  /** The same for the aggregates. */
  lemma {:induction false} SplayKeepsAggs(o: Ops, z: Zip)
    requires z.focus.Br? && !z.focus.node.lazyExist && PathClean(z.path)
    ensures ZipAggs(o, z) && (|z.path| > 0 || Aggs(o, z.focus)) ==> Aggs(o, Splay(o, z))
    decreases |z.path|
  {
    if |z.path| == 1 {
      RotateRearranges(o, z);
    } else if |z.path| >= 2 {
      var z' := if z.path[0].LeftOf? == z.path[1].LeftOf? then ZigZig(o, z) else ZigZag(o, z);
      SplayKeepsAggs(o, z');
    }
  }
}
