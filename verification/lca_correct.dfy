/** The table build leaves for a tree is laid out as module LcaStrips asks,
    with the tree's own ancestry: so lca answers the deepest common ancestor
    of any two nodes of the tree, and enterIntoStrip the lowest ancestor of a
    node at a given height. */
module LcaCorrect {
  import opened NatBits
  import opened CInt
  import opened Optional
  import opened LcaTree
  import opened LcaNumbering
  import opened LcaHeads
  import opened LcaMarks
  import opened LcaSchieberVishkin
  import opened BitPositions
  import opened LcaLayout
  import opened LcaStrips
  import opened LcaClimb
  import opened LcaMeet

  /** What build promises about the table r it leaves for t. */
  ghost predicate Facts(t: Rose, r: Table)
  {
    && Bounded(r, |r.parent|) && Fits(Subs(t), |r.parent|) && Distinct(Subs(t))
    && |Subs(t)| <= |r.parent| <= MaxNodes
    && Numbered(Subs(t), r.preorder, 0) && Linked(Subs(t), r.parent)
    && Maxed(Subs(t), r.I, 0) && InRange(Subs(t), r.I, 0, |Subs(t)|)
    && Topmost(Subs(t), r.I, r.head, r.preorder, 0)
    && r.A[t.id] == Lsb(r.I[t.id]) && Ored(Subs(t), r.I, r.A)
  }

  /** The size of the subtree of the node numbered pre[u]. */
  ghost function SizeAt(t: Rose, r: Table, u: int): int
    requires 0 <= u < |r.preorder|
  {
    if 0 <= r.preorder[u] < |Subs(t)| then |Subs(Subs(t)[r.preorder[u]])| else 0
  }

  /** The nodes of t, its root and its subtree sizes indexed by id. */
  ghost function ShapeOf(t: Rose, r: Table): Shape
  {
    Shape(Ids(Subs(t)), t.id, seq(|r.preorder|, u requires 0 <= u < |r.preorder| => SizeAt(t, r, u)))
  }

  lemma FactsHold(t: Rose, s: Table)
    requires Bounded(s, |s.parent|) && Fits(Subs(t), |s.parent|) && Distinct(Subs(t))
    requires |Subs(t)| <= |s.parent| <= MaxNodes
    ensures Facts(t, Build(t, s))
  {
    BuildFacts(t, s);
  }

  /** Node S[m] is numbered m and indexes every array. */
  lemma At(t: Rose, r: Table, m: int)
    requires Facts(t, r) && 0 <= m < |Subs(t)|
    ensures var u := Subs(t)[m].id;
      u in Ids(Subs(t)) && InShape(r, ShapeOf(t, r), u) && r.preorder[u] == m &&
      ShapeOf(t, r).sz[u] == |Subs(Subs(t)[m])|
  {
  }

  /** Every node of t is some S[m]. */
  lemma Where(t: Rose, r: Table, u: int) returns (m: nat)
    requires Facts(t, r) && u in Ids(Subs(t))
    ensures m < |Subs(t)| && Subs(t)[m].id == u
  {
    m :| 0 <= m < |Subs(t)| && Subs(t)[m].id == u;
  }

  /** Subtree b lies inside subtree a when a's slice holds b, and then ends
      no later. */
  lemma Nested(t: Rose, a: nat, b: nat)
    requires a <= b < |Subs(t)| && b < a + |Subs(Subs(t)[a])|
    ensures a + |Subs(Subs(t)[a])| <= |Subs(t)|
    ensures Subs(Subs(t)[a])[b - a] == Subs(t)[b]
    ensures b + |Subs(Subs(t)[b])| <= a + |Subs(Subs(t)[a])|
  {
    SliceAt(t, a);
    var k := Subs(t)[a];
    assert Subs(t)[a .. a + |Subs(k)|][b - a] == Subs(t)[b];
    SliceAt(k, b - a);
  }

  /** Position i of S[a]'s subtree is position a + i of S. */
  lemma SliceIndex(t: Rose, a: nat, i: nat)
    requires a < |Subs(t)| && i < |Subs(Subs(t)[a])|
    ensures a + i < |Subs(t)| && Subs(t)[a + i] == Subs(Subs(t)[a])[i]
  {
    SliceAt(t, a);
    assert Subs(t)[a .. a + |Subs(Subs(t)[a])|][i] == Subs(t)[a + i];
  }

  lemma TreeToTable(t: Rose, r: Table, u: int, w: int)
    requires Facts(t, r) && IsAncestor(t, u, w)
    ensures Anc(r, ShapeOf(t, r), u, w)
  {
    var S := Subs(t);
    var a :| 0 <= a < |S| && S[a].id == u && w in Ids(Subs(S[a]));
    var i :| 0 <= i < |Subs(S[a])| && Subs(S[a])[i].id == w;
    SliceIndex(t, a, i);
    At(t, r, a);
    At(t, r, a + i);
  }

  lemma TableToTree(t: Rose, r: Table, u: int, w: int)
    requires Facts(t, r) && Anc(r, ShapeOf(t, r), u, w)
    ensures IsAncestor(t, u, w)
  {
    var S := Subs(t);
    var a := Where(t, r, u);
    var b := Where(t, r, w);
    At(t, r, a);
    At(t, r, b);
    Nested(t, a, b);
    assert Subs(S[a])[b - a].id == w;
  }

  /** Ancestry in the table is ancestry in the tree. */
  lemma AncIff(t: Rose, r: Table, u: int, w: int)
    requires Facts(t, r)
    ensures IsAncestor(t, u, w) <==> Anc(r, ShapeOf(t, r), u, w)
  {
    if IsAncestor(t, u, w) {
      TreeToTable(t, r, u, w);
    }
    if Anc(r, ShapeOf(t, r), u, w) {
      TableToTree(t, r, u, w);
    }
  }

  /** Subtrees are nested or disjoint: a subtree inside another ends no later. */
  lemma LaidNest(t: Rose, r: Table, u: int, v: int)
    requires Facts(t, r) && Anc(r, ShapeOf(t, r), u, v)
    ensures r.preorder[v] + ShapeOf(t, r).sz[v] <= r.preorder[u] + ShapeOf(t, r).sz[u]
  {
    var a := Where(t, r, u);
    var b := Where(t, r, v);
    At(t, r, a);
    At(t, r, b);
    Nested(t, a, b);
  }

  /** A subtree slice q holding position m (q != m) holds position p too,
      when no position between p and m starts a slice reaching m. */
  lemma Encloses(t: Rose, m: nat, p: nat, q: nat)
    requires p < m < |Subs(t)| && m < p + |Subs(Subs(t)[p])|
    requires forall q' :: p < q' < m ==> q' + |Subs(Subs(t)[q'])| <= m
    requires q < |Subs(t)| && q < m < q + |Subs(Subs(t)[q])|
    ensures q <= p < q + |Subs(Subs(t)[q])|
  {
  }

  /** S[m], m > 0, has as parent the nearest node enclosing it. */
  lemma LaidParent(t: Rose, r: Table, m: nat) returns (p: nat)
    requires Facts(t, r) && 0 < m < |Subs(t)|
    ensures p < m && r.parent[Subs(t)[m].id] == Subs(t)[p].id
    ensures Parented(r, ShapeOf(t, r), Subs(t)[m].id)
  {
    var S := Subs(t);
    var g := ShapeOf(t, r);
    var j;
    p, j := ParentAt(t, m);
    assert S[p].kids[j].id == S[m].id;
    var v := S[m].id;
    At(t, r, m);
    At(t, r, p);
    forall u | Anc(r, g, u, v) && u != v
      ensures Anc(r, g, u, r.parent[v])
    {
      var q := Where(t, r, u);
      At(t, r, q);
      assert q != m;
      assert q < m < q + |Subs(S[q])|;
      Encloses(t, m, p, q);
    }
  }

  /** Preorder numbers are distinct. */
  lemma LaidDistinct(t: Rose, r: Table, u: int, v: int)
    requires Facts(t, r) && InShape(r, ShapeOf(t, r), u) && InShape(r, ShapeOf(t, r), v)
    requires r.preorder[u] == r.preorder[v]
    ensures u == v
  {
    var a := Where(t, r, u);
    var b := Where(t, r, v);
    At(t, r, a);
    At(t, r, b);
  }

  lemma LaidHolds(t: Rose, r: Table)
    requires Facts(t, r)
    ensures Laid(r, ShapeOf(t, r))
  {
    var S := Subs(t);
    var g := ShapeOf(t, r);
    At(t, r, 0);
    forall u | u in g.N
      ensures InShape(r, g, u) && 0 <= r.preorder[u] && 1 <= g.sz[u] && r.preorder[u] + g.sz[u] <= g.sz[g.root]
    {
      var a := Where(t, r, u);
      At(t, r, a);
      SliceAt(t, a);
    }
    forall u, v | InShape(r, g, u) && InShape(r, g, v) && r.preorder[u] == r.preorder[v]
      ensures u == v
    {
      LaidDistinct(t, r, u, v);
    }
    forall u, v | Anc(r, g, u, v)
      ensures r.preorder[v] + g.sz[v] <= r.preorder[u] + g.sz[u]
    {
      LaidNest(t, r, u, v);
    }
    forall v | v in g.N && v != g.root
      ensures Parented(r, g, v)
    {
      var m := Where(t, r, v);
      var p := LaidParent(t, r, m);
    }
  }

  /** With two or more nodes the root's I is positive: number 1 has a set bit. */
  lemma RootPositive(t: Rose, r: Table)
    requires Facts(t, r) && |Subs(t)| >= 2
    ensures t.id < |r.I| && r.I[t.id] > 0
  {
    At(t, r, 0);
    assert Rank(1) <= Rank(r.I[t.id]);
  }

  /** What dfs1 leaves at one node, in the terms of module LcaStrips. */
  lemma LabelledAt(t: Rose, r: Table, u: int)
    requires Facts(t, r) && |Subs(t)| >= 2 && u in Ids(Subs(t))
    ensures var g := ShapeOf(t, r);
      InShape(r, g, u) && 0 < r.I[u] && TopLsb(r.I[u], r.preorder[u], r.preorder[u] + g.sz[u]) &&
      r.I[u] < |r.head| && InShape(r, g, r.head[r.I[u]]) && r.I[r.head[r.I[u]]] == r.I[u] &&
      r.preorder[r.head[r.I[u]]] <= r.preorder[u]
  {
    var a := Where(t, r, u);
    At(t, r, a);
    var h := r.head[r.I[u]];
    assert h in Ids(Subs(t));
    var b := Where(t, r, h);
    At(t, r, b);
    if a == 0 {
      RootPositive(t, r);
    }
  }

  lemma LabelledHolds(t: Rose, r: Table)
    requires Facts(t, r) && |Subs(t)| >= 2
    ensures Labelled(r, ShapeOf(t, r))
  {
    forall u | u in ShapeOf(t, r).N
      ensures var g := ShapeOf(t, r);
        InShape(r, g, u) && 0 < r.I[u] && TopLsb(r.I[u], r.preorder[u], r.preorder[u] + g.sz[u]) &&
        r.I[u] < |r.head| && InShape(r, g, r.head[r.I[u]]) && r.I[r.head[r.I[u]]] == r.I[u] &&
        r.preorder[r.head[r.I[u]]] <= r.preorder[u]
    {
      LabelledAt(t, r, u);
    }
  }

  lemma MarkedHolds(t: Rose, r: Table)
    requires Facts(t, r)
    ensures Marked(r, ShapeOf(t, r))
  {
    var S := Subs(t);
    var g := ShapeOf(t, r);
    At(t, r, 0);
    forall v | v in g.N && v != g.root
      ensures InShape(r, g, v) && 0 <= r.parent[v] < |r.A| && r.A[v] == BitOr(r.A[r.parent[v]], Lsb(r.I[v]))
    {
      var m := Where(t, r, v);
      At(t, r, m);
      var p, j := ParentAt(t, m);
      assert S[p].kids[j].id == v;
      assert MarkedFrom(S[p].kids, r.I, r.A, r.A[S[p].id]);
    }
  }

  lemma BuiltHolds(t: Rose, r: Table)
    requires Facts(t, r) && |Subs(t)| >= 2
    ensures Built(r, ShapeOf(t, r))
  {
    LaidHolds(t, r);
    LabelledHolds(t, r);
    MarkedHolds(t, r);
  }

  /** A tree of one node: its only node is its own only ancestor. */
  lemma Single(t: Rose, u: int, w: int)
    requires |Subs(t)| == 1
    ensures IsAncestor(t, u, w) <==> u == t.id && w == t.id
  {
    if u == t.id && w == t.id {
      assert Subs(t)[0].id == u && Subs(Subs(t)[0])[0].id == w;
    }
  }

  /** lca(x, y), for nodes x and y of the tree build was given, is their
      deepest common ancestor: an ancestor of both that every common
      ancestor of x and y encloses. */
  lemma LcaCorrect(t: Rose, s: Table, x: int, y: int)
    requires Bounded(s, |s.parent|) && Fits(Subs(t), |s.parent|) && Distinct(Subs(t))
    requires |Subs(t)| <= |s.parent| <= MaxNodes
    requires x in Ids(Subs(t)) && y in Ids(Subs(t))
    ensures var z := Lca(Build(t, s), x, y);
      z.Some? && IsAncestor(t, z.value, x) && IsAncestor(t, z.value, y) &&
      forall u :: IsAncestor(t, u, x) && IsAncestor(t, u, y) ==> IsAncestor(t, u, z.value)
  {
    var r := Build(t, s);
    FactsHold(t, s);
    if |Subs(t)| == 1 {
      assert x == t.id && y == t.id;
      LcaSelf(t, s, x);
      Single(t, x, x);
      forall u | IsAncestor(t, u, x) && IsAncestor(t, u, y)
        ensures IsAncestor(t, u, x)
      {
      }
    } else {
      var g := ShapeOf(t, r);
      BuiltHolds(t, r);
      LcaAt(r, g, x, y);
      var z := Lca(r, x, y).value;
      AncIff(t, r, z, x);
      AncIff(t, r, z, y);
      forall u | IsAncestor(t, u, x) && IsAncestor(t, u, y)
        ensures IsAncestor(t, u, z)
      {
        AncIff(t, r, u, x);
        AncIff(t, r, u, y);
        AncIff(t, r, u, z);
      }
    }
  }

  /** enterIntoStrip(x, lsb(I[u])) for an ancestor u of x, after build,
      answers the lowest ancestor e of x whose I has the same lowest set bit
      as I[u]: every such ancestor of x encloses e. */
  lemma StripEntry(t: Rose, s: Table, x: int, u: int)
    requires Bounded(s, |s.parent|) && Fits(Subs(t), |s.parent|) && Distinct(Subs(t))
    requires |Subs(t)| <= |s.parent| <= MaxNodes
    requires IsAncestor(t, u, x)
    ensures var r := Build(t, s);
      0 <= u < |r.I| && var e := EnterIntoStrip(r, x, Lsb(r.I[u]));
      e.Some? && IsAncestor(t, e.value, x) && 0 <= e.value < |r.I| && Lsb(r.I[e.value]) == Lsb(r.I[u]) &&
      forall v :: IsAncestor(t, v, x) && 0 <= v < |r.I| && Lsb(r.I[v]) == Lsb(r.I[u]) ==> IsAncestor(t, v, e.value)
  {
    var r := Build(t, s);
    FactsHold(t, s);
    AncIff(t, r, u, x);
    var g := ShapeOf(t, r);
    if |Subs(t)| == 1 {
      Single(t, u, x);
      At(t, r, 0);
      forall v | IsAncestor(t, v, x) && 0 <= v < |r.I| && Lsb(r.I[v]) == Lsb(r.I[u])
        ensures IsAncestor(t, v, x)
      {
      }
    } else {
      BuiltHolds(t, r);
      EntryAt(r, g, x, u);
      var j := Height(r.I[u]);
      var e := EnterIntoStrip(r, x, Lsb(r.I[u])).value;
      AncIff(t, r, e, x);
      SameHeight(r, g, e, u, j);
      forall v | IsAncestor(t, v, x) && 0 <= v < |r.I| && Lsb(r.I[v]) == Lsb(r.I[u])
        ensures IsAncestor(t, v, e)
      {
        AncIff(t, r, v, x);
        AncIff(t, r, v, e);
        SameHeight(r, g, v, u, j);
      }
    }
  }

  /** For nodes of a built table, equal lowest set bits of I mean equal heights. */
  lemma SameHeight(r: Table, g: Shape, v: int, u: int, j: nat)
    requires Built(r, g) && v in g.N && u in g.N && AtHeight(r, u, j)
    ensures Lsb(r.I[v]) == Lsb(r.I[u]) <==> AtHeight(r, v, j)
  {
    NodeBounds(r, g, u);
    NodeBounds(r, g, v);
    LsbIsLowBit(r.I[u]);
    LsbIsLowBit(r.I[v]);
    if Lsb(r.I[v]) == Lsb(r.I[u]) {
      Pow2Injective(Height(r.I[v]), j);
    }
  }
}
