/** Why the lowest-common-ancestor queries answer correctly, argued over any
    table laid out the way build leaves one: the nodes N carry preorder
    numbers pre and subtree sizes sz, so that u's subtree is numbered
    pre[u] .. pre[u] + sz[u] - 1; parent links every other node to the nearest
    node enclosing it; I[u] is the number of largest lowest set bit in u's
    subtree and head[i] the topmost node carrying i; and A[u] is the OR of
    lsb(I) along the root path.

    Call the position of lsb(I[u]) the height of u. Heights grow toward the
    root, and every ancestor u of x at height k has the bits of I[x] above k,
    bit k set and nothing below. So A[x] records exactly the heights met on
    x's root path, and the nodes of equal I form vertical runs ("strips"). */
module LcaStrips {
  import opened NatBits
  import opened CInt
  import opened Optional
  import opened LcaTree
  import opened LcaHeads
  import opened LcaMarks
  import opened BitPositions
  import opened LcaSchieberVishkin
  import opened LcaBlocks

  /** The node ids, the root and the subtree sizes (indexed by id). */
  datatype Shape = Shape(N: set<nat>, root: nat, sz: seq<int>)

  /** u is a node and indexes every array. */
  ghost predicate InShape(s: Table, g: Shape, u: int)
  {
    u in g.N && u < |s.parent| && u < |s.preorder| && u < |s.I| && u < |s.A| && u < |g.sz|
  }

  /** u's subtree contains w. */
  ghost predicate Anc(s: Table, g: Shape, u: int, w: int)
  {
    InShape(s, g, u) && InShape(s, g, w) && s.preorder[u] <= s.preorder[w] < s.preorder[u] + g.sz[u]
  }

  /** v's parent is a proper ancestor, and every proper ancestor of v encloses it. */
  ghost predicate Parented(s: Table, g: Shape, v: int)
  {
    InShape(s, g, v) && Anc(s, g, s.parent[v], v) && s.preorder[s.parent[v]] < s.preorder[v] &&
    forall u :: Anc(s, g, u, v) && u != v ==> Anc(s, g, u, s.parent[v])
  }

  /** Preorder numbers and subtree sizes of a tree with at most MaxNodes nodes:
      distinct numbers, nested or disjoint subtrees, the root numbered 0 and
      enclosing everything. */
  ghost predicate Laid(s: Table, g: Shape)
  {
    && InShape(s, g, g.root) && s.preorder[g.root] == 0 && g.sz[g.root] <= MaxNodes
    && (forall u :: u in g.N ==> InShape(s, g, u) && 0 <= s.preorder[u] && 1 <= g.sz[u] && s.preorder[u] + g.sz[u] <= g.sz[g.root])
    && (forall u, v :: InShape(s, g, u) && InShape(s, g, v) && s.preorder[u] == s.preorder[v] ==> u == v)
    && (forall u, v :: Anc(s, g, u, v) ==> s.preorder[v] + g.sz[v] <= s.preorder[u] + g.sz[u])
    && (forall v {:trigger Parented(s, g, v)} :: v in g.N && v != g.root ==> Parented(s, g, v))
  }

  /** What dfs1 leaves in I and head. */
  ghost predicate Labelled(s: Table, g: Shape)
  {
    forall u :: u in g.N ==>
      InShape(s, g, u) && 0 < s.I[u] && TopLsb(s.I[u], s.preorder[u], s.preorder[u] + g.sz[u]) &&
      s.I[u] < |s.head| && InShape(s, g, s.head[s.I[u]]) && s.I[s.head[s.I[u]]] == s.I[u] &&
      s.preorder[s.head[s.I[u]]] <= s.preorder[u]
  }

  /** What dfs2 leaves in A. */
  ghost predicate Marked(s: Table, g: Shape)
  {
    InShape(s, g, g.root) && s.A[g.root] == Lsb(s.I[g.root]) &&
    forall v :: v in g.N && v != g.root ==>
      InShape(s, g, v) && 0 <= s.parent[v] < |s.A| && s.A[v] == BitOr(s.A[s.parent[v]], Lsb(s.I[v]))
  }

  ghost predicate Built(s: Table, g: Shape)
  {
    Laid(s, g) && Labelled(s, g) && Marked(s, g)
  }

  /** u has height j: lsb(I[u]) == 2^j. */
  ghost predicate AtHeight(s: Table, u: int, j: nat)
  {
    0 <= u < |s.I| && s.I[u] > 0 && Height(s.I[u]) == j
  }

  lemma AncTrans(s: Table, g: Shape, u: int, v: int, w: int)
    requires Laid(s, g) && Anc(s, g, u, v) && Anc(s, g, v, w)
    ensures Anc(s, g, u, w)
  {
  }

  lemma AncSame(s: Table, g: Shape, u: int, v: int)
    requires Laid(s, g) && Anc(s, g, u, v) && Anc(s, g, v, u)
    ensures u == v
  {
  }

  /** Two ancestors of one node are nested. */
  lemma AncChain(s: Table, g: Shape, u: int, v: int, x: int)
    requires Anc(s, g, u, x) && Anc(s, g, v, x)
    ensures Anc(s, g, u, v) || Anc(s, g, v, u)
  {
  }

  lemma RootAnc(s: Table, g: Shape, v: int)
    requires Laid(s, g) && v in g.N
    ensures Anc(s, g, g.root, v)
  {
  }

  lemma AncOfRoot(s: Table, g: Shape, u: int)
    requires Laid(s, g) && Anc(s, g, u, g.root)
    ensures u == g.root
  {
  }

  lemma AncUp(s: Table, g: Shape, u: int, v: int)
    requires Laid(s, g) && Anc(s, g, u, v) && u != v
    ensures v != g.root && Anc(s, g, u, s.parent[v]) && Anc(s, g, s.parent[v], v)
    ensures s.preorder[s.parent[v]] < s.preorder[v]
  {
    if v == g.root {
      AncOfRoot(s, g, u);
    }
    assert Parented(s, g, v);
  }

  lemma NodeBounds(s: Table, g: Shape, u: int)
    requires Laid(s, g) && Labelled(s, g) && u in g.N
    ensures 0 < s.I[u] < Two31
  {
  }

  /** An ancestor is at least as high, and agrees with the descendant's I
      above its own height. */
  lemma Agrees(s: Table, g: Shape, u: int, w: int)
    requires Laid(s, g) && Labelled(s, g) && Anc(s, g, u, w)
    ensures 0 < s.I[w] && 0 < s.I[u]
    ensures Height(s.I[w]) <= Height(s.I[u])
    ensures forall i: nat :: i > Height(s.I[u]) ==> Bit(s.I[w], i) == Bit(s.I[u], i)
  {
    RangeAgrees(s.I[u], s.preorder[u], s.preorder[u] + g.sz[u], s.I[w]);
    if Height(s.I[w]) > Height(s.I[u]) {
      Pow2Below(Height(s.I[u]), Height(s.I[w]));
    }
  }

  /** An ancestor u of x at height h has I[u] = the bits of I[x] above h, then bit h. */
  lemma CarrierBits(s: Table, g: Shape, u: int, x: int)
    requires Laid(s, g) && Labelled(s, g) && Anc(s, g, u, x)
    ensures 0 < s.I[u]
    ensures forall i: nat :: Bit(s.I[u], i) == 1 <==> i == Height(s.I[u]) || (i > Height(s.I[u]) && Bit(s.I[x], i) == 1)
  {
    Agrees(s, g, u, x);
    HeightBits(s.I[u]);
  }

  /** Ancestors of x and of y at one height k carry the same I when I[x] and
      I[y] agree above k. */
  lemma StripMates(s: Table, g: Shape, u: int, x: int, v: int, y: int, k: nat)
    requires Laid(s, g) && Labelled(s, g) && Anc(s, g, u, x) && Anc(s, g, v, y)
    requires AtHeight(s, u, k) && AtHeight(s, v, k)
    requires forall i: nat :: i > k ==> Bit(s.I[x], i) == Bit(s.I[y], i)
    ensures s.I[u] == s.I[v]
  {
    CarrierBits(s, g, u, x);
    CarrierBits(s, g, v, y);
    BitsDetermine(s.I[u], s.I[v]);
  }

  /** Nodes carrying one I are nested. */
  lemma CarriersChain(s: Table, g: Shape, u: int, v: int)
    requires Laid(s, g) && Labelled(s, g) && u in g.N && v in g.N && s.I[u] == s.I[v]
    ensures Anc(s, g, u, v) || Anc(s, g, v, u)
  {
  }

  /** A[x] is a non-negative `int`. */
  lemma {:induction false} MarkBound(s: Table, g: Shape, x: int)
    requires Built(s, g) && x in g.N
    ensures 0 <= s.A[x] < Two31
    decreases s.preorder[x]
  {
    NodeBounds(s, g, x);
    LsbIsLowBit(s.I[x]);
    if x != g.root {
      var p := s.parent[x];
      assert Parented(s, g, x);
      MarkBound(s, g, p);
      OrOfNonNegative(s.A[p], Lsb(s.I[x]));
    }
  }

  /** Bit j of A[x] is set exactly when some ancestor of x has height j. */
  lemma {:induction false} MarkBit(s: Table, g: Shape, x: int, j: nat)
    requires Built(s, g) && x in g.N
    ensures 0 <= s.A[x] && (Bit(s.A[x], j) == 1 <==> exists u :: Anc(s, g, u, x) && AtHeight(s, u, j))
    decreases s.preorder[x]
  {
    MarkBound(s, g, x);
    NodeBounds(s, g, x);
    LsbIsLowBit(s.I[x]);
    var h := Height(s.I[x]);
    Pow2Bits(h, j);
    assert Anc(s, g, x, x) && AtHeight(s, x, h);
    if x == g.root {
      if exists u :: Anc(s, g, u, x) && AtHeight(s, u, j) {
        var u :| Anc(s, g, u, x) && AtHeight(s, u, j);
        AncOfRoot(s, g, u);
      }
    } else {
      var p := s.parent[x];
      assert Parented(s, g, x);
      MarkBit(s, g, p, j);
      MarkBound(s, g, p);
      OrOfNonNegative(s.A[p], Lsb(s.I[x]));
      OrBits(s.A[p], LowBit(s.I[x]), j);
      if exists u :: Anc(s, g, u, p) && AtHeight(s, u, j) {
        var u :| Anc(s, g, u, p) && AtHeight(s, u, j);
        AncTrans(s, g, u, p, x);
      }
      if exists u :: Anc(s, g, u, x) && AtHeight(s, u, j) {
        var u :| Anc(s, g, u, x) && AtHeight(s, u, j);
        if u != x {
          AncUp(s, g, u, x);
        }
      }
    }
  }
}
