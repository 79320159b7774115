/** The Schieber–Vishkin lowest-common-ancestor structure. `dfs1` numbers the
    nodes in preorder and gives each node u the number I[u] of largest lowest
    set bit inside u's subtree; `dfs2` stores in A[u] the OR of those lowest
    bits along the root path; `lca` answers a query with bit tricks on these. */
module LcaSchieberVishkin {
  import opened NatBits
  import opened CInt
  import opened Optional
  import opened LcaTree
  import opened LcaNumbering
  import opened LcaHeads
  import opened LcaMarks

  /** build(root): the clock is reset, then dfs1(root, -1) and dfs2(root, 0).
      The tree's ids are distinct nodes below N, so it has at most N nodes. */
  function Build(t: Rose, s: Table): (r: Table)
    requires Bounded(s, |s.parent|) && Fits(Subs(t), |s.parent|) && Distinct(Subs(t))
    requires |Subs(t)| <= |s.parent| <= MaxNodes
    ensures Bounded(r, |s.parent|) && r.time == |Subs(t)|
  {
    Dfs2(t, 0, Dfs1(t, -1, s.(time := 0)))
  }

  /** What build leaves behind: the preorder numbering, the parent links, the
      subtree maxima in I, the topmost carriers in head, and the OR chains in A. */
  lemma BuildFacts(t: Rose, s: Table)
    requires Bounded(s, |s.parent|) && Fits(Subs(t), |s.parent|) && Distinct(Subs(t))
    requires |Subs(t)| <= |s.parent| <= MaxNodes
    ensures var r := Build(t, s);
      Numbered(Subs(t), r.preorder, 0) && r.parent[t.id] == -1 && Linked(Subs(t), r.parent) &&
      Maxed(Subs(t), r.I, 0) && InRange(Subs(t), r.I, 0, |Subs(t)|) &&
      Topmost(Subs(t), r.I, r.head, r.preorder, 0) &&
      r.A[t.id] == Lsb(r.I[t.id]) && Ored(Subs(t), r.I, r.A) && Carries(Subs(t), r.I, r.A)
  {
    var s0 := s.(time := 0);
    var s1 := Dfs1(t, -1, s0);
    Dfs1Numbers(t, -1, s0);
    assert [t][0] == t;
    Dfs1Max(t, -1, s0);
    Dfs1Topmost(t, -1, s0);
    Dfs2Ors(t, 0, s1);
    Dfs2Carries(t, 0, s1);
    var i := s1.I[t.id];
    LsbIsLowBit(i);
    OrOfNonNegative(0, Lsb(i));
  }

  /** enterIntoStrip(x, hz): x itself when lsb(I[x]) == hz, else
      parent[head[(I[x] & (~hw + 1)) | hw]] with hw = msb(A[x] & (hz - 1)).
      An index that leaves an array, undefined in the source, gives None. */
  function EnterIntoStrip(s: Table, x: int, hz: int): (r: Option<int>)
    ensures r.Some? ==> 0 <= x < |s.I| && x < |s.A| && (r.value == x || r.value in s.parent)
  {
    if !(0 <= x < |s.I| && x < |s.A|) then None
    else if Lsb(s.I[x]) == hz then Some(x)
    else
      var hw := Msb(BitAnd(s.A[x], Wrap(hz - 1)));
      var k := BitOr(BitAnd(s.I[x], Wrap(BitNot(hw) + 1)), hw);
      if 0 <= k < |s.head| && 0 <= s.head[k] < |s.parent| then Some(s.parent[s.head[k]]) else None
  }

  /** hb of lca: lsb(ix) when ix == iy, else msb(ix ^ iy), the highest bit where they differ. */
  function SplitBit(ix: int, iy: int): (r: int)
    ensures IsInt(r)
  {
    if ix == iy then Lsb(ix) else Msb(BitXor(ix, iy))
  }

  /** hz of lca: lsb(ax & ay & (~hb + 1)), the lowest bit at or above hb common to both A entries. */
  function StripBit(ax: int, ay: int, hb: int): (r: int)
    requires IsInt(hb)
    ensures IsInt(r)
  {
    Lsb(BitAnd(BitAnd(ax, ay), Wrap(BitNot(hb) + 1)))
  }

  /** Neither hb nor hz depends on the order of the two nodes. */
  lemma BitsSymmetric(ix: int, iy: int, ax: int, ay: int, hb: int)
    requires IsInt(hb)
    ensures SplitBit(ix, iy) == SplitBit(iy, ix) && StripBit(ax, ay, hb) == StripBit(ay, ax, hb)
  {
    XorComm(Pattern(ix), Pattern(iy));
    AndComm(Pattern(ax), Pattern(ay));
  }

  /** lca(x, y): hb is lsb(I[x]) when I[x] == I[y] and msb(I[x] ^ I[y])
      otherwise; hz = lsb(A[x] & A[y] & (~hb + 1)); both nodes enter the strip
      of hz and the one earlier in preorder is the answer. */
  function Lca(s: Table, x: int, y: int): (r: Option<int>)
    ensures r.Some? ==> 0 <= x < |s.I| && 0 <= y < |s.I| && 0 <= r.value < |s.preorder|
  {
    if !(0 <= x < |s.I| && x < |s.A| && 0 <= y < |s.I| && y < |s.A|) then None
    else
      var hz := StripBit(s.A[x], s.A[y], SplitBit(s.I[x], s.I[y]));
      Earlier(s, EnterIntoStrip(s, x, hz), EnterIntoStrip(s, y, hz))
  }

  /** Of two strip entries, the one earlier in preorder. */
  function Earlier(s: Table, ex: Option<int>, ey: Option<int>): (r: Option<int>)
    ensures r.Some? ==> ex.Some? && ey.Some? && (r == ex || r == ey) && 0 <= r.value < |s.preorder|
  {
    match (ex, ey)
    case (Some(a), Some(b)) =>
      if 0 <= a < |s.preorder| && 0 <= b < |s.preorder| then
        Some(if s.preorder[a] < s.preorder[b] then a else b)
      else None
    case _ => None
  }

  /** A node whose A entry contains the lowest set bit of its I (as dfs2
      leaves every node) is its own lowest common ancestor. */
  lemma LcaSelfAt(s: Table, x: int)
    requires 0 <= x < |s.I| && x < |s.A| && x < |s.preorder|
    requires 0 <= s.I[x] < Two31 && 0 <= s.A[x] < Two31
    requires And(s.A[x], LowBit(s.I[x])) == LowBit(s.I[x])
    ensures Lca(s, x, x) == Some(x)
  {
    var i, a := s.I[x], s.A[x];
    assert SplitBit(i, i) == Lsb(i);
    LsbIsLowBit(i);
    BitAndSelf(a);
    if i == 0 {
      BitAndZero(a);
    } else {
      var q := LowBitIsLowest(i);
      LsbAboveMask(a, Lsb(i));
    }
  }

  /** After build, every node of the tree is its own lowest common ancestor. */
  lemma LcaSelf(t: Rose, s: Table, x: nat)
    requires Bounded(s, |s.parent|) && Fits(Subs(t), |s.parent|) && Distinct(Subs(t))
    requires |Subs(t)| <= |s.parent| <= MaxNodes
    requires x in Ids(Subs(t))
    ensures Lca(Build(t, s), x, x) == Some(x)
  {
    BuildFacts(t, s);
    var r := Build(t, s);
    var m :| 0 <= m < |Subs(t)| && Subs(t)[m].id == x;
    LcaSelfAt(r, x);
  }

  /** lca is symmetric once no two nodes share a preorder number: both
      nodes compute the same hz, and the comparison picks the same node. */
  /** With distinct preorder numbers, the earlier of two entries does not
      depend on their order. */
  lemma EarlierSymmetric(s: Table, ex: Option<int>, ey: Option<int>)
    requires forall i, j :: 0 <= i < j < |s.preorder| ==> s.preorder[i] != s.preorder[j]
    ensures Earlier(s, ex, ey) == Earlier(s, ey, ex)
  {
    if ex.Some? && ey.Some? && 0 <= ex.value < |s.preorder| && 0 <= ey.value < |s.preorder| && ex != ey {
      assert s.preorder[ex.value] != s.preorder[ey.value] by {
        if ex.value < ey.value {
          assert s.preorder[ex.value] != s.preorder[ey.value];
        } else {
          assert s.preorder[ey.value] != s.preorder[ex.value];
        }
      }
    }
  }

  lemma LcaSymmetric(s: Table, x: int, y: int)
    requires forall i, j :: 0 <= i < j < |s.preorder| ==> s.preorder[i] != s.preorder[j]
    ensures Lca(s, x, y) == Lca(s, y, x)
  {
    if 0 <= x < |s.I| && x < |s.A| && 0 <= y < |s.I| && y < |s.A| {
      var hb := SplitBit(s.I[x], s.I[y]);
      BitsSymmetric(s.I[x], s.I[y], s.A[x], s.A[y], hb);
      var hz := StripBit(s.A[x], s.A[y], hb);
      EarlierSymmetric(s, EnterIntoStrip(s, x, hz), EnterIntoStrip(s, y, hz));
    }
  }
}
