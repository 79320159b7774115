/** How enterIntoStrip climbs: below the wanted height it jumps through the
    head of the strip where the root path of x reaches the highest height
    recorded in A[x] under the wanted one, and lands on the lowest
    ancestor at the wanted height. */
module LcaClimb {
  import opened NatBits
  import opened CInt
  import opened Optional
  import opened LcaTree
  import opened LcaHeads
  import opened LcaMarks
  import opened BitPositions
  import opened LcaSchieberVishkin
  import opened LcaStrips

  /** The lowest ancestor of x at height j: every ancestor of x at height j encloses it. */
  ghost predicate LowestAt(s: Table, g: Shape, e: int, x: int, j: nat)
  {
    Anc(s, g, e, x) && AtHeight(s, e, j) &&
    forall u :: Anc(s, g, u, x) && AtHeight(s, u, j) ==> Anc(s, g, u, e)
  }

  /** msb(a & (2^j - 1)) is 2^k for the highest set bit k of a below j. */
  lemma HighestBelow(a: int, j: nat, hx: nat) returns (k: nat)
    requires 0 <= a < Two31 && Pow2(j) < Two31 && hx < j && Bit(a, hx) == 1
    ensures Wrap(Pow2(j) - 1) == Pow2(j) - 1
    ensures Msb(BitAnd(a, Pow2(j) - 1)) == Pow2(k) && hx <= k < j && Bit(a, k) == 1
    ensures forall i: nat :: k < i < j ==> Bit(a, i) == 0
  {
    KeepBelow(a, Pow2(j), j);
    assert Wrap(Pow2(j) - 1) == Pow2(j) - 1;
    var low := BitAnd(a, Pow2(j) - 1);
    assert Bit(low, hx) == 1;
    assert 0 < low by {
      if low == 0 {
        BitsAbove(0, 0, hx);
      }
    }
    k := MsbAt(low);
    assert Msb(low) == Pow2(k);
    assert Bit(a, k) == 1 && k < j;
    forall i: nat | k < i < j
      ensures Bit(a, i) == 0
    {
      assert Bit(low, i) == 0;
      BitBinary(a, i);
    }
  }

  /** An ancestor of x is not at a height that A[x] lacks. */
  lemma OffGap(s: Table, g: Shape, x: int, u: int, k: nat, j: nat)
    requires Built(s, g) && x in g.N && Anc(s, g, u, x) && s.I[u] > 0 && 0 <= s.A[x]
    requires forall i: nat :: k < i < j ==> Bit(s.A[x], i) == 0
    ensures Height(s.I[u]) <= k || j <= Height(s.I[u])
  {
    var i := Height(s.I[u]);
    assert AtHeight(s, u, i);
    MarkBit(s, g, x, i);
  }

  /** Below height j, the highest bit of A[x] is the height k of some
      ancestor w of x, and no ancestor of x has a height strictly between k
      and j. */
  lemma ClimbBits(s: Table, g: Shape, x: int, j: nat) returns (k: nat, w: int)
    requires Built(s, g) && x in g.N && 0 < s.I[x] && Height(s.I[x]) < j && Pow2(j) < Two31
    ensures 0 <= s.A[x] < Two31 && Wrap(Pow2(j) - 1) == Pow2(j) - 1
    ensures Msb(BitAnd(s.A[x], Pow2(j) - 1)) == Pow2(k) && k < j
    ensures Anc(s, g, w, x) && AtHeight(s, w, k)
    ensures forall u :: Anc(s, g, u, x) && s.I[u] > 0 ==> Height(s.I[u]) <= k || j <= Height(s.I[u])
  {
    MarkBound(s, g, x);
    var hx := Height(s.I[x]);
    assert Anc(s, g, x, x) && AtHeight(s, x, hx);
    MarkBit(s, g, x, hx);
    k := HighestBelow(s.A[x], j, hx);
    MarkBit(s, g, x, k);
    w :| Anc(s, g, w, x) && AtHeight(s, w, k);
    forall u | Anc(s, g, u, x) && s.I[u] > 0
      ensures Height(s.I[u]) <= k || j <= Height(s.I[u])
    {
      OffGap(s, g, x, u, k, j);
    }
  }

  /** An ancestor w of x at height k carries I[x] with its bits below k
      cleared and bit k set. */
  lemma ClimbCarrier(s: Table, g: Shape, w: int, x: int, k: nat)
    requires Laid(s, g) && Labelled(s, g) && Anc(s, g, w, x) && AtHeight(s, w, k)
    ensures Pow2(k) < Two31 && BitOr(BitAnd(s.I[x], Wrap(BitNot(Pow2(k)) + 1)), Pow2(k)) == s.I[w]
  {
    NodeBounds(s, g, w);
    NodeBounds(s, g, x);
    LsbIsLowBit(s.I[w]);
    var hw := Pow2(k);
    ClearBelow(s.I[x], hw, k);
    var cl := BitAnd(s.I[x], Wrap(BitNot(hw) + 1));
    OrOfNonNegative(cl, hw);
    var c := BitOr(cl, hw);
    CarrierBits(s, g, w, x);
    forall i: nat
      ensures Bit(c, i) == 1 <==> Bit(s.I[w], i) == 1
    {
      OrBits(cl, hw, i);
      Pow2Bits(k, i);
    }
    BitsDetermine(c, s.I[w]);
  }

  /** The top of w's strip, head[I[w]], is an ancestor of w carrying I[w]. */
  lemma StripHead(s: Table, g: Shape, w: int, x: int)
    requires Laid(s, g) && Labelled(s, g) && Anc(s, g, w, x)
    ensures 0 <= s.I[w] < |s.head| && Anc(s, g, s.head[s.I[w]], w) && Anc(s, g, s.head[s.I[w]], x)
    ensures s.I[s.head[s.I[w]]] == s.I[w]
  {
    var h := s.head[s.I[w]];
    CarriersChain(s, g, h, w);
    AncTrans(s, g, h, w, x);
  }

  /** An ancestor u of x higher than an ancestor h of x encloses h's parent. */
  lemma AboveParent(s: Table, g: Shape, x: int, u: int, h: int)
    requires Laid(s, g) && Labelled(s, g) && Anc(s, g, u, x) && Anc(s, g, h, x)
    requires 0 < s.I[u] && 0 < s.I[h] && Height(s.I[h]) < Height(s.I[u])
    ensures h != g.root && Anc(s, g, u, s.parent[h]) && Anc(s, g, s.parent[h], h)
    ensures s.preorder[s.parent[h]] < s.preorder[h]
  {
    AncChain(s, g, u, h, x);
    if Anc(s, g, h, u) {
      Agrees(s, g, h, u);
    }
    AncUp(s, g, u, h);
  }

  /** If w is an ancestor of x at height k < j and x's root path meets no
      height strictly between, the parent of the top of w's strip is the
      lowest ancestor of x at height j. */
  lemma ClimbParent(s: Table, g: Shape, x: int, w0: int, w: int, j: nat, k: nat)
    requires Laid(s, g) && Labelled(s, g) && Anc(s, g, w0, x) && AtHeight(s, w0, j)
    requires Anc(s, g, w, x) && AtHeight(s, w, k) && k < j
    requires forall u :: Anc(s, g, u, x) && s.I[u] > 0 ==> Height(s.I[u]) <= k || j <= Height(s.I[u])
    ensures 0 <= s.I[w] < |s.head| && 0 <= s.head[s.I[w]] < |s.parent|
    ensures LowestAt(s, g, s.parent[s.head[s.I[w]]], x, j)
  {
    StripHead(s, g, w, x);
    var h := s.head[s.I[w]];
    AboveParent(s, g, x, w0, h);
    var p := s.parent[h];
    AncTrans(s, g, p, h, x);
    Agrees(s, g, p, h);
    Agrees(s, g, w0, p);
    if Height(s.I[p]) == k {
      StripMates(s, g, p, x, h, x, k);
    }
    forall u | Anc(s, g, u, x) && AtHeight(s, u, j)
      ensures Anc(s, g, u, p)
    {
      AboveParent(s, g, x, u, h);
    }
  }

  /** enterIntoStrip(x, hz) below hz climbs to the parent of head[c], for c
      the I of the strip entry that msb(A[x] & (hz - 1)) names. */
  lemma EnterVia(s: Table, x: int, hz: int, hw: int, c: int)
    requires 0 <= x < |s.I| && x < |s.A| && Lsb(s.I[x]) != hz
    requires hw == Msb(BitAnd(s.A[x], Wrap(hz - 1)))
    requires c == BitOr(BitAnd(s.I[x], Wrap(BitNot(hw) + 1)), hw)
    requires 0 <= c < |s.head| && 0 <= s.head[c] < |s.parent|
    ensures EnterIntoStrip(s, x, hz) == Some(s.parent[s.head[c]])
  {
    assert BitOr(BitAnd(s.I[x], Wrap(BitNot(hw) + 1)), hw) == c;
  }

  /** When x itself is below height j: the highest bit k of A[x] below j is
      the height of the node w through which x's root path enters the strip,
      I[w] is I[x] with its bits below k cleared and bit k set, head of that
      is the top of w's strip, and its parent is the lowest ancestor of x at
      height j. */
  lemma Climb(s: Table, g: Shape, x: int, w0: int, j: nat)
    requires Built(s, g) && Anc(s, g, w0, x) && AtHeight(s, w0, j) && !AtHeight(s, x, j)
    ensures var e := EnterIntoStrip(s, x, Pow2(j)); e.Some? && LowestAt(s, g, e.value, x, j)
  {
    Agrees(s, g, w0, x);
    NodeBounds(s, g, w0);
    NodeBounds(s, g, x);
    LsbIsLowBit(s.I[w0]);
    LsbIsLowBit(s.I[x]);
    if Lsb(s.I[x]) == Pow2(j) {
      Pow2Injective(Height(s.I[x]), j);
    }
    var k, w := ClimbBits(s, g, x, j);
    ClimbCarrier(s, g, w, x, k);
    ClimbParent(s, g, x, w0, w, j, k);
    EnterVia(s, x, Pow2(j), Pow2(k), s.I[w]);
  }

  /** enterIntoStrip(x, lsb(I[w0])) for an ancestor w0 of x answers the lowest
      ancestor of x at w0's height. */
  lemma EntryAt(s: Table, g: Shape, x: int, w0: int)
    requires Built(s, g) && Anc(s, g, w0, x)
    ensures s.I[w0] > 0
    ensures var e := EnterIntoStrip(s, x, Lsb(s.I[w0]));
      e.Some? && LowestAt(s, g, e.value, x, Height(s.I[w0]))
  {
    NodeBounds(s, g, x);
    NodeBounds(s, g, w0);
    LsbIsLowBit(s.I[w0]);
    LsbIsLowBit(s.I[x]);
    var j := Height(s.I[w0]);
    if AtHeight(s, x, j) {
      forall u | Anc(s, g, u, x) && AtHeight(s, u, j)
        ensures Anc(s, g, u, x)
      {
      }
    } else {
      Climb(s, g, x, w0, j);
    }
  }
}
