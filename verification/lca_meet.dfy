/** How lca picks the strip: hb is the split bit of I[x] and I[y], hz the
    lowest height at or above it met on both root paths, and the entry
    into that strip that comes first in preorder is the lowest common
    ancestor. */
module LcaMeet {
  import opened NatBits
  import opened CInt
  import opened Optional
  import opened LcaTree
  import opened LcaHeads
  import opened LcaMarks
  import opened BitPositions
  import opened LcaSchieberVishkin
  import opened LcaStrips
  import opened LcaClimb

  /** hb of lca is 2^d: I[x] and I[y] agree above d, and d is where they
      differ, or the height of both when they are equal. */
  lemma SplitAt(ix: int, iy: int) returns (d: nat)
    requires 0 < ix < Two31 && 0 < iy < Two31
    ensures SplitBit(ix, iy) == Pow2(d)
    ensures forall i: nat :: i > d ==> Bit(ix, i) == Bit(iy, i)
    ensures ix == iy ==> d == Height(ix)
    ensures ix != iy ==> Bit(ix, d) != Bit(iy, d)
  {
    if ix == iy {
      LsbIsLowBit(ix);
      d := Height(ix);
    } else {
      XorOfNonNegatives(ix, iy);
      var v := Xor(ix, iy);
      if v == 0 {
        forall i: nat
          ensures Bit(ix, i) == 1 <==> Bit(iy, i) == 1
        {
          XorBits(ix, iy, i);
          BitsAbove(0, 0, i);
          BitBinary(ix, i);
          BitBinary(iy, i);
        }
        BitsDetermine(ix, iy);
      }
      d := MsbAt(v);
      XorBits(ix, iy, d);
      forall i: nat | i > d
        ensures Bit(ix, i) == Bit(iy, i)
      {
        XorBits(ix, iy, i);
        BitBinary(ix, i);
        BitBinary(iy, i);
      }
    }
  }

  /** A common ancestor of x and y is at least as high as the split bit. */
  lemma CommonAboveSplit(s: Table, g: Shape, w: int, x: int, y: int, d: nat)
    requires Laid(s, g) && Labelled(s, g) && Anc(s, g, w, x) && Anc(s, g, w, y)
    requires forall i: nat :: i > d ==> Bit(s.I[x], i) == Bit(s.I[y], i)
    requires s.I[x] == s.I[y] ==> d == Height(s.I[x])
    requires s.I[x] != s.I[y] ==> Bit(s.I[x], d) != Bit(s.I[y], d)
    ensures 0 < s.I[w] && d <= Height(s.I[w])
  {
    Agrees(s, g, w, x);
    Agrees(s, g, w, y);
  }

  /** lsb(ax & ay & (~2^d + 1)) is 2^j for the lowest j >= d where both ax
      and ay have a set bit. */
  lemma CommonBitAt(ax: int, ay: int, d: nat, hr: nat) returns (j: nat)
    requires 0 <= ax < Two31 && 0 <= ay < Two31 && Pow2(d) < Two31
    requires d <= hr && Bit(ax, hr) == 1 && Bit(ay, hr) == 1
    ensures StripBit(ax, ay, Pow2(d)) == Pow2(j) && d <= j
    ensures Bit(ax, j) == 1 && Bit(ay, j) == 1
    ensures forall i: nat :: d <= i < j ==> Bit(ax, i) == 0 || Bit(ay, i) == 0
  {
    AndOfNonNegatives(ax, ay);
    var both := BitAnd(ax, ay);
    ClearBelow(both, Pow2(d), d);
    var v := BitAnd(both, Wrap(BitNot(Pow2(d)) + 1));
    AndBits(ax, ay, hr);
    assert Bit(v, hr) == 1;
    if v == 0 {
      BitsAbove(0, 0, hr);
    }
    j := Height(v);
    HeightBits(v);
    LsbIs(v, j);
    AndBits(ax, ay, j);
    forall i: nat | d <= i < j
      ensures Bit(ax, i) == 0 || Bit(ay, i) == 0
    {
      AndBits(ax, ay, i);
      BitBinary(ax, i);
      BitBinary(ay, i);
    }
  }

  /** When A[x] and A[y] share bit j and I[x], I[y] agree above j, x and y
      have a common ancestor at height j. */
  lemma StripWitness(s: Table, g: Shape, x: int, y: int, j: nat) returns (c0: int)
    requires Built(s, g) && x in g.N && y in g.N && 0 <= s.A[x] && 0 <= s.A[y]
    requires Bit(s.A[x], j) == 1 && Bit(s.A[y], j) == 1
    requires forall i: nat :: i > j ==> Bit(s.I[x], i) == Bit(s.I[y], i)
    ensures Anc(s, g, c0, x) && Anc(s, g, c0, y) && AtHeight(s, c0, j)
  {
    MarkBit(s, g, x, j);
    MarkBit(s, g, y, j);
    var u :| Anc(s, g, u, x) && AtHeight(s, u, j);
    var u' :| Anc(s, g, u', y) && AtHeight(s, u', j);
    StripMates(s, g, u, x, u', y, j);
    CarriersChain(s, g, u, u');
    if Anc(s, g, u, u') {
      AncTrans(s, g, u, u', y);
      c0 := u;
    } else {
      AncTrans(s, g, u', u, x);
      c0 := u';
    }
  }

  /** The split bit of two positive `int`s is below 2^31. */
  lemma SplitBound(ix: int, iy: int, d: nat)
    requires 0 < ix < Two31 && 0 < iy < Two31 && SplitBit(ix, iy) == Pow2(d)
    ensures Pow2(d) < Two31
  {
    if ix == iy {
      LsbIsLowBit(ix);
    } else {
      XorOfNonNegatives(ix, iy);
      MsbIsHighBit(1);
      if Xor(ix, iy) > 0 {
        MsbIsHighBit(Xor(ix, iy));
      }
    }
  }

  /** A common ancestor of x and y sits at a height at or above the split
      bit d where both A[x] and A[y] have a set bit, so not below j when no
      height in d .. j-1 is shared. */
  lemma StripFloor(s: Table, g: Shape, x: int, y: int, d: nat, j: nat, w: int)
    requires Built(s, g) && Anc(s, g, w, x) && Anc(s, g, w, y)
    requires forall i: nat :: i > d ==> Bit(s.I[x], i) == Bit(s.I[y], i)
    requires s.I[x] == s.I[y] ==> d == Height(s.I[x])
    requires s.I[x] != s.I[y] ==> Bit(s.I[x], d) != Bit(s.I[y], d)
    requires 0 <= s.A[x] && 0 <= s.A[y]
    requires forall i: nat :: d <= i < j ==> Bit(s.A[x], i) == 0 || Bit(s.A[y], i) == 0
    ensures 0 < s.I[w] && j <= Height(s.I[w])
  {
    CommonAboveSplit(s, g, w, x, y, d);
    var hw := Height(s.I[w]);
    assert AtHeight(s, w, hw);
    MarkBit(s, g, x, hw);
    MarkBit(s, g, y, hw);
  }

  /** hz of lca is 2^j for the lowest height j at or above the split bit met
      on both root paths; there is a common ancestor at that height, and none
      lower than it at any height between. */
  lemma StripAt(s: Table, g: Shape, x: int, y: int) returns (j: nat, c0: int)
    requires Built(s, g) && x in g.N && y in g.N
    ensures 0 <= s.A[x] < Two31 && 0 <= s.A[y] < Two31 && 0 < s.I[x] < Two31 && 0 < s.I[y] < Two31
    ensures StripBit(s.A[x], s.A[y], SplitBit(s.I[x], s.I[y])) == Pow2(j)
    ensures Anc(s, g, c0, x) && Anc(s, g, c0, y) && AtHeight(s, c0, j)
    ensures forall i: nat :: i > j ==> Bit(s.I[x], i) == Bit(s.I[y], i)
    ensures forall w :: Anc(s, g, w, x) && Anc(s, g, w, y) ==> 0 < s.I[w] && j <= Height(s.I[w])
  {
    NodeBounds(s, g, x);
    NodeBounds(s, g, y);
    MarkBound(s, g, x);
    MarkBound(s, g, y);
    var d := SplitAt(s.I[x], s.I[y]);
    SplitBound(s.I[x], s.I[y], d);
    RootAnc(s, g, x);
    RootAnc(s, g, y);
    CommonAboveSplit(s, g, g.root, x, y, d);
    var hr := Height(s.I[g.root]);
    assert AtHeight(s, g.root, hr);
    MarkBit(s, g, x, hr);
    MarkBit(s, g, y, hr);
    j := CommonBitAt(s.A[x], s.A[y], d, hr);
    c0 := StripWitness(s, g, x, y, j);
    forall w | Anc(s, g, w, x) && Anc(s, g, w, y)
      ensures 0 < s.I[w] && j <= Height(s.I[w])
    {
      StripFloor(s, g, x, y, d, j, w);
    }
  }

  /** A common ancestor w of x and y at height j or above encloses a common
      ancestor z that is the lowest ancestor at height j of x or of y. */
  lemma LcaFloor(s: Table, g: Shape, x: int, y: int, z: int, j: nat, w: int)
    requires Laid(s, g) && Labelled(s, g) && Anc(s, g, z, x) && Anc(s, g, z, y)
    requires LowestAt(s, g, z, x, j) || LowestAt(s, g, z, y, j)
    requires Anc(s, g, w, x) && Anc(s, g, w, y) && 0 < s.I[w] && j <= Height(s.I[w])
    ensures Anc(s, g, w, z)
  {
    AncChain(s, g, w, z, x);
    if Anc(s, g, z, w) {
      Agrees(s, g, z, w);
    }
  }

  /** lca answers the entry into the strip of hz that comes first in preorder. */
  lemma LcaPicks(s: Table, x: int, y: int, ex: int, ey: int)
    requires 0 <= x < |s.I| && x < |s.A| && 0 <= y < |s.I| && y < |s.A|
    requires 0 <= ex < |s.preorder| && 0 <= ey < |s.preorder|
    requires var hz := StripBit(s.A[x], s.A[y], SplitBit(s.I[x], s.I[y]));
      EnterIntoStrip(s, x, hz) == Some(ex) && EnterIntoStrip(s, y, hz) == Some(ey)
    ensures Lca(s, x, y) == Some(if s.preorder[ex] < s.preorder[ey] then ex else ey)
  {
    assert Lca(s, x, y) == Earlier(s, Some(ex), Some(ey));
  }

  /** lca(x, y) is the deepest common ancestor of x and y. */
  lemma LcaAt(s: Table, g: Shape, x: int, y: int)
    requires Built(s, g) && x in g.N && y in g.N
    ensures var r := Lca(s, x, y);
      r.Some? && Anc(s, g, r.value, x) && Anc(s, g, r.value, y) &&
      forall w :: Anc(s, g, w, x) && Anc(s, g, w, y) ==> Anc(s, g, w, r.value)
  {
    var j, c0 := StripAt(s, g, x, y);
    LsbIsLowBit(s.I[c0]);
    EntryAt(s, g, x, c0);
    EntryAt(s, g, y, c0);
    var hz := Lsb(s.I[c0]);
    var ex := EnterIntoStrip(s, x, hz).value;
    var ey := EnterIntoStrip(s, y, hz).value;
    StripMates(s, g, ex, x, ey, y, j);
    CarriersChain(s, g, ex, ey);
    var z := if s.preorder[ex] < s.preorder[ey] then ex else ey;
    if z == ex {
      AncTrans(s, g, ex, ey, y);
    } else {
      AncTrans(s, g, ey, ex, x);
    }
    LcaPicks(s, x, y, ex, ey);
    forall w | Anc(s, g, w, x) && Anc(s, g, w, y)
      ensures Anc(s, g, w, z)
    {
      LcaFloor(s, g, x, y, z, j, w);
    }
  }
}
