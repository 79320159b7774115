/** How a tree lies in its preorder list Subs(t): every subtree is a
    contiguous slice, and every node but the root sits right after some
    node's child block boundary with that node as the nearest one enclosing
    it. Ancestry is defined here from the tree alone. */
module LcaLayout {
  import opened LcaTree

  /** w lies in the subtree rooted at the node u of t. */
  ghost predicate IsAncestor(t: Rose, u: int, w: int)
  {
    exists m :: 0 <= m < |Subs(t)| && Subs(t)[m].id == u && w in Ids(Subs(Subs(t)[m]))
  }

  /** Where child j's subtree starts inside SubsKids(ks). */
  function Off(ks: seq<Rose>, j: nat): nat
    requires j <= |ks|
  {
    |SubsKids(ks[..j])|
  }

  lemma {:induction false} SubsKidsCat(a: seq<Rose>, b: seq<Rose>)
    ensures SubsKids(a + b) == SubsKids(a) + SubsKids(b)
    decreases |a|
  {
    if |a| > 0 {
      assert (a + b)[1..] == a[1..] + b;
      SubsKidsCat(a[1..], b);
    } else {
      assert a + b == b;
    }
  }

  /** Child j's subtree is the slice Off(j) .. Off(j + 1) of SubsKids(ks). */
  lemma KidBlock(ks: seq<Rose>, j: nat)
    requires j < |ks|
    ensures Off(ks, j) + |Subs(ks[j])| == Off(ks, j + 1) <= |SubsKids(ks)|
    ensures SubsKids(ks)[Off(ks, j) .. Off(ks, j + 1)] == Subs(ks[j])
  {
    assert ks[..j + 1] == ks[..j] + [ks[j]];
    SubsKidsCat(ks[..j], [ks[j]]);
    assert [ks[j]][1..] == [];
    assert SubsKids([ks[j]]) == Subs(ks[j]);
    assert ks == ks[..j + 1] + ks[j + 1..];
    SubsKidsCat(ks[..j + 1], ks[j + 1..]);
  }

  lemma OffMonotone(ks: seq<Rose>, i: nat, j: nat)
    requires i <= j <= |ks|
    ensures Off(ks, i) <= Off(ks, j)
  {
    assert ks[..j] == ks[..i] + ks[i..j];
    SubsKidsCat(ks[..i], ks[i..j]);
  }

  /** Offsets in ks are the first child's size plus offsets in the rest. */
  lemma OffCons(ks: seq<Rose>, i: nat)
    requires 1 <= i <= |ks|
    ensures Off(ks, i) == |Subs(ks[0])| + Off(ks[1..], i - 1)
  {
    assert ks[..i] == [ks[0]] + ks[1..][..i - 1];
    SubsKidsCat([ks[0]], ks[1..][..i - 1]);
    assert [ks[0]][1..] == [];
  }

  /** Every position of SubsKids(ks) falls in one child's block. */
  lemma {:induction false} Locate(ks: seq<Rose>, q: nat) returns (j: nat)
    requires q < |SubsKids(ks)|
    ensures j < |ks| && Off(ks, j) <= q < Off(ks, j + 1)
    decreases |ks|
  {
    OffCons(ks, 1);
    if q < |Subs(ks[0])| {
      j := 0;
    } else {
      var j' := Locate(ks[1..], q - |Subs(ks[0])|);
      j := j' + 1;
      OffCons(ks, j);
      OffCons(ks, j + 1);
    }
  }

  /** Position i of child j's subtree is position 1 + Off(j) + i of Subs(t). */
  lemma BlockAt(t: Rose, j: nat, i: nat)
    requires j < |t.kids| && i < |Subs(t.kids[j])|
    ensures 1 + Off(t.kids, j) + i < |Subs(t)| && Subs(t)[1 + Off(t.kids, j) + i] == Subs(t.kids[j])[i]
  {
    KidBlock(t.kids, j);
    var K := SubsKids(t.kids);
    assert Subs(t)[1 + Off(t.kids, j) + i] == K[Off(t.kids, j) + i];
    assert K[Off(t.kids, j) .. Off(t.kids, j + 1)][i] == K[Off(t.kids, j) + i];
  }

  /** The node at position q > 0 is at position q - 1 - Off(i) of child i's subtree. */
  lemma Place(t: Rose, q: nat) returns (i: nat)
    requires 0 < q < |Subs(t)|
    ensures i < |t.kids| && 1 + Off(t.kids, i) <= q < 1 + Off(t.kids, i + 1)
    ensures Off(t.kids, i) + |Subs(t.kids[i])| == Off(t.kids, i + 1) <= |SubsKids(t.kids)|
    ensures Subs(t)[q] == Subs(t.kids[i])[q - 1 - Off(t.kids, i)]
  {
    i := Locate(t.kids, q - 1);
    KidBlock(t.kids, i);
    BlockAt(t, i, q - 1 - Off(t.kids, i));
  }

  /** The subtree of the node at position m is the slice m .. m + size of Subs(t). */
  lemma {:induction false} SliceAt(t: Rose, m: nat)
    requires m < |Subs(t)|
    ensures m + |Subs(Subs(t)[m])| <= |Subs(t)|
    ensures Subs(t)[m .. m + |Subs(Subs(t)[m])|] == Subs(Subs(t)[m])
    decreases t
  {
    if m > 0 {
      var j := Place(t, m);
      var k := t.kids[j];
      var q := m - 1 - Off(t.kids, j);
      SliceAt(k, q);
      var size := |Subs(Subs(k)[q])|;
      forall i | 0 <= i < size
        ensures Subs(t)[m + i] == Subs(Subs(k)[q])[i]
      {
        BlockAt(t, j, q + i);
      }
    }
  }

  /** The node at position q > 0 lies in child i's block, and its subtree ends
      no later than that block does. */
  lemma Within(t: Rose, q: nat) returns (i: nat)
    requires 0 < q < |Subs(t)|
    ensures i < |t.kids| && 1 + Off(t.kids, i) <= q < 1 + Off(t.kids, i + 1)
    ensures q + |Subs(Subs(t)[q])| <= 1 + Off(t.kids, i + 1)
  {
    i := Place(t, q);
    SliceAt(t.kids[i], q - 1 - Off(t.kids, i));
  }

  /** Every node at position m > 0 is the child of a node at an earlier
      position p whose subtree contains m, and no node strictly between p and
      m has a subtree reaching m. */
  lemma {:induction false} ParentAt(t: Rose, m: nat) returns (p: nat, j: nat)
    requires 0 < m < |Subs(t)|
    ensures p < m < p + |Subs(Subs(t)[p])| && j < |Subs(t)[p].kids| && Subs(t)[p].kids[j] == Subs(t)[m]
    ensures forall q :: p < q < m ==> q + |Subs(Subs(t)[q])| <= m
    decreases t
  {
    var b := Place(t, m);
    var k := t.kids[b];
    var o := Off(t.kids, b);
    var m' := m - 1 - o;
    if m' == 0 {
      p, j := 0, b;
      BlockAt(t, b, 0);
      forall q | 0 < q < m
        ensures q + |Subs(Subs(t)[q])| <= m
      {
        var i := Within(t, q);
        if i >= b {
          OffMonotone(t.kids, b, i);
        } else {
          OffMonotone(t.kids, i + 1, b);
        }
      }
    } else {
      var p', j' := ParentAt(k, m');
      p, j := 1 + o + p', j';
      BlockAt(t, b, p');
      forall q | p < q < m
        ensures q + |Subs(Subs(t)[q])| <= m
      {
        BlockAt(t, b, q - 1 - o);
      }
    }
  }
}
