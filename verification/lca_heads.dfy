/** What `dfs1` does to I and head: I[u] is the preorder number of largest
    lowest set bit inside u's subtree, and head of that number is the topmost
    node carrying it. */
module LcaHeads {
  import opened NatBits
  import opened CInt
  import opened Optional
  import opened LcaTree
  import opened LcaNumbering

  /** The lowest set bit of a preorder number; Dfs1 maximises it over each subtree. */
  function Rank(w: int): nat
  {
    if w < 0 then 0 else LowBit(w)
  }

  /** adopt keeps the larger of the two lowest set bits. */
  lemma AdoptMax(s: Table, u: nat, v: nat)
    requires Bounded(s, |s.parent|) && u < |s.parent| && v < |s.parent| && |s.parent| <= MaxNodes
    ensures Rank(Adopt(s, u, v).I[u]) >= Rank(s.I[u])
    ensures Rank(Adopt(s, u, v).I[u]) >= Rank(s.I[v])
  {
    LsbIsLowBit(s.I[u]);
    LsbIsLowBit(s.I[v]);
  }

  /** No number in lo .. hi-1 has a lowest set bit above b. */
  ghost predicate Dominates(b: nat, lo: int, hi: int)
  {
    forall w :: lo <= w < hi ==> Rank(w) <= b
  }

  lemma DominatesCat(b: nat, c: nat, lo: int, mid: int, hi: int)
    requires Dominates(b, lo, mid) && Dominates(c, mid, hi)
    ensures Dominates(if b < c then c else b, lo, hi)
  {
  }

  /** v lies in lo .. hi-1 and no number there has a larger lowest set bit. */
  ghost predicate TopLsb(v: int, lo: int, hi: int)
  {
    0 <= lo <= v < hi && Dominates(Rank(v), lo, hi)
  }

  /** Every node S[m], numbered T + m, has in I the number of largest lowest
      set bit among its subtree's numbers T + m .. T + m + size - 1. */
  ghost predicate Maxed(S: seq<Rose>, I: seq<int>, T: int)
  {
    forall m :: 0 <= m < |S| ==> S[m].id < |I| && TopLsb(I[S[m].id], T + m, T + m + |Subs(S[m])|)
  }

  /** Every node of S has its I entry in lo .. hi-1. */
  ghost predicate InRange(S: seq<Rose>, I: seq<int>, lo: int, hi: int)
  {
    forall m :: 0 <= m < |S| ==> S[m].id < |I| && lo <= I[S[m].id] < hi
  }

  lemma MaxedCat(A: seq<Rose>, B: seq<Rose>, I1: seq<int>, I2: seq<int>, T: int, T2: int, X: set<nat>)
    requires T2 == T + |A| && Maxed(A, I1, T) && Maxed(B, I2, T2)
    requires Agree(I2, I1, X) && Ids(A) !! X
    ensures Maxed(A + B, I2, T)
  {
    forall m | 0 <= m < |A + B|
      ensures (A + B)[m].id < |I2| && TopLsb(I2[(A + B)[m].id], T + m, T + m + |Subs((A + B)[m])|)
    {
      if m < |A| {
        assert (A + B)[m] == A[m] && A[m].id in Ids(A);
      } else {
        assert (A + B)[m] == B[m - |A|];
      }
    }
  }

  lemma InRangeCat(A: seq<Rose>, B: seq<Rose>, I1: seq<int>, I2: seq<int>, lo: int, hi: int, X: set<nat>)
    requires InRange(A, I1, lo, hi) && InRange(B, I2, lo, hi)
    requires Agree(I2, I1, X) && Ids(A) !! X
    ensures InRange(A + B, I2, lo, hi)
  {
    forall m | 0 <= m < |A + B|
      ensures (A + B)[m].id < |I2| && lo <= I2[(A + B)[m].id] < hi
    {
      if m < |A| {
        assert (A + B)[m] == A[m] && A[m].id in Ids(A);
      } else {
        assert (A + B)[m] == B[m - |A|];
      }
    }
  }

  lemma InRangeWiden(S: seq<Rose>, I: seq<int>, lo: int, hi: int, lo': int, hi': int)
    requires InRange(S, I, lo, hi) && lo' <= lo && hi <= hi'
    ensures InRange(S, I, lo', hi')
  {
  }

  /** A root numbered T whose entry v beats T and every later number of its
      subtree holds the top of the whole subtree. */
  lemma RootTop(v: int, T: int, hi: int)
    requires 0 <= T <= v < hi && Rank(v) >= Rank(T) && Dominates(Rank(v), T + 1, hi)
    ensures TopLsb(v, T, hi)
  {
  }

  /** A root whose entry is the top of its subtree, above children that are
      already maxed, makes the whole subtree maxed. */
  lemma RootMaxed(t: Rose, I: seq<int>, T: int, T1: int)
    requires T1 == T + 1
    requires t.id < |I| && TopLsb(I[t.id], T, T + |Subs(t)|) && Maxed(SubsKids(t.kids), I, T1)
    ensures Maxed(Subs(t), I, T)
  {
    var S, K := Subs(t), SubsKids(t.kids);
    forall m | 0 <= m < |S|
      ensures S[m].id < |I| && TopLsb(I[S[m].id], T + m, T + m + |Subs(S[m])|)
    {
      if m > 0 {
        assert S[m] == K[m - 1];
      }
    }
  }

  lemma RootInRange(t: Rose, I: seq<int>, T: int, T1: int)
    requires T1 == T + 1
    requires t.id < |I| && TopLsb(I[t.id], T, T + |Subs(t)|)
    requires InRange(SubsKids(t.kids), I, T1, T1 + |SubsKids(t.kids)|)
    ensures InRange(Subs(t), I, T, T + |Subs(t)|)
  {
    var S, K := Subs(t), SubsKids(t.kids);
    forall m | 0 <= m < |S|
      ensures S[m].id < |I| && T <= I[S[m].id] < T + |S|
    {
      if m > 0 {
        assert S[m] == K[m - 1];
      }
    }
  }

  /** After dfs1, every node's I is the number of largest lowest set bit in
      its subtree, and it lies among t's numbers. */
  lemma {:induction false} Dfs1Max(t: Rose, p: int, s: Table)
    requires Bounded(s, |s.parent|) && Fits(Subs(t), |s.parent|) && Distinct(Subs(t))
    requires 0 <= s.time && s.time + |Subs(t)| <= |s.parent| <= MaxNodes
    ensures Maxed(Subs(t), Dfs1(t, p, s).I, s.time)
    ensures InRange(Subs(t), Dfs1(t, p, s).I, s.time, s.time + |Subs(t)|)
    decreases t
  {
    RootSplit(t, |s.parent|);
    var s1 := Enter(t, p, s);
    var k := Dfs1Kids(t.kids, t.id, s1);
    Dfs1KidsMax(t.kids, t.id, s1);
    Dfs1KidsTop(t.kids, t.id, s1);
    Dfs1KidsRootI(t.kids, t.id, s1);
    RootTop(k.I[t.id], s.time, s.time + |Subs(t)|);
    RootMaxed(t, k.I, s.time, s1.time);
    RootInRange(t, k.I, s.time, s1.time);
    assert Dfs1(t, p, s).I == k.I;
  }

  /** Every node below u gets its top number. */
  lemma {:induction false} Dfs1KidsMax(ks: seq<Rose>, u: nat, s: Table)
    requires Bounded(s, |s.parent|) && u < |s.parent|
    requires Fits(SubsKids(ks), |s.parent|) && Distinct(SubsKids(ks)) && u !in Ids(SubsKids(ks))
    requires 0 <= s.time && s.time + |SubsKids(ks)| <= |s.parent| <= MaxNodes
    ensures Maxed(SubsKids(ks), Dfs1Kids(ks, u, s).I, s.time)
    ensures InRange(SubsKids(ks), Dfs1Kids(ks, u, s).I, s.time, s.time + |SubsKids(ks)|)
    decreases ks
  {
    if |ks| > 0 {
      KidsSplit(ks, u, |s.parent|);
      var s1 := Dfs1(ks[0], u, s);
      Dfs1Max(ks[0], u, s);
      var s2 := Adopt(s1, u, ks[0].id);
      var r := Dfs1Kids(ks[1..], u, s2);
      Dfs1KidsMax(ks[1..], u, s2);
      Dfs1KidsKeeps(ks[1..], u, s2);
      var A: seq<Rose>, B: seq<Rose> := Subs(ks[0]), SubsKids(ks[1..]);
      var T, T1 := s.time, s1.time;
      AgreeTrans(r.I, s2.I, s1.I, Ids(B) + {u}, {u});
      assert Ids(B) + {u} + {u} == Ids(B) + {u};
      MaxedCat(A, B, s1.I, r.I, T, T1, Ids(B) + {u});
      InRangeWiden(A, s1.I, T, T1, T, T1 + |B|);
      InRangeWiden(B, r.I, T1, T1 + |B|, T, T1 + |B|);
      InRangeCat(A, B, s1.I, r.I, T, T1 + |B|, Ids(B) + {u});
    }
  }

  /** The loop leaves in I[u] a number at least as good as before and as
      good as every number of u's children's subtrees. */
  lemma {:induction false} Dfs1KidsTop(ks: seq<Rose>, u: nat, s: Table)
    requires Bounded(s, |s.parent|) && u < |s.parent|
    requires Fits(SubsKids(ks), |s.parent|) && Distinct(SubsKids(ks)) && u !in Ids(SubsKids(ks))
    requires 0 <= s.time && s.time + |SubsKids(ks)| <= |s.parent| <= MaxNodes
    ensures Rank(Dfs1Kids(ks, u, s).I[u]) >= Rank(s.I[u])
    ensures Dominates(Rank(Dfs1Kids(ks, u, s).I[u]), s.time, s.time + |SubsKids(ks)|)
    decreases ks
  {
    if |ks| > 0 {
      KidsSplit(ks, u, |s.parent|);
      var s1 := Dfs1(ks[0], u, s);
      Dfs1Max(ks[0], u, s);
      Dfs1Keeps(ks[0], u, s);
      var s2 := Adopt(s1, u, ks[0].id);
      AdoptMax(s1, u, ks[0].id);
      var r := Dfs1Kids(ks[1..], u, s2);
      Dfs1KidsTop(ks[1..], u, s2);
      assert s1.I[u] == s.I[u];
      assert Subs(ks[0])[0] == ks[0];
      assert TopLsb(s1.I[ks[0].id], s.time, s1.time);
      DominatesCat(Rank(r.I[u]), Rank(r.I[u]), s.time, s1.time, s.time + |SubsKids(ks)|);
    }
  }

  /** For every node S[m] (numbered T + m), head[I[S[m]]] is a node of S
      carrying the same I, numbered no later than S[m]: the topmost carrier
      of that I value, since every carrier c satisfies pre[head[I[c]]] <= pre[c]. */
  ghost predicate Topmost(S: seq<Rose>, I: seq<int>, head: seq<int>, pre: seq<int>, T: int)
  {
    forall m :: 0 <= m < |S| ==>
      S[m].id < |I| && 0 <= I[S[m].id] < |head| && head[I[S[m].id]] in Ids(S) &&
      0 <= head[I[S[m].id]] < |I| && I[head[I[S[m].id]]] == I[S[m].id] &&
      head[I[S[m].id]] < |pre| && pre[head[I[S[m].id]]] <= T + m
  }

  lemma TopmostCat(A: seq<Rose>, B: seq<Rose>, I1: seq<int>, I2: seq<int>, h1: seq<int>, h2: seq<int>,
                   p1: seq<int>, p2: seq<int>, T: int, T1: int, hi: int, X: set<nat>, Y: set<nat>)
    requires T1 == T + |A| && Topmost(A, I1, h1, p1, T) && Topmost(B, I2, h2, p2, T1)
    requires InRange(A, I1, T, T1) && SameOutside(h2, h1, T1, hi)
    requires Agree(I2, I1, X) && Agree(p2, p1, Y) && Ids(A) !! X && Ids(A) !! Y
    ensures Topmost(A + B, I2, h2, p2, T)
  {
    Split(A, B, 0);
    forall m | 0 <= m < |A + B|
      ensures var c := (A + B)[m].id;
        c < |I2| && 0 <= I2[c] < |h2| && h2[I2[c]] in Ids(A + B) &&
        0 <= h2[I2[c]] < |I2| && I2[h2[I2[c]]] == I2[c] && h2[I2[c]] < |p2| && p2[h2[I2[c]]] <= T + m
    {
      if m < |A| {
        assert (A + B)[m] == A[m] && A[m].id in Ids(A);
        assert h1[I1[A[m].id]] in Ids(A);
      } else {
        assert (A + B)[m] == B[m - |A|];
      }
    }
  }

  /** Writing head[I[t]] = t after t's children are done makes t's subtree topmost. */
  lemma RootTopmost(t: Rose, I: seq<int>, head: seq<int>, pre: seq<int>, T: int, T1: int)
    requires T1 == T + 1 && Topmost(SubsKids(t.kids), I, head, pre, T1)
    requires t.id < |I| && 0 <= I[t.id] < |head| && t.id < |pre| && pre[t.id] == T
    requires Ids(Subs(t)) == {t.id} + Ids(SubsKids(t.kids))
    ensures Topmost(Subs(t), I, head[I[t.id] := t.id], pre, T)
  {
    var S, K, h := Subs(t), SubsKids(t.kids), head[I[t.id] := t.id];
    forall m | 0 <= m < |S|
      ensures var c := S[m].id;
        c < |I| && 0 <= I[c] < |h| && h[I[c]] in Ids(S) &&
        0 <= h[I[c]] < |I| && I[h[I[c]]] == I[c] && h[I[c]] < |pre| && pre[h[I[c]]] <= T + m
    {
      if m > 0 {
        assert S[m] == K[m - 1];
      }
    }
  }

  /** After dfs1, head[I[c]] is the topmost carrier of I[c] for every node c. */
  lemma {:induction false} Dfs1Topmost(t: Rose, p: int, s: Table)
    requires Bounded(s, |s.parent|) && Fits(Subs(t), |s.parent|) && Distinct(Subs(t))
    requires 0 <= s.time && s.time + |Subs(t)| <= |s.parent| <= MaxNodes
    ensures Topmost(Subs(t), Dfs1(t, p, s).I, Dfs1(t, p, s).head, Dfs1(t, p, s).preorder, s.time)
    decreases t
  {
    RootSplit(t, |s.parent|);
    var s1 := Enter(t, p, s);
    var k := Dfs1Kids(t.kids, t.id, s1);
    Dfs1KidsTopmost(t.kids, t.id, s1);
    Dfs1KidsKeeps(t.kids, t.id, s1);
    assert k.preorder[t.id] == s.time;
    RootTopmost(t, k.I, k.head, k.preorder, s.time, s1.time);
  }

  lemma {:induction false} Dfs1KidsTopmost(ks: seq<Rose>, u: nat, s: Table)
    requires Bounded(s, |s.parent|) && u < |s.parent|
    requires Fits(SubsKids(ks), |s.parent|) && Distinct(SubsKids(ks)) && u !in Ids(SubsKids(ks))
    requires 0 <= s.time && s.time + |SubsKids(ks)| <= |s.parent| <= MaxNodes
    ensures Topmost(SubsKids(ks), Dfs1Kids(ks, u, s).I, Dfs1Kids(ks, u, s).head, Dfs1Kids(ks, u, s).preorder, s.time)
    decreases ks
  {
    if |ks| > 0 {
      KidsSplit(ks, u, |s.parent|);
      var s1 := Dfs1(ks[0], u, s);
      Dfs1Topmost(ks[0], u, s);
      Dfs1Max(ks[0], u, s);
      var s2 := Adopt(s1, u, ks[0].id);
      var r := Dfs1Kids(ks[1..], u, s2);
      Dfs1KidsTopmost(ks[1..], u, s2);
      Dfs1KidsKeeps(ks[1..], u, s2);
      Dfs1KidsHeads(ks[1..], u, s2);
      var A: seq<Rose>, B: seq<Rose> := Subs(ks[0]), SubsKids(ks[1..]);
      AgreeTrans(r.I, s2.I, s1.I, Ids(B) + {u}, {u});
      assert Ids(B) + {u} + {u} == Ids(B) + {u};
      TopmostCat(A, B, s1.I, r.I, s1.head, r.head, s1.preorder, r.preorder, s.time, s2.time, s2.time + |B|, Ids(B) + {u}, Ids(B));
    }
  }
}
