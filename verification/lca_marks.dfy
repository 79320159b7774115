/** The second walk of the Schieber–Vishkin structure, `dfs2`: A[u] is the OR
    of the lowest set bits of I along the path from the root to u. */
module LcaMarks {
  import opened NatBits
  import opened CInt
  import opened Optional
  import opened LcaTree
  import opened LcaNumbering

  /** A C `|` of two non-negative `int`s is the `|` of the numbers, and stays a non-negative `int`. */
  lemma OrOfNonNegative(a: int, b: int)
    requires 0 <= a < Two31 && 0 <= b < Two31
    ensures BitOr(a, b) == Or(a, b) && 0 <= BitOr(a, b) < Two31
  {
    Pow2Of32();
    OrBound(a, b, 31);
  }

  /** The write dfs2 makes at u: A[u] = up | lsb(I[u]). */
  function Mark(s: Table, u: nat, up: int): (r: Table)
    requires Bounded(s, |s.parent|) && u < |s.parent|
    ensures Bounded(r, |s.parent|) && r == s.(A := r.A) && r.A == s.A[u := BitOr(up, Lsb(s.I[u]))]
  {
    s.(A := s.A[u := BitOr(up, Lsb(s.I[u]))])
  }

  /** dfs2(u, up): marks u, then visits each child with A[u] as its `up`. */
  function Dfs2(t: Rose, up: int, s: Table): (r: Table)
    requires Bounded(s, |s.parent|) && Fits(Subs(t), |s.parent|) && Distinct(Subs(t))
    ensures Bounded(r, |s.parent|) && r == s.(A := r.A)
    decreases t
  {
    RootSplit(t, |s.parent|);
    var s1 := Mark(s, t.id, up);
    Dfs2Kids(t.kids, s1.A[t.id], s1)
  }

  function Dfs2Kids(ks: seq<Rose>, up: int, s: Table): (r: Table)
    requires Bounded(s, |s.parent|) && Fits(SubsKids(ks), |s.parent|) && Distinct(SubsKids(ks))
    ensures Bounded(r, |s.parent|) && r == s.(A := r.A)
    decreases ks
  {
    if |ks| == 0 then s
    else
      Split(Subs(ks[0]), SubsKids(ks[1..]), |s.parent|);
      Dfs2Kids(ks[1..], up, Dfs2(ks[0], up, s))
  }

  /** dfs2 writes A only at the nodes of the subtree it visits. */
  lemma {:induction false} Dfs2Keeps(t: Rose, up: int, s: Table)
    requires Bounded(s, |s.parent|) && Fits(Subs(t), |s.parent|) && Distinct(Subs(t))
    ensures Agree(Dfs2(t, up, s).A, s.A, Ids(Subs(t)))
    decreases t
  {
    RootSplit(t, |s.parent|);
    var s1 := Mark(s, t.id, up);
    Dfs2KidsKeeps(t.kids, s1.A[t.id], s1);
    AgreeTrans(Dfs2(t, up, s).A, s1.A, s.A, Ids(SubsKids(t.kids)), {t.id});
  }

  lemma {:induction false} Dfs2KidsKeeps(ks: seq<Rose>, up: int, s: Table)
    requires Bounded(s, |s.parent|) && Fits(SubsKids(ks), |s.parent|) && Distinct(SubsKids(ks))
    ensures Agree(Dfs2Kids(ks, up, s).A, s.A, Ids(SubsKids(ks)))
    decreases ks
  {
    if |ks| > 0 {
      Split(Subs(ks[0]), SubsKids(ks[1..]), |s.parent|);
      var s1 := Dfs2(ks[0], up, s);
      Dfs2Keeps(ks[0], up, s);
      Dfs2KidsKeeps(ks[1..], up, s1);
      AgreeTrans(Dfs2Kids(ks, up, s).A, s1.A, s.A, Ids(SubsKids(ks[1..])), Ids(Subs(ks[0])));
    }
  }

  /** Every node k of ks has A[k] = up | lsb(I[k]). */
  ghost predicate MarkedFrom(ks: seq<Rose>, I: seq<int>, A: seq<int>, up: int)
  {
    forall j :: 0 <= j < |ks| ==> ks[j].id < |A| && ks[j].id < |I| && A[ks[j].id] == BitOr(up, Lsb(I[ks[j].id]))
  }

  /** Along every edge c -> k of S: A[k] = A[c] | lsb(I[k]). */
  ghost predicate Ored(S: seq<Rose>, I: seq<int>, A: seq<int>)
  {
    forall m :: 0 <= m < |S| ==> S[m].id < |A| && MarkedFrom(S[m].kids, I, A, A[S[m].id])
  }

  /** MarkedFrom only reads A at the nodes of ks. */
  lemma MarkedFromAgree(ks: seq<Rose>, I: seq<int>, a1: seq<int>, a2: seq<int>, up: int, X: set<nat>)
    requires MarkedFrom(ks, I, a1, up) && Agree(a2, a1, X)
    requires forall j :: 0 <= j < |ks| ==> ks[j].id !in X
    ensures MarkedFrom(ks, I, a2, up)
  {
  }

  lemma OredCat(S1: seq<Rose>, S2: seq<Rose>, I: seq<int>, a1: seq<int>, a2: seq<int>, X: set<nat>)
    requires Ored(S1, I, a1) && Ored(S2, I, a2) && KidsIn(S1)
    requires Agree(a2, a1, X) && Ids(S1) !! X
    ensures Ored(S1 + S2, I, a2)
  {
    forall m | 0 <= m < |S1 + S2|
      ensures (S1 + S2)[m].id < |a2| && MarkedFrom((S1 + S2)[m].kids, I, a2, a2[(S1 + S2)[m].id])
    {
      if m < |S1| {
        var c := S1[m];
        assert (S1 + S2)[m] == c && c.id in Ids(S1);
        assert a2[c.id] == a1[c.id];
        assert forall j :: 0 <= j < |c.kids| ==> c.kids[j].id in Ids(S1);
        MarkedFromAgree(c.kids, I, a1, a2, a1[c.id], X);
      } else {
        assert (S1 + S2)[m] == S2[m - |S1|];
      }
    }
  }

  lemma OredRoot(t: Rose, I: seq<int>, A: seq<int>)
    requires t.id < |A| && MarkedFrom(t.kids, I, A, A[t.id]) && Ored(SubsKids(t.kids), I, A)
    ensures Ored(Subs(t), I, A)
  {
    var S, K := Subs(t), SubsKids(t.kids);
    forall m | 0 <= m < |S|
      ensures S[m].id < |A| && MarkedFrom(S[m].kids, I, A, A[S[m].id])
    {
      if m > 0 {
        assert S[m] == K[m - 1];
      }
    }
  }

  /** After dfs2(t, up): A[t] = up | lsb(I[t]), and every edge satisfies
      A[child] = A[parent] | lsb(I[child]). */
  lemma {:induction false} Dfs2Ors(t: Rose, up: int, s: Table)
    requires Bounded(s, |s.parent|) && Fits(Subs(t), |s.parent|) && Distinct(Subs(t))
    requires |s.parent| <= MaxNodes && 0 <= up < Two31
    ensures Dfs2(t, up, s).A[t.id] == BitOr(up, Lsb(s.I[t.id]))
    ensures Ored(Subs(t), s.I, Dfs2(t, up, s).A)
    decreases t
  {
    RootSplit(t, |s.parent|);
    var s1 := Mark(s, t.id, up);
    var r := Dfs2(t, up, s);
    LsbIsLowBit(s.I[t.id]);
    OrOfNonNegative(up, Lsb(s.I[t.id]));
    var K := SubsKids(t.kids);
    Dfs2KidsOrs(t.kids, s1.A[t.id], s1);
    Dfs2KidsKeeps(t.kids, s1.A[t.id], s1);
    assert r.A[t.id] == s1.A[t.id];
    OredRoot(t, s.I, r.A);
  }

  lemma {:induction false} Dfs2KidsOrs(ks: seq<Rose>, up: int, s: Table)
    requires Bounded(s, |s.parent|) && Fits(SubsKids(ks), |s.parent|) && Distinct(SubsKids(ks))
    requires |s.parent| <= MaxNodes && 0 <= up < Two31
    ensures MarkedFrom(ks, s.I, Dfs2Kids(ks, up, s).A, up)
    ensures Ored(SubsKids(ks), s.I, Dfs2Kids(ks, up, s).A)
    decreases ks
  {
    if |ks| > 0 {
      Split(Subs(ks[0]), SubsKids(ks[1..]), |s.parent|);
      var s1 := Dfs2(ks[0], up, s);
      Dfs2Ors(ks[0], up, s);
      var r := Dfs2Kids(ks[1..], up, s1);
      Dfs2KidsOrs(ks[1..], up, s1);
      Dfs2KidsKeeps(ks[1..], up, s1);
      KidsAreSubs(ks[0]);
      var A: seq<Rose>, B: seq<Rose> := Subs(ks[0]), SubsKids(ks[1..]);
      OredCat(A, B, s.I, s1.A, r.A, Ids(B));
      assert A[0] == ks[0] && ks[0].id in Ids(A);
      forall j | 0 <= j < |ks|
        ensures ks[j].id < |r.A| && ks[j].id < |s.I| && r.A[ks[j].id] == BitOr(up, Lsb(s.I[ks[j].id]))
      {
        if j > 0 {
          assert ks[j] == ks[1..][j - 1];
        }
      }
    }
  }

  /** Every node c of S has a non-negative A[c] that contains the lowest set bit of I[c]. */
  ghost predicate Carries(S: seq<Rose>, I: seq<int>, A: seq<int>)
  {
    forall m :: 0 <= m < |S| ==>
      S[m].id < |A| && S[m].id < |I| && 0 <= A[S[m].id] < Two31 && 0 <= I[S[m].id] < Two31 &&
      And(A[S[m].id], LowBit(I[S[m].id])) == LowBit(I[S[m].id])
  }

  lemma CarriesCat(S1: seq<Rose>, S2: seq<Rose>, I: seq<int>, a1: seq<int>, a2: seq<int>, X: set<nat>)
    requires Carries(S1, I, a1) && Carries(S2, I, a2)
    requires Agree(a2, a1, X) && Ids(S1) !! X
    ensures Carries(S1 + S2, I, a2)
  {
    forall m | 0 <= m < |S1 + S2|
      ensures (S1 + S2)[m].id < |a2| && (S1 + S2)[m].id < |I| && 0 <= a2[(S1 + S2)[m].id] < Two31 &&
        0 <= I[(S1 + S2)[m].id] < Two31 && And(a2[(S1 + S2)[m].id], LowBit(I[(S1 + S2)[m].id])) == LowBit(I[(S1 + S2)[m].id])
    {
      if m < |S1| {
        assert (S1 + S2)[m] == S1[m] && S1[m].id in Ids(S1);
      } else {
        assert (S1 + S2)[m] == S2[m - |S1|];
      }
    }
  }

  lemma RootCarries(t: Rose, I: seq<int>, A: seq<int>)
    requires t.id < |A| && t.id < |I| && 0 <= A[t.id] < Two31 && 0 <= I[t.id] < Two31
    requires And(A[t.id], LowBit(I[t.id])) == LowBit(I[t.id]) && Carries(SubsKids(t.kids), I, A)
    ensures Carries(Subs(t), I, A)
  {
    var S, K := Subs(t), SubsKids(t.kids);
    forall m | 0 <= m < |S|
      ensures S[m].id < |A| && S[m].id < |I| && 0 <= A[S[m].id] < Two31 && 0 <= I[S[m].id] < Two31 &&
        And(A[S[m].id], LowBit(I[S[m].id])) == LowBit(I[S[m].id])
    {
      if m > 0 {
        assert S[m] == K[m - 1];
      }
    }
  }

  /** After dfs2(t, up), every A entry of t's subtree is a non-negative `int`
      containing the lowest set bit of the node's I. */
  lemma {:induction false} Dfs2Carries(t: Rose, up: int, s: Table)
    requires Bounded(s, |s.parent|) && Fits(Subs(t), |s.parent|) && Distinct(Subs(t))
    requires |s.parent| <= MaxNodes && 0 <= up < Two31
    ensures Carries(Subs(t), s.I, Dfs2(t, up, s).A)
    decreases t
  {
    RootSplit(t, |s.parent|);
    var s1 := Mark(s, t.id, up);
    var r := Dfs2(t, up, s);
    var i := s.I[t.id];
    LsbIsLowBit(i);
    OrOfNonNegative(up, Lsb(i));
    AndOrAbsorb(up, LowBit(i));
    Dfs2Ors(t, up, s);
    Dfs2KidsCarries(t.kids, s1.A[t.id], s1);
    RootCarries(t, s.I, r.A);
  }

  lemma {:induction false} Dfs2KidsCarries(ks: seq<Rose>, up: int, s: Table)
    requires Bounded(s, |s.parent|) && Fits(SubsKids(ks), |s.parent|) && Distinct(SubsKids(ks))
    requires |s.parent| <= MaxNodes && 0 <= up < Two31
    ensures Carries(SubsKids(ks), s.I, Dfs2Kids(ks, up, s).A)
    decreases ks
  {
    if |ks| > 0 {
      Split(Subs(ks[0]), SubsKids(ks[1..]), |s.parent|);
      var s1 := Dfs2(ks[0], up, s);
      Dfs2Carries(ks[0], up, s);
      var r := Dfs2Kids(ks[1..], up, s1);
      Dfs2KidsCarries(ks[1..], up, s1);
      Dfs2KidsKeeps(ks[1..], up, s1);
      CarriesCat(Subs(ks[0]), SubsKids(ks[1..]), s.I, s1.A, r.A, Ids(SubsKids(ks[1..])));
    }
  }
}
