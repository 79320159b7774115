/** The first walk of the Schieber–Vishkin structure, `dfs1`, and what it does
    to parent and preorder: the nodes of a subtree get consecutive preorder
    numbers from the clock on, and every tree edge is recorded in parent. */
module LcaNumbering {
  import opened NatBits
  import opened CInt
  import opened Optional
  import opened LcaTree

  /** dfs1(u, p): parent[u] = p, I[u] = preorder[u] = time++, then every child
      v is visited and I[u] takes I[v] when lsb(I[v]) > lsb(I[u]); finally
      head[I[u]] = u. */
  function Dfs1(t: Rose, p: int, s: Table): (r: Table)
    requires Bounded(s, |s.parent|) && Fits(Subs(t), |s.parent|) && Distinct(Subs(t))
    requires 0 <= s.time && s.time + |Subs(t)| <= |s.parent| <= MaxNodes
    ensures Bounded(r, |s.parent|) && r.time == s.time + |Subs(t)| && r.A == s.A
    decreases t
  {
    RootSplit(t, |s.parent|);
    Leave(t, Dfs1Kids(t.kids, t.id, Enter(t, p, s)))
  }

  /** After child v is visited: I[u] = I[v] when lsb(I[v]) > lsb(I[u]). */
  function Adopt(s: Table, u: nat, v: nat): (r: Table)
    requires Bounded(s, |s.parent|) && u < |s.parent| && v < |s.parent|
    ensures Bounded(r, |s.parent|) && r == s.(I := r.I) && r.I == s.I[u := r.I[u]] && (r.I[u] == s.I[u] || r.I[u] == s.I[v])
  {
    if Lsb(s.I[v]) > Lsb(s.I[u]) then s.(I := s.I[u := s.I[v]]) else s
  }

  /** The loop over u's children in dfs1. */
  function Dfs1Kids(ks: seq<Rose>, u: nat, s: Table): (r: Table)
    requires Bounded(s, |s.parent|) && u < |s.parent|
    requires Fits(SubsKids(ks), |s.parent|) && Distinct(SubsKids(ks)) && u !in Ids(SubsKids(ks))
    requires 0 <= s.time && s.time + |SubsKids(ks)| <= |s.parent| <= MaxNodes
    ensures Bounded(r, |s.parent|) && r.time == s.time + |SubsKids(ks)| && r.A == s.A
    decreases ks
  {
    if |ks| == 0 then s
    else
      KidsSplit(ks, u, |s.parent|);
      Dfs1Kids(ks[1..], u, Adopt(Dfs1(ks[0], u, s), u, ks[0].id))
  }

  /** The step dfs1 takes before visiting t's children. */
  function Enter(t: Rose, p: int, s: Table): (r: Table)
    requires Bounded(s, |s.parent|) && t.id < |s.parent| && 0 <= s.time < |s.parent|
    ensures Bounded(r, |s.parent|) && r.time == s.time + 1 && r.A == s.A && r.head == s.head
    ensures r.parent == s.parent[t.id := p] && r.preorder == s.preorder[t.id := s.time] && r.I == s.I[t.id := s.time]
  {
    s.(parent := s.parent[t.id := p], preorder := s.preorder[t.id := s.time],
       I := s.I[t.id := s.time], time := s.time + 1)
  }

  /** The step dfs1 takes after visiting t's children: head[I[u]] = u. */
  function Leave(t: Rose, s: Table): (r: Table)
    requires Bounded(s, |s.parent|) && t.id < |s.parent|
    ensures Bounded(r, |s.parent|) && r == s.(head := r.head) && r.head == s.head[s.I[t.id] := t.id]
  {
    s.(head := s.head[s.I[t.id] := t.id])
  }

  /** a and b have the same length and agree at every index outside X. */
  ghost predicate Agree<T>(a: seq<T>, b: seq<T>, X: set<nat>)
  {
    |a| == |b| && forall j :: 0 <= j < |a| && j !in X ==> a[j] == b[j]
  }

  lemma AgreeTrans<T>(a: seq<T>, b: seq<T>, c: seq<T>, X: set<nat>, Y: set<nat>)
    requires Agree(a, b, X) && Agree(b, c, Y)
    ensures Agree(a, c, X + Y)
  {
  }

  /** dfs1 on t writes parent, preorder and I only at t's nodes. */
  lemma {:induction false} Dfs1Keeps(t: Rose, p: int, s: Table)
    requires Bounded(s, |s.parent|) && Fits(Subs(t), |s.parent|) && Distinct(Subs(t))
    requires 0 <= s.time && s.time + |Subs(t)| <= |s.parent| <= MaxNodes
    ensures Agree(Dfs1(t, p, s).parent, s.parent, Ids(Subs(t)))
    ensures Agree(Dfs1(t, p, s).preorder, s.preorder, Ids(Subs(t)))
    ensures Agree(Dfs1(t, p, s).I, s.I, Ids(Subs(t)))
    decreases t
  {
    RootSplit(t, |s.parent|);
    var s1 := Enter(t, p, s);
    Dfs1KidsKeeps(t.kids, t.id, s1);
  }

  lemma {:induction false} Dfs1KidsKeeps(ks: seq<Rose>, u: nat, s: Table)
    requires Bounded(s, |s.parent|) && u < |s.parent|
    requires Fits(SubsKids(ks), |s.parent|) && Distinct(SubsKids(ks)) && u !in Ids(SubsKids(ks))
    requires 0 <= s.time && s.time + |SubsKids(ks)| <= |s.parent| <= MaxNodes
    ensures Agree(Dfs1Kids(ks, u, s).parent, s.parent, Ids(SubsKids(ks)))
    ensures Agree(Dfs1Kids(ks, u, s).preorder, s.preorder, Ids(SubsKids(ks)))
    ensures Agree(Dfs1Kids(ks, u, s).I, s.I, Ids(SubsKids(ks)) + {u})
    decreases ks
  {
    if |ks| > 0 {
      KidsSplit(ks, u, |s.parent|);
      var s1 := Dfs1(ks[0], u, s);
      Dfs1Keeps(ks[0], u, s);
      var s2 := Adopt(s1, u, ks[0].id);
      var r := Dfs1Kids(ks[1..], u, s2);
      Dfs1KidsKeeps(ks[1..], u, s2);
      var X, Y := Ids(Subs(ks[0])), Ids(SubsKids(ks[1..]));
      AgreeTrans(r.parent, s1.parent, s.parent, Y, X);
      AgreeTrans(r.preorder, s1.preorder, s.preorder, Y, X);
      assert Agree(s2.I, s1.I, {u});
      AgreeTrans(r.I, s2.I, s1.I, Y + {u}, {u});
      AgreeTrans(r.I, s1.I, s.I, Y + {u}, X);
      assert Y + {u} + X == X + Y + {u};
    }
  }

  /** a and b agree outside positions lo .. hi-1. */
  ghost predicate SameOutside(a: seq<int>, b: seq<int>, lo: int, hi: int)
  {
    |a| == |b| && forall i :: 0 <= i < |a| && !(lo <= i < hi) ==> a[i] == b[i]
  }

  lemma SameOutsideTrans(a: seq<int>, b: seq<int>, c: seq<int>, lo: int, mid: int, hi: int)
    requires lo <= mid <= hi
    requires SameOutside(a, b, mid, hi) && SameOutside(b, c, lo, mid)
    ensures SameOutside(a, c, lo, hi)
  {
  }

  /** dfs1 on t writes head only at t's preorder numbers. */
  lemma {:induction false} Dfs1Heads(t: Rose, p: int, s: Table)
    requires Bounded(s, |s.parent|) && Fits(Subs(t), |s.parent|) && Distinct(Subs(t))
    requires 0 <= s.time && s.time + |Subs(t)| <= |s.parent| <= MaxNodes
    ensures SameOutside(Dfs1(t, p, s).head, s.head, s.time, s.time + |Subs(t)|)
    decreases t
  {
    RootSplit(t, |s.parent|);
    var s1 := Enter(t, p, s);
    Dfs1KidsHeads(t.kids, t.id, s1);
    Dfs1KidsRootI(t.kids, t.id, s1);
  }

  lemma {:induction false} Dfs1KidsHeads(ks: seq<Rose>, u: nat, s: Table)
    requires Bounded(s, |s.parent|) && u < |s.parent|
    requires Fits(SubsKids(ks), |s.parent|) && Distinct(SubsKids(ks)) && u !in Ids(SubsKids(ks))
    requires 0 <= s.time && s.time + |SubsKids(ks)| <= |s.parent| <= MaxNodes
    ensures SameOutside(Dfs1Kids(ks, u, s).head, s.head, s.time, s.time + |SubsKids(ks)|)
    decreases ks
  {
    if |ks| > 0 {
      KidsSplit(ks, u, |s.parent|);
      var s1 := Dfs1(ks[0], u, s);
      Dfs1Heads(ks[0], u, s);
      Dfs1KidsHeads(ks[1..], u, Adopt(s1, u, ks[0].id));
      SameOutsideTrans(Dfs1Kids(ks, u, s).head, s1.head, s.head, s.time, s1.time, s.time + |SubsKids(ks)|);
    }
  }

  /** I of t's root ends up among t's preorder numbers. */
  lemma {:induction false} Dfs1RootI(t: Rose, p: int, s: Table)
    requires Bounded(s, |s.parent|) && Fits(Subs(t), |s.parent|) && Distinct(Subs(t))
    requires 0 <= s.time && s.time + |Subs(t)| <= |s.parent| <= MaxNodes
    ensures s.time <= Dfs1(t, p, s).I[t.id] < s.time + |Subs(t)|
    decreases t
  {
    RootSplit(t, |s.parent|);
    Dfs1KidsRootI(t.kids, t.id, Enter(t, p, s));
  }

  lemma {:induction false} Dfs1KidsRootI(ks: seq<Rose>, u: nat, s: Table)
    requires Bounded(s, |s.parent|) && u < |s.parent|
    requires Fits(SubsKids(ks), |s.parent|) && Distinct(SubsKids(ks)) && u !in Ids(SubsKids(ks))
    requires 0 <= s.time && s.time + |SubsKids(ks)| <= |s.parent| <= MaxNodes
    ensures Dfs1Kids(ks, u, s).I[u] == s.I[u] || s.time <= Dfs1Kids(ks, u, s).I[u] < s.time + |SubsKids(ks)|
    decreases ks
  {
    if |ks| > 0 {
      KidsSplit(ks, u, |s.parent|);
      var s1 := Dfs1(ks[0], u, s);
      Dfs1Keeps(ks[0], u, s);
      Dfs1RootI(ks[0], u, s);
      assert s1.I[u] == s.I[u];
      Dfs1KidsRootI(ks[1..], u, Adopt(s1, u, ks[0].id));
    }
  }

  /** The children of every node of S are nodes of S. */
  ghost predicate KidsIn(S: seq<Rose>)
  {
    forall m, j :: 0 <= m < |S| && 0 <= j < |S[m].kids| ==> S[m].kids[j].id in Ids(S)
  }

  lemma {:induction false} KidsAreSubs(t: Rose)
    ensures KidsIn(Subs(t))
    decreases t
  {
    var S, K := Subs(t), SubsKids(t.kids);
    KidsAreSubsKids(t.kids);
    Split([t], K, 0);
    forall m, j | 0 <= m < |S| && 0 <= j < |S[m].kids|
      ensures S[m].kids[j].id in Ids(S)
    {
      if m == 0 {
        var i := KidInSubsKids(t.kids, j);
        assert S[i + 1].id == t.kids[j].id;
      } else {
        assert S[m] == K[m - 1];
        assert S[m].kids[j].id in Ids(K);
      }
    }
  }

  lemma {:induction false} KidsAreSubsKids(ks: seq<Rose>)
    ensures KidsIn(SubsKids(ks))
    decreases ks
  {
    if |ks| > 0 {
      KidsAreSubs(ks[0]);
      KidsAreSubsKids(ks[1..]);
      var A: seq<Rose>, B: seq<Rose> := Subs(ks[0]), SubsKids(ks[1..]);
      Split(A, B, 0);
      forall m, j | 0 <= m < |A + B| && 0 <= j < |(A + B)[m].kids|
        ensures (A + B)[m].kids[j].id in Ids(A + B)
      {
        if m < |A| {
          assert (A + B)[m] == A[m];
        } else {
          assert (A + B)[m] == B[m - |A|];
        }
      }
    }
  }

  /** Child j of the list heads its subtree inside SubsKids(ks), at position i. */
  lemma {:induction false} KidInSubsKids(ks: seq<Rose>, j: nat) returns (i: nat)
    requires j < |ks|
    ensures i < |SubsKids(ks)| && SubsKids(ks)[i] == ks[j]
    decreases j
  {
    if j == 0 {
      i := 0;
    } else {
      var i' := KidInSubsKids(ks[1..], j - 1);
      i := |Subs(ks[0])| + i';
    }
  }

  /** The nodes of S hold the consecutive numbers T, T + 1, ... in pre. */
  ghost predicate Numbered(S: seq<Rose>, pre: seq<int>, T: int)
  {
    forall m :: 0 <= m < |S| ==> S[m].id < |pre| && pre[S[m].id] == T + m
  }

  lemma NumberedCat(A: seq<Rose>, B: seq<Rose>, p1: seq<int>, p2: seq<int>, T: int, X: set<nat>)
    requires Numbered(A, p1, T) && Numbered(B, p2, T + |A|)
    requires Agree(p2, p1, X) && Ids(A) !! X
    ensures Numbered(A + B, p2, T)
  {
    forall m | 0 <= m < |A + B|
      ensures (A + B)[m].id < |p2| && p2[(A + B)[m].id] == T + m
    {
      if m < |A| {
        assert (A + B)[m] == A[m] && A[m].id in Ids(A);
      } else {
        assert (A + B)[m] == B[m - |A|];
      }
    }
  }

  /** Every child of a node of S has that node as its parent in par. */
  ghost predicate Linked(S: seq<Rose>, par: seq<int>)
  {
    forall m, j :: 0 <= m < |S| && 0 <= j < |S[m].kids| ==>
      S[m].kids[j].id < |par| && par[S[m].kids[j].id] == S[m].id
  }

  /** Every node of ks has parent u in par. */
  ghost predicate ParentsAre(ks: seq<Rose>, par: seq<int>, u: int)
  {
    forall j :: 0 <= j < |ks| ==> ks[j].id < |par| && par[ks[j].id] == u
  }

  lemma LinkedCat(A: seq<Rose>, B: seq<Rose>, p1: seq<int>, p2: seq<int>, X: set<nat>)
    requires Linked(A, p1) && Linked(B, p2) && KidsIn(A)
    requires Agree(p2, p1, X) && Ids(A) !! X
    ensures Linked(A + B, p2)
  {
    forall m, j | 0 <= m < |A + B| && 0 <= j < |(A + B)[m].kids|
      ensures (A + B)[m].kids[j].id < |p2| && p2[(A + B)[m].kids[j].id] == (A + B)[m].id
    {
      if m < |A| {
        assert (A + B)[m] == A[m] && A[m].kids[j].id in Ids(A);
      } else {
        assert (A + B)[m] == B[m - |A|];
      }
    }
  }

  lemma LinkedRoot(t: Rose, par: seq<int>)
    requires ParentsAre(t.kids, par, t.id) && Linked(SubsKids(t.kids), par)
    ensures Linked(Subs(t), par)
  {
    var S, K := Subs(t), SubsKids(t.kids);
    forall m, j | 0 <= m < |S| && 0 <= j < |S[m].kids|
      ensures S[m].kids[j].id < |par| && par[S[m].kids[j].id] == S[m].id
    {
      if m > 0 {
        assert S[m] == K[m - 1];
      }
    }
  }

  /** dfs1 numbers t's nodes s.time, s.time + 1, ... in preorder and records
      p as the parent of t's root and every node as the parent of its children. */
  lemma {:induction false} Dfs1Numbers(t: Rose, p: int, s: Table)
    requires Bounded(s, |s.parent|) && Fits(Subs(t), |s.parent|) && Distinct(Subs(t))
    requires 0 <= s.time && s.time + |Subs(t)| <= |s.parent| <= MaxNodes
    ensures Numbered(Subs(t), Dfs1(t, p, s).preorder, s.time)
    ensures ParentsAre([t], Dfs1(t, p, s).parent, p)
    ensures Linked(Subs(t), Dfs1(t, p, s).parent)
    decreases t
  {
    RootSplit(t, |s.parent|);
    var s1 := Enter(t, p, s);
    var s2 := Dfs1Kids(t.kids, t.id, s1);
    Dfs1KidsNumbers(t.kids, t.id, s1);
    Dfs1KidsKeeps(t.kids, t.id, s1);
    var K := SubsKids(t.kids);
    assert Ids([t]) == {t.id} by {
      assert [t][0].id == t.id;
    }
    NumberedCat([t], K, s1.preorder, s2.preorder, s.time, Ids(K));
    LinkedRoot(t, s2.parent);
  }

  lemma {:induction false} Dfs1KidsNumbers(ks: seq<Rose>, u: nat, s: Table)
    requires Bounded(s, |s.parent|) && u < |s.parent|
    requires Fits(SubsKids(ks), |s.parent|) && Distinct(SubsKids(ks)) && u !in Ids(SubsKids(ks))
    requires 0 <= s.time && s.time + |SubsKids(ks)| <= |s.parent| <= MaxNodes
    ensures Numbered(SubsKids(ks), Dfs1Kids(ks, u, s).preorder, s.time)
    ensures ParentsAre(ks, Dfs1Kids(ks, u, s).parent, u)
    ensures Linked(SubsKids(ks), Dfs1Kids(ks, u, s).parent)
    decreases ks
  {
    if |ks| > 0 {
      KidsSplit(ks, u, |s.parent|);
      var s1 := Dfs1(ks[0], u, s);
      Dfs1Numbers(ks[0], u, s);
      var s2 := Adopt(s1, u, ks[0].id);
      var r := Dfs1Kids(ks[1..], u, s2);
      Dfs1KidsNumbers(ks[1..], u, s2);
      Dfs1KidsKeeps(ks[1..], u, s2);
      KidsAreSubs(ks[0]);
      var A: seq<Rose>, B: seq<Rose> := Subs(ks[0]), SubsKids(ks[1..]);
      NumberedCat(A, B, s1.preorder, r.preorder, s.time, Ids(B));
      LinkedCat(A, B, s1.parent, r.parent, Ids(B));
      assert A[0] == ks[0] && ks[0].id in Ids(A);
      forall j | 0 <= j < |ks|
        ensures ks[j].id < |r.parent| && r.parent[ks[j].id] == u
      {
        if j > 0 {
          assert ks[j] == ks[1..][j - 1];
        } else {
          assert [ks[0]][0] == ks[0];
        }
      }
    }
  }
}
