/** The input and the state of the Schieber–Vishkin lowest-common-ancestor
    structure. The adjacency lists the source walks (skipping the parent) are
    given as the rooted tree they describe; the arrays parent, preorder, head,
    I and A and the clock form one table. C `int` arithmetic is the one of
    module CInt. */
module LcaTree {
  import opened NatBits
  import opened CInt
  import opened Optional

  /** A rooted tree: a node id and its children in adjacency-list order. */
  datatype Rose = Rose(id: nat, kids: seq<Rose>)

  /** The subtrees of t in preorder; their ids are the nodes in visiting order. */
  function Subs(t: Rose): (r: seq<Rose>)
    ensures |r| >= 1 && r[0] == t
    decreases t
  {
    [t] + SubsKids(t.kids)
  }

  function SubsKids(ks: seq<Rose>): seq<Rose>
    decreases ks
  {
    if |ks| == 0 then [] else Subs(ks[0]) + SubsKids(ks[1..])
  }

  ghost function Ids(S: seq<Rose>): set<nat>
  {
    set m | 0 <= m < |S| :: S[m].id
  }

  ghost predicate Fits(S: seq<Rose>, n: nat)
  {
    forall m :: 0 <= m < |S| ==> S[m].id < n
  }

  ghost predicate Distinct(S: seq<Rose>)
  {
    forall i, j :: 0 <= i < j < |S| ==> S[i].id != S[j].id
  }

  /** The arrays of the structure and the dfs clock. */
  datatype Table = Table(parent: seq<int>, preorder: seq<int>, head: seq<int>, I: seq<int>, A: seq<int>, time: int)

  predicate Sized(s: Table, n: nat)
  {
    |s.parent| == n && |s.preorder| == n && |s.head| == n && |s.I| == n && |s.A| == n
  }

  /** The arrays have length n and every I entry indexes head. */
  predicate Bounded(s: Table, n: nat)
  {
    Sized(s, n) && forall j :: 0 <= j < n ==> 0 <= s.I[j] < n
  }

  /** init(N): every array resized to N, the clock reset. */
  function Init(n: nat): (s: Table)
    ensures Bounded(s, n) && s.time == 0
  {
    Table(seq(n, _ => 0), seq(n, _ => 0), seq(n, _ => 0), seq(n, _ => 0), seq(n, _ => 0), 0)
  }

  /** The largest node count a C `int` clock can number. */
  const MaxNodes: int := 0x8000_0000

  lemma Split(A: seq<Rose>, B: seq<Rose>, n: nat)
    ensures Ids(A + B) == Ids(A) + Ids(B)
    ensures Fits(A + B, n) ==> Fits(A, n) && Fits(B, n)
    ensures Distinct(A + B) ==> Distinct(A) && Distinct(B) && Ids(A) !! Ids(B)
  {
    var C := A + B;
    forall x | x in Ids(C)
      ensures x in Ids(A) + Ids(B)
    {
      var m :| 0 <= m < |C| && C[m].id == x;
      if m < |A| {
        assert A[m].id == x;
      } else {
        assert B[m - |A|].id == x;
      }
    }
    forall x | x in Ids(A) + Ids(B)
      ensures x in Ids(C)
    {
      if x in Ids(A) {
        var m :| 0 <= m < |A| && A[m].id == x;
        assert C[m].id == x;
      } else {
        var m :| 0 <= m < |B| && B[m].id == x;
        assert C[m + |A|].id == x;
      }
    }
    if Fits(C, n) {
      forall m | 0 <= m < |A|
        ensures A[m].id < n
      {
        assert C[m] == A[m];
      }
      forall m | 0 <= m < |B|
        ensures B[m].id < n
      {
        assert C[m + |A|] == B[m];
      }
    }
    if Distinct(C) {
      forall i, j | 0 <= i < j < |A|
        ensures A[i].id != A[j].id
      {
        assert C[i] == A[i] && C[j] == A[j];
      }
      forall i, j | 0 <= i < j < |B|
        ensures B[i].id != B[j].id
      {
        assert C[i + |A|] == B[i] && C[j + |A|] == B[j];
      }
      forall i, j | 0 <= i < |A| && 0 <= j < |B|
        ensures A[i].id != B[j].id
      {
        assert C[i] == A[i] && C[j + |A|] == B[j];
      }
    }
  }

  /** The facts Dfs1Kids needs about its first child and the rest. */
  lemma KidsSplit(ks: seq<Rose>, u: nat, n: nat)
    requires |ks| > 0
    requires Fits(SubsKids(ks), n) && Distinct(SubsKids(ks)) && u !in Ids(SubsKids(ks))
    ensures Fits(Subs(ks[0]), n) && Distinct(Subs(ks[0])) && u !in Ids(Subs(ks[0]))
    ensures Fits(SubsKids(ks[1..]), n) && Distinct(SubsKids(ks[1..])) && u !in Ids(SubsKids(ks[1..]))
    ensures Ids(Subs(ks[0])) !! Ids(SubsKids(ks[1..]))
    ensures Ids(SubsKids(ks)) == Ids(Subs(ks[0])) + Ids(SubsKids(ks[1..]))
    ensures |SubsKids(ks)| == |Subs(ks[0])| + |SubsKids(ks[1..])|
  {
    Split(Subs(ks[0]), SubsKids(ks[1..]), n);
  }

  /** The facts Dfs1 needs about its root and its children. */
  lemma RootSplit(t: Rose, n: nat)
    requires Fits(Subs(t), n) && Distinct(Subs(t))
    ensures t.id < n && Fits(SubsKids(t.kids), n) && Distinct(SubsKids(t.kids))
    ensures t.id !in Ids(SubsKids(t.kids))
    ensures Ids(Subs(t)) == {t.id} + Ids(SubsKids(t.kids))
  {
    Split([t], SubsKids(t.kids), n);
    assert Ids([t]) == {t.id} by {
      assert [t][0].id == t.id;
    }
  }
}
