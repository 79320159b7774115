/** Strictly increasing integer sequences, the in-order reading of a binary
    search tree with distinct keys: sorted insertion and deletion of a key and
    where a key sits between its neighbours. */
module SortedSeq {
  /** Strictly increasing: the in-order reading of a search tree with distinct keys. */
  predicate Increasing(a: seq<int>)
  {
    forall i, j :: 0 <= i < j < |a| ==> a[i] < a[j]
  }

  predicate Below(a: seq<int>, k: int)
  {
    forall i :: 0 <= i < |a| ==> a[i] < k
  }

  predicate Above(a: seq<int>, k: int)
  {
    forall i :: 0 <= i < |a| ==> a[i] > k
  }

  /** The increasing sequence a with k added, when k is not already there. */
  function InsertSorted(a: seq<int>, k: int): (r: seq<int>)
    ensures forall e :: e in r <==> e in a || e == k
    ensures Increasing(a) ==> Increasing(r)
    ensures k !in a ==> |r| == |a| + 1
    decreases |a|
  {
    if |a| == 0 then [k]
    else if k < a[0] then [k] + a
    else if k == a[0] then a
    else
      var rest := InsertSorted(a[1..], k);
      assert Increasing(a) ==> Increasing([a[0]] + rest) by {
        if Increasing(a) {
          assert Increasing(a[1..]);
          forall e | e in rest ensures a[0] < e {
            if e != k {
              var j :| 0 <= j < |a[1..]| && a[1..][j] == e;
              assert a[j + 1] == e;
            }
          }
          ConsIncreasing(a[0], rest);
        }
      }
      [a[0]] + rest
  }

  /** a with every occurrence of k dropped. */
  function Without(a: seq<int>, k: int): (r: seq<int>)
    ensures forall e :: e in r <==> e in a && e != k
    ensures Increasing(a) ==> Increasing(r)
    ensures |r| <= |a| && (k in a ==> |r| < |a|)
    decreases |a|
  {
    if |a| == 0 then []
    else if a[0] == k then Without(a[1..], k)
    else
      var rest := Without(a[1..], k);
      assert Increasing(a) ==> Increasing([a[0]] + rest) by {
        if Increasing(a) {
          assert Increasing(a[1..]);
          forall e | e in rest ensures a[0] < e {
            var j :| 0 <= j < |a[1..]| && a[1..][j] == e;
            assert a[j + 1] == e;
          }
          ConsIncreasing(a[0], rest);
        }
      }
      [a[0]] + rest
  }

  lemma ConsIncreasing(x: int, rest: seq<int>)
    requires Increasing(rest) && forall e :: e in rest ==> x < e
    ensures Increasing([x] + rest)
  {
    var w := [x] + rest;
    forall i, j | 0 <= i < j < |w| ensures w[i] < w[j] {
      assert w[j] == rest[j - 1] && w[j] in rest;
      if i > 0 {
        assert w[i] == rest[i - 1];
      }
    }
  }

  /** Putting k between the parts of an increasing sequence that lie below and above it. */
  lemma {:induction false} InsertSortedSplit(a: seq<int>, b: seq<int>, k: int)
    requires Below(a, k) && Above(b, k)
    ensures InsertSorted(a + b, k) == a + [k] + b
    decreases |a|
  {
    if |a| == 0 {
      assert a + b == b && a + [k] + b == [k] + b;
      InsertSortedFront(b, k);
    } else {
      var w := a + b;
      assert w[0] == a[0] && a[0] < k && w[1..] == a[1..] + b;
      BelowTail(a, k);
      InsertSortedSplit(a[1..], b, k);
      InsertSortedStep(w, k);
      assert a + [k] + b == [a[0]] + (a[1..] + [k] + b);
    }
  }

  lemma InsertSortedFront(b: seq<int>, k: int)
    requires Above(b, k)
    ensures InsertSorted(b, k) == [k] + b
  {
    if |b| > 0 {
      assert k < b[0];
    }
  }

  lemma InsertSortedStep(w: seq<int>, k: int)
    requires |w| > 0 && w[0] < k
    ensures InsertSorted(w, k) == [w[0]] + InsertSorted(w[1..], k)
  {
  }

  lemma BelowTail(a: seq<int>, k: int)
    requires |a| > 0 && Below(a, k)
    ensures Below(a[1..], k)
  {
    forall i | 0 <= i < |a[1..]| ensures a[1..][i] < k {
      assert a[1..][i] == a[i + 1];
    }
  }

  /** Inserting a key already present changes nothing. */
  lemma {:induction false} InsertSortedPresent(a: seq<int>, k: int)
    requires Increasing(a) && k in a
    ensures InsertSorted(a, k) == a
    decreases |a|
  {
    if k != a[0] {
      PastHead(a, k);
      IncreasingTail(a);
      InsertSortedPresent(a[1..], k);
      InsertSortedStep(a, k);
      assert [a[0]] + a[1..] == a;
    }
  }

  /** An element of an increasing sequence other than its head lies after it and above it. */
  lemma PastHead(a: seq<int>, k: int)
    requires Increasing(a) && k in a && k != a[0]
    ensures a[0] < k && k in a[1..]
  {
    var j :| 0 <= j < |a| && a[j] == k;
    assert a[1..][j - 1] == k;
  }

  lemma IncreasingTail(a: seq<int>)
    requires Increasing(a) && |a| > 0
    ensures Increasing(a[1..])
  {
    forall i, j | 0 <= i < j < |a[1..]| ensures a[1..][i] < a[1..][j] {
      assert a[1..][i] == a[i + 1] && a[1..][j] == a[j + 1];
    }
  }

  lemma {:induction false} WithoutAbsent(a: seq<int>, k: int)
    requires k !in a
    ensures Without(a, k) == a
    decreases |a|
  {
    if |a| > 0 {
      assert a[0] != k && k !in a[1..];
      WithoutAbsent(a[1..], k);
      assert Without(a, k) == [a[0]] + a[1..];
      assert [a[0]] + a[1..] == a;
    }
  }

  /** Dropping the one occurrence of k between two parts that do not hold it. */
  lemma {:induction false} WithoutSplit(a: seq<int>, b: seq<int>, k: int)
    requires k !in a && k !in b
    ensures Without(a + [k] + b, k) == a + b
    decreases |a|
  {
    if |a| == 0 {
      assert (a + [k] + b)[1..] == b;
      WithoutAbsent(b, k);
    } else {
      assert (a + [k] + b)[1..] == a[1..] + [k] + b;
      WithoutSplit(a[1..], b, k);
      assert a + b == [a[0]] + (a[1..] + b);
    }
  }

  lemma CatAssoc<T>(a: seq<T>, b: seq<T>, c: seq<T>)
    ensures a + b + c == a + (b + c)
  {
  }

  lemma IncreasingAround(a: seq<int>, v: int, b: seq<int>)
    requires Increasing(a + [v] + b)
    ensures Increasing(a) && Increasing(b) && Below(a, v) && Above(b, v)
  {
    var w := a + [v] + b;
    assert w[|a|] == v;
    forall i, j | 0 <= i < j < |a| ensures a[i] < a[j] {
      assert a[i] == w[i] && a[j] == w[j];
    }
    forall i, j | 0 <= i < j < |b| ensures b[i] < b[j] {
      assert b[i] == w[|a| + 1 + i] && b[j] == w[|a| + 1 + j];
    }
    forall i | 0 <= i < |a| ensures a[i] < v {
      assert a[i] == w[i];
    }
    forall i | 0 <= i < |b| ensures v < b[i] {
      assert b[i] == w[|a| + 1 + i];
    }
  }

  lemma AboveCat(a: seq<int>, b: seq<int>, k: int)
    requires Above(a, k) && Above(b, k)
    ensures Above(a + b, k)
  {
  }

  lemma BelowCat(a: seq<int>, b: seq<int>, k: int)
    requires Below(a, k) && Below(b, k)
    ensures Below(a + b, k)
  {
  }

  /** v above k, followed by what lies above v, lies above k. */
  lemma AboveCons(v: int, b: seq<int>, k: int)
    requires k < v && Above(b, v)
    ensures Above([v] + b, k)
  {
  }

  lemma BelowSnoc(a: seq<int>, v: int, k: int)
    requires v < k && Below(a, v)
    ensures Below(a + [v], k)
  {
  }

  /** No element of w lies strictly between key and v. */
  predicate Neighbour(w: seq<int>, key: int, v: int)
  {
    forall i :: 0 <= i < |w| ==> !(key < w[i] < v) && !(v < w[i] < key)
  }

  lemma NeighbourAround(a: seq<int>, v: int, b: seq<int>, key: int)
    requires Increasing(a + [v] + b)
    requires v == key || (key < v && Below(a, key)) || (key > v && Above(b, key))
    ensures (key in a + [v] + b <==> v == key) && Neighbour(a + [v] + b, key, v)
  {
    var w := a + [v] + b;
    IncreasingAround(a, v, b);
    forall i | 0 <= i < |w| ensures !(key < w[i] < v) && !(v < w[i] < key) && (w[i] == key ==> v == key) {
      if i < |a| {
        assert w[i] == a[i];
      } else if i > |a| {
        assert w[i] == b[i - |a| - 1];
      }
    }
  }
}
