/** Laws a merge operation may satisfy, and the left fold of a sequence under it.
    Each law is quantified over a named instance (`AssocAt`, `CommAt`, ...) so
    that a proof uses a law exactly where an `assert` names the instance. */
module Folds {
  ghost predicate AssocAt(op: (int, int) -> int, x: int, y: int, z: int)
  {
    op(op(x, y), z) == op(x, op(y, z))
  }

  ghost predicate Associative(op: (int, int) -> int)
  {
    forall x, y, z :: AssocAt(op, x, y, z)
  }

  ghost predicate CommAt(op: (int, int) -> int, x: int, y: int)
  {
    op(x, y) == op(y, x)
  }

  ghost predicate Commutative(op: (int, int) -> int)
  {
    forall x, y :: CommAt(op, x, y)
  }

  ghost predicate IdemAt(op: (int, int) -> int, x: int)
  {
    op(x, x) == x
  }

  ghost predicate Idempotent(op: (int, int) -> int)
  {
    forall x :: IdemAt(op, x)
  }

  ghost predicate IdentityAt(op: (int, int) -> int, d: int, x: int)
  {
    op(d, x) == x && op(x, d) == x
  }

  ghost predicate IsIdentity(op: (int, int) -> int, d: int)
  {
    forall x :: IdentityAt(op, d, x)
  }

  /** Left fold of a non-empty sequence. */
  function Fold(op: (int, int) -> int, s: seq<int>): int
    requires |s| > 0
  {
    if |s| == 1 then s[0] else op(Fold(op, s[..|s| - 1]), s[|s| - 1])
  }

  /** Folding a concatenation folds the parts, for an associative op. */
  lemma {:induction false} FoldAppend(op: (int, int) -> int, s: seq<int>, t: seq<int>)
    requires Associative(op) && |s| > 0 && |t| > 0
    ensures Fold(op, s + t) == op(Fold(op, s), Fold(op, t))
    decreases |t|
  {
    var t' := t[..|t| - 1];
    var last := t[|t| - 1];
    assert (s + t)[..|s + t| - 1] == s + t';
    if |t| > 1 {
      FoldAppend(op, s, t');
      calc {
        Fold(op, s + t);
        op(Fold(op, s + t'), last);
        op(op(Fold(op, s), Fold(op, t')), last);
        { assert AssocAt(op, Fold(op, s), Fold(op, t'), last); }
        op(Fold(op, s), op(Fold(op, t'), last));
        op(Fold(op, s), Fold(op, t));
      }
    }
  }
}
