/** Bitwise operations on non-negative integers, as C++ evaluates `^`, `|`, `&`
    on non-negative `int` operands, together with powers of two. */
module NatBits {

  /** 2^k */
  function Pow2(k: nat): (r: nat)
    ensures r >= 1
  {
    if k == 0 then 1 else 2 * Pow2(k - 1)
  }

  /** n is a power of two (1, 2, 4, ...). */
  predicate IsPow2(n: nat)
    decreases n
  {
    n == 1 || (n > 1 && n % 2 == 0 && IsPow2(n / 2))
  }

  function Xor(a: nat, b: nat): nat
    decreases a + b
  {
    if a == 0 then b
    else if b == 0 then a
    else 2 * Xor(a / 2, b / 2) + (a % 2 + b % 2) % 2
  }

  function Or(a: nat, b: nat): nat
    decreases a + b
  {
    if a == 0 then b
    else if b == 0 then a
    else 2 * Or(a / 2, b / 2) + (if a % 2 == 1 || b % 2 == 1 then 1 else 0)
  }

  function And(a: nat, b: nat): nat
    decreases a + b
  {
    if a == 0 || b == 0 then 0
    else 2 * And(a / 2, b / 2) + (a % 2) * (b % 2)
  }

  lemma {:induction false} Pow2IsPow2(k: nat)
    ensures IsPow2(Pow2(k))
  {
    if k > 0 {
      Pow2IsPow2(k - 1);
      assert Pow2(k) / 2 == Pow2(k - 1);
    }
  }

  /** Every power of two is 2^k for some k below it. */
  lemma {:induction false} IsPow2IsPow2Of(n: nat) returns (k: nat)
    requires IsPow2(n)
    ensures Pow2(k) == n && k < n
  {
    if n == 1 {
      k := 0;
    } else {
      var k' := IsPow2IsPow2Of(n / 2);
      k := k' + 1;
    }
  }

  /** The bitwise result of two numbers below 2^k is below 2^k. */
  lemma {:induction false} XorBound(a: nat, b: nat, k: nat)
    requires a < Pow2(k) && b < Pow2(k)
    ensures Xor(a, b) < Pow2(k)
    decreases a + b
  {
    if a != 0 && b != 0 {
      XorBound(a / 2, b / 2, k - 1);
    }
  }

  lemma {:induction false} OrBound(a: nat, b: nat, k: nat)
    requires a < Pow2(k) && b < Pow2(k)
    ensures Or(a, b) < Pow2(k)
    decreases a + b
  {
    if a != 0 && b != 0 {
      OrBound(a / 2, b / 2, k - 1);
    }
  }

  /** `a & b` never exceeds either operand. */
  lemma {:induction false} AndAtMostMin(a: nat, b: nat)
    ensures And(a, b) <= a && And(a, b) <= b
    decreases a + b
  {
    if a != 0 && b != 0 {
      AndAtMostMin(a / 2, b / 2);
    }
  }

  lemma {:induction false} AndSelf(a: nat)
    ensures And(a, a) == a
    decreases a
  {
    if a != 0 {
      AndSelf(a / 2);
    }
  }

  /** The test `!(s & (s - 1))` on a positive size holds exactly for powers of two. */
  lemma {:induction false} AndPredecessorZeroIffPow2(s: nat)
    requires s >= 1
    ensures And(s, s - 1) == 0 <==> IsPow2(s)
    decreases s
  {
    if s == 1 {
    } else if s % 2 == 0 {
      AndPredecessorZeroIffPow2(s / 2);
      assert (s - 1) / 2 == s / 2 - 1;
      assert And(s, s - 1) == 2 * And(s / 2, s / 2 - 1);
    } else {
      assert (s - 1) / 2 == s / 2;
      AndSelf(s / 2);
      assert And(s, s - 1) == 2 * (s / 2);
    }
  }

  /** The lowest set bit of x as a value (`x & -x` for x > 0), and 0 for 0. */
  function LowBit(x: nat): nat
    decreases x
  {
    if x == 0 then 0 else if x % 2 == 1 then 1 else 2 * LowBit(x / 2)
  }

  /** Bit j of a. */
  function Bit(a: nat, j: nat): nat
    decreases j
  {
    if j == 0 then a % 2 else Bit(a / 2, j - 1)
  }

  /** The lowest set bit is a power of two h with x == q * h for an odd q. */
  lemma {:induction false} LowBitIsLowest(x: nat) returns (q: nat)
    requires x > 0
    ensures IsPow2(LowBit(x)) && q % 2 == 1 && x == q * LowBit(x)
    decreases x
  {
    if x % 2 == 1 {
      q := x;
    } else {
      q := LowBitIsLowest(x / 2);
      var h := LowBit(x / 2);
      assert LowBit(x) == 2 * h;
      assert (2 * h) / 2 == h && (2 * h) % 2 == 0;
      MulTwice(q, h);
    }
  }

  lemma MulTwice(q: nat, h: nat)
    ensures 2 * (q * h) == q * (2 * h)
  {
  }

  /** a and 2^k - 1 - a share no bit when a < 2^k. */
  lemma {:induction false} AndComplement(a: nat, k: nat)
    requires a < Pow2(k)
    ensures And(a, Pow2(k) - 1 - a) == 0
    decreases k
  {
    var b := Pow2(k) - 1 - a;
    if a != 0 && b != 0 {
      assert (a % 2) * (b % 2) == 0;
      assert b / 2 == Pow2(k - 1) - 1 - a / 2;
      AndComplement(a / 2, k - 1);
    }
  }

  /** In k-bit two's complement, `x & -x` is the lowest set bit of x. */
  lemma {:induction false} AndNegIsLowBit(x: nat, k: nat)
    requires 0 < x < Pow2(k)
    ensures And(x, Pow2(k) - x) == LowBit(x)
    decreases k
  {
    var b := Pow2(k) - x;
    if x % 2 == 1 {
      assert b % 2 == 1 && b / 2 == Pow2(k - 1) - 1 - x / 2;
      AndComplement(x / 2, k - 1);
      AndStep(x, b);
    } else {
      assert b % 2 == 0 && b / 2 == Pow2(k - 1) - x / 2;
      AndNegIsLowBit(x / 2, k - 1);
      NegEven(x, b);
    }
  }

  lemma NegEven(x: nat, b: nat)
    requires x > 0 && x % 2 == 0 && b % 2 == 0 && And(x / 2, b / 2) == LowBit(x / 2)
    ensures And(x, b) == LowBit(x)
  {
    AndStep(x, b);
  }

  lemma {:induction false} Pow2Below(j: nat, k: nat)
    requires j < k
    ensures Pow2(j) < Pow2(k)
    decreases k
  {
    if j < k - 1 {
      Pow2Below(j, k - 1);
    }
  }

  /** Masking a with `-2^j` (k bits) keeps bit j, so when it is set it is the lowest bit left. */
  lemma {:induction false} LowBitAboveMask(a: nat, j: nat, k: nat)
    requires j < k && a < Pow2(k) && Bit(a, j) == 1
    ensures Pow2(j) < Pow2(k) && LowBit(And(a, Pow2(k) - Pow2(j))) == Pow2(j)
    decreases j
  {
    Pow2Below(j, k);
    var m := Pow2(k) - Pow2(j);
    if j == 0 {
      assert Pow2(k) % 2 == 0;
      MaskOdd(a, m);
    } else {
      assert m % 2 == 0 && m / 2 == Pow2(k - 1) - Pow2(j - 1);
      LowBitAboveMask(a / 2, j - 1, k - 1);
      MaskEven(a, m, j);
    }
  }

  lemma MaskOdd(a: nat, m: nat)
    requires a % 2 == 1 && m % 2 == 1
    ensures LowBit(And(a, m)) == 1
  {
    AndStep(a, m);
  }

  lemma MaskEven(a: nat, m: nat, j: nat)
    requires j > 0 && m % 2 == 0 && LowBit(And(a / 2, m / 2)) == Pow2(j - 1)
    ensures LowBit(And(a, m)) == Pow2(j)
  {
    AndStep(a, m);
    LowBitDouble(And(a / 2, m / 2));
  }

  /** One binary digit of `&`: the low bits combine, the rest is the `&` of the halves. */
  lemma AndStep(a: nat, b: nat)
    ensures And(a, b) == 2 * And(a / 2, b / 2) + (a % 2) * (b % 2)
  {
    if a == 0 || b == 0 {
      assert (a % 2) * (b % 2) == 0;
    }
  }

  /** One binary digit of `|`. */
  lemma OrStep(a: nat, b: nat)
    ensures Or(a, b) == 2 * Or(a / 2, b / 2) + (if a % 2 == 1 || b % 2 == 1 then 1 else 0)
  {
  }

  /** `(a | b) & b == b` */
  lemma {:induction false} AndOrAbsorb(a: nat, b: nat)
    ensures And(Or(a, b), b) == b
    decreases a + b
  {
    if a == 0 {
      AndSelf(b);
    } else if b != 0 {
      var o := Or(a, b);
      OrStep(a, b);
      AndStep(o, b);
      assert o / 2 == Or(a / 2, b / 2) && (o % 2) * (b % 2) == b % 2;
      AndOrAbsorb(a / 2, b / 2);
    }
  }

  /** `a & 2^j == 2^j` exactly says that bit j of a is set. */
  lemma {:induction false} AndPow2IsBit(a: nat, j: nat)
    requires And(a, Pow2(j)) == Pow2(j)
    ensures Bit(a, j) == 1
    decreases j
  {
    AndStep(a, Pow2(j));
    if j > 0 {
      assert Pow2(j) / 2 == Pow2(j - 1) && Pow2(j) % 2 == 0;
      AndPow2IsBit(a / 2, j - 1);
    }
  }

  lemma LowBitDouble(z: nat)
    requires z > 0
    ensures LowBit(2 * z) == 2 * LowBit(z)
  {
  }

  /** `a | 2^j` has bit j set. */
  lemma {:induction false} OrSetsBit(a: nat, j: nat)
    ensures Bit(Or(a, Pow2(j)), j) == 1
    decreases j
  {
    if j > 0 {
      OrSetsBit(a / 2, j - 1);
      var o := Or(a, Pow2(j));
      assert o / 2 == Or(a / 2, Pow2(j - 1));
    }
  }

  /** The index of the highest set bit of n, for 0 < n < 2^(k+1). */
  function TopBit(n: nat, k: nat): (r: nat)
    requires 0 < n < Pow2(k + 1)
    ensures r <= k && Pow2(r) <= n < Pow2(r + 1)
    decreases k
  {
    if n >= Pow2(k) || k == 0 then k else TopBit(n, k - 1)
  }

  lemma {:induction false} AndComm(a: nat, b: nat)
    ensures And(a, b) == And(b, a)
    decreases a + b
  {
    if a != 0 && b != 0 {
      AndComm(a / 2, b / 2);
    }
  }

  lemma {:induction false} XorComm(a: nat, b: nat)
    ensures Xor(a, b) == Xor(b, a)
    decreases a + b
  {
    if a != 0 && b != 0 {
      XorComm(a / 2, b / 2);
    }
  }
}
