/** The 32-bit C `int` arithmetic the Schieber–Vishkin code relies on: two's
    complement patterns, wrap-around, `&`, `|`, `^`, `~`, and the helpers
    lsb, __builtin_clz and msb. A C `int` is a Dafny `int` in
    [-2^31, 2^31); the bitwise operators act on its 32-bit pattern, read as a
    natural number in [0, 2^32). */
module CInt {
  import opened NatBits

  const Two31: int := 0x8000_0000
  const Two32: int := 0x1_0000_0000

  predicate IsInt(x: int)
  {
    -Two31 <= x < Two31
  }

  lemma {:induction false} Pow2Add(a: nat, b: nat)
    ensures Pow2(a + b) == Pow2(a) * Pow2(b)
    decreases a
  {
    if a > 0 {
      Pow2Add(a - 1, b);
    }
  }

  lemma Pow2Of32()
    ensures Pow2(31) == Two31 && Pow2(32) == Two32
  {
    assert Pow2(4) == 16;
    Pow2Add(4, 4);
    assert Pow2(8) == 256;
    Pow2Add(8, 8);
    assert Pow2(16) == 0x1_0000;
    Pow2Add(16, 15);
    Pow2Add(16, 16);
  }

  /** The 32-bit two's-complement pattern of x. */
  function Pattern(x: int): (r: nat)
    ensures r < Two32
    ensures 0 <= x ==> (r == x <==> x < Two32)
  {
    x % Two32
  }

  /** The C `int` whose pattern is p. */
  function FromPattern(p: nat): (r: int)
    requires p < Two32
    ensures IsInt(r) && Pattern(r) == p
    ensures r >= 0 <==> p < Two31
  {
    if p < Two31 then p else p - Two32
  }

  /** x reduced into `int` range the way a two's-complement machine wraps it. */
  function Wrap(x: int): (r: int)
    ensures IsInt(r) && Pattern(r) == Pattern(x)
    ensures IsInt(x) ==> r == x
  {
    FromPattern(Pattern(x))
  }

  function BitAnd(x: int, y: int): (r: int)
    ensures IsInt(r) && Pattern(r) == And(Pattern(x), Pattern(y))
  {
    AndAtMostMin(Pattern(x), Pattern(y));
    FromPattern(And(Pattern(x), Pattern(y)))
  }

  function BitOr(x: int, y: int): (r: int)
    ensures IsInt(r) && Pattern(r) == Or(Pattern(x), Pattern(y))
  {
    Pow2Of32();
    OrBound(Pattern(x), Pattern(y), 32);
    FromPattern(Or(Pattern(x), Pattern(y)))
  }

  function BitXor(x: int, y: int): (r: int)
    ensures IsInt(r) && Pattern(r) == Xor(Pattern(x), Pattern(y))
  {
    Pow2Of32();
    XorBound(Pattern(x), Pattern(y), 32);
    FromPattern(Xor(Pattern(x), Pattern(y)))
  }

  /** `~x`: every bit flipped, which on a two's-complement `int` is -x - 1. */
  function BitNot(x: int): (r: int)
    requires IsInt(x)
    ensures IsInt(r) && Pattern(r) == Two32 - 1 - Pattern(x)
  {
    -x - 1
  }

  /** x & -x on a non-negative `int` keeps only its lowest set bit (0 for 0). */
  lemma AndNegation(x: int)
    ensures 0 <= x < Two31 ==> BitAnd(x, Wrap(-x)) == LowBit(x) && 0 <= LowBit(x) <= x
  {
    if 0 < x < Two31 {
      Pow2Of32();
      assert Pattern(Wrap(-x)) == Two32 - x;
      AndNegIsLowBit(x, 32);
      AndAtMostMin(x, Two32 - x);
    }
  }

  /** lsb(x) = x & -x: on a non-negative `int`, the lowest set bit (0 for 0). */
  function Lsb(x: int): (r: int)
    ensures IsInt(r)
    ensures 0 <= x < Two31 ==> r == LowBit(x) && 0 <= r <= x
  {
    AndNegation(x);
    BitAnd(x, Wrap(-x))
  }

  /** The lowest-set-bit reading of lsb, for callers that want it as a step. */
  lemma LsbIsLowBit(x: int)
    requires 0 <= x < Two31
    ensures Lsb(x) == LowBit(x) && 0 <= Lsb(x) <= x
  {
  }

  /** __builtin_clz on a non-zero `int`: the zero bits above the highest set bit of its pattern. */
  function Clz(x: int): (r: nat)
    requires IsInt(x) && x != 0
    ensures r < 32 && Pow2(31 - r) <= Pattern(x) < Pow2(32 - r)
  {
    Pow2Of32();
    31 - TopBit(Pattern(x), 31)
  }

  /** 1 << (31 - clz(x)) for a non-zero x: the highest set bit of a positive x,
      and the sign bit INT_MIN for a negative one. */
  lemma HighBitOf(x: int)
    requires IsInt(x) && x != 0
    ensures 0 < x ==> 0 < Wrap(Pow2(31 - Clz(x))) && IsPow2(Wrap(Pow2(31 - Clz(x)))) && Wrap(Pow2(31 - Clz(x))) <= x < 2 * Wrap(Pow2(31 - Clz(x)))
    ensures x < 0 ==> Wrap(Pow2(31 - Clz(x))) == -Two31
  {
    Pow2Of32();
    var k := 31 - Clz(x);
    if 0 < x {
      assert Pow2(k) <= x < Pow2(k + 1);
      assert Pow2(k) < Two31;
      Pow2IsPow2(k);
    } else {
      assert Pattern(x) == x + Two32 && Two31 <= Pattern(x);
      assert k == 31;
    }
  }

  /** msb(x) = 0 for 0, else 1 << (31 - clz(x)): the highest set bit of a
      positive `int`, a power of two h with h <= x < 2h, and the sign bit
      INT_MIN for a negative one. */
  function Msb(x: int): (r: int)
    requires IsInt(x)
    ensures IsInt(r)
    ensures x == 0 ==> r == 0
    ensures 0 < x ==> 0 < r && IsPow2(r) && r <= x < 2 * r
    ensures x < 0 ==> r == -Two31
  {
    if x == 0 then 0 else HighBitOf(x); Wrap(Pow2(31 - Clz(x)))
  }

  /** The highest-set-bit reading of msb, for callers that want it as a step. */
  lemma MsbIsHighBit(x: int)
    requires 0 < x < Two31
    ensures IsPow2(Msb(x)) && Msb(x) <= x < 2 * Msb(x)
  {
  }

  /** msb of a negative `int` is the sign bit, INT_MIN. */
  lemma MsbOfNegative(x: int)
    requires -Two31 <= x < 0
    ensures Msb(x) == -Two31
  {
  }

  /** a & a == a on a non-negative `int`. */
  lemma BitAndSelf(a: int)
    requires 0 <= a < Two31
    ensures BitAnd(a, a) == a
  {
    AndSelf(a);
  }

  /** a & 0 == 0. */
  lemma BitAndZero(a: int)
    ensures BitAnd(a, 0) == 0
  {
  }

  /** For h = 2^j below the sign bit, `~h + 1` is -h, whose pattern is 2^32 - 2^j. */
  lemma NegPow2(h: int, j: nat)
    requires h == Pow2(j) && h < Two31
    ensures Wrap(BitNot(h) + 1) == -h && Pattern(-h) == Pow2(32) - Pow2(j)
  {
    Pow2Of32();
  }

  /** Masking a bit h of a with 2^32 - h keeps h as the lowest set bit. */
  lemma LowBitAboveBit(a: nat, h: nat)
    requires a < Two31 && 0 < h < Two31 && IsPow2(h) && And(a, h) == h
    ensures h < Two32 && LowBit(And(a, Two32 - h)) == h
  {
    var j := IsPow2IsPow2Of(h);
    Pow2Of32();
    AndPow2IsBit(a, j);
    if 31 < j {
      Pow2Below(31, j);
    }
    LowBitAboveMask(a, j, 32);
  }

  /** For 0 < h < 2^31, `~h + 1` is -h, whose pattern is 2^32 - h. */
  lemma NegatePositive(h: int)
    requires 0 < h < Two31
    ensures Wrap(BitNot(h) + 1) == -h && Pattern(-h) == Two32 - h
  {
  }

  /** & with a non-negative `int` is the & of the number with the other pattern. */
  lemma BitAndOfNonNegative(a: int, m: int)
    requires 0 <= a < Two31
    ensures BitAnd(a, m) == And(a, Pattern(m))
  {
    AndAtMostMin(a, Pattern(m));
  }

  /** For a power of two h that is a bit of a non-negative a, `~h + 1` is -h,
      which keeps exactly the bits h and above, so lsb(a & (~h + 1)) == h. */
  lemma LsbAboveMask(a: int, h: int)
    requires 0 <= a < Two31 && 0 < h < Two31 && IsPow2(h) && And(a, h) == h
    ensures Lsb(BitAnd(a, Wrap(BitNot(h) + 1))) == h
  {
    LowBitAboveBit(a, h);
    NegatePositive(h);
    BitAndOfNonNegative(a, Wrap(BitNot(h) + 1));
    LsbIsLowBit(And(a, Two32 - h));
  }
}
