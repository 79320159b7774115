/** `FactorialNTT<mod, root>`: the same naive product and rising-factorial
    products as `multPolyMod` / `multPolyPolyMod`, with the NTT multiplies
    `NTT::multiply` and `PolyNTT::multiplyFast` in place of the FFT one. */
module FactorialNtt {
  import opened PolyAlgebra
  import opened Convolution
  import opened RisingFactorial
  import opened RisingBuckets

  /** multiplySlow: the naive product, every entry reduced modulo mod. */
  method MultiplySlow(left: seq<int>, right: seq<int>, mod: int) returns (res: seq<int>)
    requires mod > 0 && |left| + |right| >= 1
    requires NonNegative(left) && NonNegative(right)
    ensures |res| == |left| + |right| - 1
    ensures forall k :: 0 <= k < |res| ==> 0 <= res[k] < mod && res[k] == Coef(right, left, k) % mod
    ensures |left| > 0 && |right| > 0 ==> res == ModP(Mul(left, right), mod)
  {
    res := MultPolyMod(left, right, mod);
  }

  /** multiplyRisingFactorialSmall, with `nttMultiply` standing for NTT::multiply. */
  method MultiplyRisingFactorialSmall(left: int, right: int, mod: int,
                                      nttMultiply: (seq<int>, seq<int>) -> seq<int>) returns (res: seq<int>)
    requires mod > 0 && left >= 0 && IsModProduct(nttMultiply, mod)
    ensures right <= left ==> res == [1, left]
    ensures left < right ==> res == ModP(Rising(left, right), mod)
    ensures left <= right ==> |res| == right - left + 2
    ensures mod > 1 || right <= left ==> res[0] == 1
  {
    res := RisingProduct(left, right, mod, nttMultiply);
  }

  /** multiplyRisingFactorial, with `multiplyFast` standing for PolyNTT::multiplyFast. */
  method MultiplyRisingFactorial(left: int, right: int, mod: int,
                                 multiplyFast: (seq<int>, seq<int>) -> seq<int>) returns (res: seq<int>)
    requires mod > 0 && left >= 0 && IsModProduct(multiplyFast, mod)
    ensures right <= left ==> res == [1, left]
    ensures left < right ==> res == ModP(Rising(left, right), mod)
    ensures left <= right ==> |res| == right - left + 2
    ensures mod > 1 || right <= left ==> res[0] == 1
  {
    res := RisingProduct(left, right, mod, multiplyFast);
  }

  /** The two rising-factorial variants return identical coefficient vectors, and
      both agree with multPolyPolyMod. */
  method VariantsAgree(left: int, right: int, mod: int,
                       nttMultiply: (seq<int>, seq<int>) -> seq<int>,
                       multiplyFast: (seq<int>, seq<int>) -> seq<int>) returns (small: seq<int>, fast: seq<int>, viaFft: seq<int>)
    requires mod > 0 && left >= 0
    requires IsModProduct(nttMultiply, mod) && IsModProduct(multiplyFast, mod)
    ensures small == fast == viaFft
  {
    small := MultiplyRisingFactorialSmall(left, right, mod, nttMultiply);
    fast := MultiplyRisingFactorial(left, right, mod, multiplyFast);
    viaFft := MultPolyPolyMod(left, right, mod, nttMultiply);
  }
}
