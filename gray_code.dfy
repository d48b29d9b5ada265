/** Binary-reflected Gray code of a 32-bit word, the same one-line
    function in both libraries. */
module GrayCode {

  /** `gray_code`: each bit is the xor of the bit and the one above it;
      the most significant bit is brought down unchanged. */
  function GrayCode(n: bv32): (g: bv32)
    ensures g >> 31 == n >> 31
    ensures forall k: bv32 :: k <= 32 ==> (FitsIn(g, k) <==> FitsIn(n, k))
  {
    LeadingBitKept(n);
    n ^ (n >> 1)
  }

  /** No bit of `x` at position `k` or above is set. */
  predicate FitsIn(x: bv32, k: bv32)
    requires k <= 32
  {
    x >> k == 0
  }

  /** Shifting commutes with the code, and `x ^ (x >> 1)` is zero only for
      zero, so the code has the same highest set bit as the number. */
  lemma LeadingBitKept(n: bv32)
    ensures forall k: bv32 :: k <= 32 ==> (FitsIn(n ^ (n >> 1), k) <==> FitsIn(n, k))
  {
    forall k: bv32 | k <= 32
      ensures FitsIn(n ^ (n >> 1), k) <==> FitsIn(n, k)
    {
      ShiftXor(n, n >> 1, k);
      ShiftShift(n, k);
      ZeroCode(n >> k);
    }
  }

  // Right shifts distribute over xor and commute with each other.
  lemma ShiftXor(a: bv32, b: bv32, k: bv32)
    requires k <= 32
    ensures (a ^ b) >> k == (a >> k) ^ (b >> k)
  {
  }

  /** Only zero has the code zero. */
  lemma ZeroCode(x: bv32)
    ensures x ^ (x >> 1) == 0 <==> x == 0
  {
  }

  lemma ShiftShift(n: bv32, k: bv32)
    requires k <= 32
    ensures (n >> 1) >> k == (n >> k) >> 1
  {
  }

  /** Exactly one bit set. */
  predicate SingleBit(d: bv32)
  {
    d != 0 && d & (d - 1) == 0
  }

  /** Consecutive numbers have codes that differ in exactly one bit, the
      wrap from 2^32 - 1 to 0 included. */
  lemma AdjacentCodesDifferInOneBit(n: bv32)
    ensures SingleBit(GrayCode(n) ^ GrayCode(n + 1))
  {
  }

  /** The inverse: each bit of the number is the xor of all code bits at
      and above it, accumulated by doubling shifts. */
  function Decode(g: bv32): (n: bv32)
  {
    Fold16(Fold8(Fold4(Fold2(Fold1(g)))))
  }

  // One doubling step of the decoder each: `x ^ (x >> k)`.
  function Fold1(x: bv32): bv32 { x ^ (x >> 1) }
  function Fold2(x: bv32): bv32 { x ^ (x >> 2) }
  function Fold4(x: bv32): bv32 { x ^ (x >> 4) }
  function Fold8(x: bv32): bv32 { x ^ (x >> 8) }
  function Fold16(x: bv32): bv32 { x ^ (x >> 16) }

  /** Decoding undoes the code, so distinct numbers have distinct codes. */
  lemma DecodeGrayCode(n: bv32)
    ensures Decode(GrayCode(n)) == n
  {
    calc {
      Decode(GrayCode(n));
      Fold16(Fold8(Fold4(Fold2(Fold1(GrayCode(n))))));
      { FirstFold(n); }
      Fold16(Fold8(Fold4(Fold2(n ^ (n >> 2)))));
      { SecondFold(n); }
      Fold16(Fold8(Fold4(n ^ (n >> 4))));
      { ThirdFold(n); }
      Fold16(Fold8(n ^ (n >> 8)));
      { FourthFold(n); }
      Fold16(n ^ (n >> 16));
      { LastFold(n); }
      n;
    }
  }

  // After the step with shift `k` the decoder holds `n ^ (n >> 2k)`, and
  // after the last one `n` itself.
  lemma FirstFold(n: bv32)
    ensures Fold1(GrayCode(n)) == n ^ (n >> 2)
  {
  }

  lemma SecondFold(n: bv32)
    ensures Fold2(n ^ (n >> 2)) == n ^ (n >> 4)
  {
  }

  lemma ThirdFold(n: bv32)
    ensures Fold4(n ^ (n >> 4)) == n ^ (n >> 8)
  {
  }

  lemma FourthFold(n: bv32)
    ensures Fold8(n ^ (n >> 8)) == n ^ (n >> 16)
  {
  }

  lemma LastFold(n: bv32)
    ensures Fold16(n ^ (n >> 16)) == n
  {
  }

  lemma GrayCodeInjective(m: bv32, n: bv32)
    requires GrayCode(m) == GrayCode(n)
    ensures m == n
  {
    DecodeGrayCode(m);
    DecodeGrayCode(n);
  }

  /** The test vectors of both libraries (the last two written in binary
      in the source: 0b010111001 and 0b101011110101101110). */
  lemma GrayCodeVectors()
    ensures GrayCode(0) == 0 && GrayCode(1) == 1 && GrayCode(2) == 3
    ensures GrayCode(3) == 2 && GrayCode(4) == 6 && GrayCode(5) == 7
    ensures GrayCode(6) == 5 && GrayCode(7) == 4 && GrayCode(8) == 12
    ensures GrayCode(0xB9) == 0xE5
    ensures GrayCode(0x2_BD6E) == 0x3_E3D9
  {
  }
}
