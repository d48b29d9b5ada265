/** The recursive adder of the newer library: `a ^ b` is the sum without
    carries, `(a & b) << 1` the carries, and the two are added again until
    no carry is left. Carries shifted past bit 31 are dropped. */
module RsbAdder {
  import opened Word

  /** `adder`: the sum modulo 2^32. Each round moves the lowest carry up
      by at least one bit, so the recursion is at most 32 deep. */
  function Adder(a: u32, b: u32): (r: u32)
    ensures r == (a + b) % Modulus
    decreases 32 - TrailingZeros(a)
  {
    var carry := Shl(And(a, b), 1);
    XorWord(a, b);
    var result: u32 := Xor(a, b);
    HalfAdd(a, b);
    if carry == 0 then result
    else
      CarryMovesUp(a, b);
      Adder(carry, result)
  }

  /** The carries and the carry-less sum add up to the sum modulo 2^32. */
  lemma HalfAdd(a: u32, b: u32)
    ensures (Shl(And(a, b), 1) + Xor(a, b)) % Modulus == (a + b) % Modulus
  {
    XorAndSum(a, b);
    AddMod(2 * And(a, b), Xor(a, b));
  }

  /** The number of calls `adder` makes, the first one included. */
  function Calls(a: u32, b: u32): (n: nat)
    ensures 1 <= n <= 33 - TrailingZeros(a)
    decreases 32 - TrailingZeros(a)
  {
    var carry := Shl(And(a, b), 1);
    XorWord(a, b);
    if carry == 0 then 1
    else
      CarryMovesUp(a, b);
      1 + Calls(carry, Xor(a, b))
  }

  /** The `should_panic` test expects an overflow panic for `u32::MAX + 5`;
      the adder drops the carry and returns 4. */
  lemma MaxPlusFiveWraps()
    ensures Adder(0xFFFF_FFFF, 5) == 4
  {
  }
}
