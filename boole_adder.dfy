/** The loop adder and the reference adder of the boole library; its
    ripple-carry `adder` is the same as the older library's. */
module BooleAdder {
  import opened Wrappers
  import opened Word

  /** `adder2`: the carries are folded into the result until none is
      left; the sum modulo 2^32, since carries past bit 31 are dropped. */
  method Adder2(a: u32, b: u32) returns (r: u32)
    ensures r == (a + b) % Modulus
  {
    var carry: u32 := And(a, b);
    XorWord(a, b);
    var result: u32 := Xor(a, b);
    XorAndSum(a, b);
    while carry != 0
      invariant (result + 2 * carry) % Modulus == (a + b) % Modulus
      decreases 32 - TrailingZeros(carry)
    {
      var shifted := Shl(carry, 1);
      CarryStep(result, carry);
      carry := And(result, shifted);
      result := Xor(result, shifted);
    }
    return result;
  }

  /** One round of `adder2` keeps the sum modulo 2^32 and moves the lowest
      carry up by at least one position. */
  lemma CarryStep(result: u32, carry: u32)
    requires carry != 0
    ensures Xor(result, Shl(carry, 1)) < Modulus
    ensures (Xor(result, Shl(carry, 1)) + 2 * And(result, Shl(carry, 1))) % Modulus == (result + 2 * carry) % Modulus
    ensures And(result, Shl(carry, 1)) == 0 || TrailingZeros(And(result, Shl(carry, 1))) > TrailingZeros(carry)
  {
    XorWord(result, Shl(carry, 1));
    CarrySum(result, carry);
    CarryRises(result, carry);
  }

  lemma CarrySum(result: u32, carry: u32)
    ensures (Xor(result, Shl(carry, 1)) + 2 * And(result, Shl(carry, 1))) % Modulus == (result + 2 * carry) % Modulus
  {
    var shifted := Shl(carry, 1);
    XorAndSum(result, shifted);
    SumMod(result, carry, Xor(result, shifted), And(result, shifted));
  }

  /** The modular step behind `CarrySum`, on plain integers. */
  lemma SumMod(result: int, carry: int, x: int, n: int)
    requires result + (2 * carry) % Modulus == x + 2 * n
    ensures (x + 2 * n) % Modulus == (result + 2 * carry) % Modulus
  {
    AddMod(2 * carry, result);
  }

  lemma CarryRises(result: u32, carry: u32)
    requires carry != 0
    ensures And(result, Shl(carry, 1)) == 0 || TrailingZeros(And(result, Shl(carry, 1))) > TrailingZeros(carry)
  {
    var shifted := Shl(carry, 1);
    ShlMovesUp(carry);
    if And(result, shifted) != 0 {
      AndKeepsZeros(result, shifted);
    }
  }

  /** `adder_ref`: the built-in addition, which panics on overflow in a
      debug build. */
  function AdderRef(a: u32, b: u32): (r: Result<u32, ArithPanic>)
    ensures r.Ok? <==> a + b < Modulus
    ensures r.Ok? ==> r.value == a + b
  {
    if a + b < Modulus then Ok(a + b) else Fail(AddWithOverflow)
  }
}
