/** The ripple-carry adder of the older libraries: 32 rounds, one bit of
    each operand per round, and a panic when a carry is left after bit
    31. The boole library's `adder`, which its multiplier calls, is the
    same function. */
module RippleAdder {
  import opened Wrappers
  import opened Word

  /** One full adder: the sum bit and the carry out of two operand bits
      and a carry in. */
  lemma FullAdder(a0: nat, b0: nat, carry: nat)
    requires a0 <= 1 && b0 <= 1 && carry <= 1
    ensures Xor(Xor(a0, b0), carry) <= 1
    ensures Or(And(a0, b0), And(Xor(a0, b0), carry)) <= 1
    ensures Xor(Xor(a0, b0), carry) + 2 * Or(And(a0, b0), And(Xor(a0, b0), carry)) == a0 + b0 + carry
  {
  }

  /** Bit `i` of `a` and of `b` and the carry into it give bit `i` of the
      sum and the carry out of it. */
  function SumBit(a: u32, b: u32, i: nat, carry: nat): nat
  {
    Xor(Xor(And(Shr(a, i), 1), And(Shr(b, i), 1)), carry)
  }

  function CarryOut(a: u32, b: u32, i: nat, carry: nat): nat
  {
    var a0 := And(Shr(a, i), 1);
    var b0 := And(Shr(b, i), 1);
    Or(And(a0, b0), And(Xor(a0, b0), carry))
  }

  /** Or-ing a bit in at position `i` above a value below `2^i` adds it. */
  lemma PlaceBit(ret: nat, sum: nat, i: nat)
    requires i < 32 && sum <= 1 && ret < Pow2(i)
    ensures Or(ret, Shl(sum, i)) == ret + sum * Pow2(i)
  {
    Pow2InWord(i);
    if sum == 1 {
      assert Shl(sum, i) == Pow2(i);
      OrHighBit(ret, i);
    } else {
      assert Shl(sum, i) == 0;
    }
  }

  /** The low `i + 1` bits are the low `i` bits plus bit `i` in place. */
  lemma LowNext(x: nat, i: nat)
    ensures Low(x, i + 1) == Low(x, i) + And(Shr(x, i), 1) * Pow2(i)
  {
    AndOne(Shr(x, i));
  }

  /** One round of the adder keeps the low `i + 1` bits of the result and
      the carry equal to the sum of the low `i + 1` bits of the operands. */
  lemma RoundKeepsSum(a: u32, b: u32, i: nat, ret: u32, carry: nat)
    requires i < 32 && carry <= 1 && ret < Pow2(i)
    requires ret + carry * Pow2(i) == Low(a, i) + Low(b, i)
    ensures SumBit(a, b, i, carry) <= 1 && CarryOut(a, b, i, carry) <= 1
    ensures Or(ret, Shl(SumBit(a, b, i, carry), i)) < Pow2(i + 1)
    ensures Or(ret, Shl(SumBit(a, b, i, carry), i)) + CarryOut(a, b, i, carry) * Pow2(i + 1)
            == Low(a, i + 1) + Low(b, i + 1)
  {
    var a0 := And(Shr(a, i), 1);
    var b0 := And(Shr(b, i), 1);
    AndOne(Shr(a, i));
    AndOne(Shr(b, i));
    FullAdder(a0, b0, carry);
    var sum := SumBit(a, b, i, carry);
    var out := CarryOut(a, b, i, carry);
    var p := Pow2(i);
    assert Pow2(i + 1) == 2 * p;
    PlaceBit(ret, sum, i);
    LowNext(a, i);
    LowNext(b, i);
    RoundArithmetic(ret, carry, sum, out, a0, b0, p, Low(a, i), Low(b, i));
  }

  /** The arithmetic of one round, with every power of two named `p`. */
  lemma RoundArithmetic(ret: int, carry: int, sum: int, out: int, a0: int, b0: int, p: int, la: int, lb: int)
    requires sum + 2 * out == a0 + b0 + carry
    requires 0 <= sum <= 1 && 0 <= ret < p
    requires ret + carry * p == la + lb
    ensures ret + sum * p < 2 * p
    ensures ret + sum * p + out * (2 * p) == la + a0 * p + lb + b0 * p
  {
    if sum == 1 {
      assert sum * p == p;
    } else {
      assert sum * p == 0;
    }
    calc {
      sum * p + out * (2 * p);
      (sum + 2 * out) * p;
      (a0 + b0 + carry) * p;
      a0 * p + b0 * p + carry * p;
    }
  }

  /** `adder`: the exact sum, or the overflow panic when it does not fit
      in 32 bits. */
  method Adder(a: u32, b: u32) returns (r: Result<u32, ArithPanic>)
    ensures a + b < Modulus ==> r == Ok(a + b)
    ensures a + b >= Modulus ==> r == Fail(AddWithOverflow)
  {
    var carry: nat := 0;
    var ret: u32 := 0;
    for i := 0 to 32
      invariant carry <= 1
      invariant ret < Pow2(i)
      invariant ret + carry * Pow2(i) == Low(a, i) + Low(b, i)
    {
      var a0 := And(Shr(a, i), 1);
      var b0 := And(Shr(b, i), 1);
      RoundKeepsSum(a, b, i, ret, carry);
      Pow2Monotone(i + 1, 32);
      Pow2Word();
      ret := Or(ret, Shl(Xor(Xor(a0, b0), carry), i));
      carry := Or(And(a0, b0), And(Xor(a0, b0), carry));
    }
    Pow2Word();
    LowWord(a);
    LowWord(b);
    if carry == 1 {
      return Fail(AddWithOverflow);
    }
    return Ok(ret);
  }
}
