/** Unsigned 32-bit words (Rust `u32`) as naturals below 2^32, with the
    shifts and bitwise operators that the adders and multipliers use,
    defined one bit at a time from the least significant bit. */
module Word {

  const Modulus: nat := 0x1_0000_0000

  type u32 = x: int | 0 <= x < 0x1_0000_0000

  /** The arithmetic panics of Rust's debug builds. */
  datatype ArithPanic = AddWithOverflow | MulWithOverflow

  function Pow2(k: nat): (p: nat)
    ensures p >= 1
  {
    if k == 0 then 1 else 2 * Pow2(k - 1)
  }

  lemma Pow2Word()
    ensures Pow2(31) == 0x8000_0000 && Pow2(32) == Modulus
  {
    assert Pow2(2) == 4;
    assert Pow2(4) == 16;
    assert Pow2(6) == 64;
    assert Pow2(8) == 256;
    assert Pow2(10) == 1024;
    assert Pow2(12) == 4096;
    assert Pow2(14) == 0x4000;
    assert Pow2(16) == 0x1_0000;
    assert Pow2(18) == 0x4_0000;
    assert Pow2(20) == 0x10_0000;
    assert Pow2(22) == 0x40_0000;
    assert Pow2(24) == 0x100_0000;
    assert Pow2(26) == 0x400_0000;
    assert Pow2(28) == 0x1000_0000;
    assert Pow2(30) == 0x4000_0000;
  }

  lemma {:induction false} Pow2Monotone(j: nat, k: nat)
    requires j <= k
    ensures Pow2(j) <= Pow2(k)
    decreases k
  {
    if j < k {
      Pow2Monotone(j, k - 1);
    }
  }

  /** Every bit position of a word has its power of two inside the word. */
  lemma Pow2InWord(i: nat)
    requires i < 32
    ensures Pow2(i) <= 0x8000_0000
  {
    Pow2Monotone(i, 31);
    Pow2Word();
  }

  /** `x >> k` */
  function Shr(x: nat, k: nat): (r: nat)
    ensures r <= x
  {
    if k == 0 then x else Shr(x, k - 1) / 2
  }

  /** `x << k` on a `u32`: bits moved past bit 31 are dropped. */
  function Shl(x: u32, k: nat): u32
  {
    (x * Pow2(k)) % Modulus
  }

  /** `x & y`, bit by bit. */
  function And(x: nat, y: nat): (r: nat)
    ensures r <= x && r <= y
    decreases x
  {
    if x == 0 || y == 0 then 0
    else 2 * And(x / 2, y / 2) + (if x % 2 == 1 && y % 2 == 1 then 1 else 0)
  }

  /** `x | y`, bit by bit. */
  function Or(x: nat, y: nat): nat
    decreases x + y
  {
    if x == 0 then y
    else if y == 0 then x
    else 2 * Or(x / 2, y / 2) + (if x % 2 == 1 || y % 2 == 1 then 1 else 0)
  }

  /** `x ^ y`, bit by bit. */
  function Xor(x: nat, y: nat): nat
    decreases x + y
  {
    if x == 0 then y
    else if y == 0 then x
    else 2 * Xor(x / 2, y / 2) + (if x % 2 != y % 2 then 1 else 0)
  }

  /** Bit `i` of `x`, that is `(x >> i) & 1`. */
  function Bit(x: nat, i: nat): nat
  {
    Shr(x, i) % 2
  }

  /** The value of the low `k` bits of `x`, summed bit by bit. */
  function Low(x: nat, k: nat): nat
  {
    if k == 0 then 0 else Low(x, k - 1) + (if Bit(x, k - 1) == 1 then Pow2(k - 1) else 0)
  }

  lemma {:induction false} AndOne(x: nat)
    ensures And(x, 1) == x % 2
  {
    if x != 0 {
      assert And(x / 2, 0) == 0;
    }
  }

  lemma {:induction false} XorBound(x: nat, y: nat, k: nat)
    requires x < Pow2(k) && y < Pow2(k)
    ensures Xor(x, y) < Pow2(k)
    decreases x + y
  {
    if x != 0 && y != 0 {
      XorBound(x / 2, y / 2, k - 1);
    }
  }

  lemma XorWord(x: u32, y: u32)
    ensures Xor(x, y) < Modulus
  {
    Pow2Word();
    XorBound(x, y, 32);
  }

  /** Half adder over whole words: the xor is the sum without carries and
      the and marks the positions that produce a carry. */
  lemma {:induction false} XorAndSum(x: nat, y: nat)
    ensures x + y == Xor(x, y) + 2 * And(x, y)
    decreases x + y
  {
    if x != 0 && y != 0 {
      XorAndSum(x / 2, y / 2);
    }
  }

  /** Every natural is its low `k` bits plus `2^k` times `x >> k`. */
  lemma {:induction false} LowShr(x: nat, k: nat)
    ensures x == Low(x, k) + Pow2(k) * Shr(x, k)
  {
    if k > 0 {
      LowShr(x, k - 1);
      var p := Pow2(k - 1);
      var t := Shr(x, k);
      var b := Bit(x, k - 1);
      assert Shr(x, k - 1) == 2 * t + b;
      MulSplit(p, t, b);
      assert Pow2(k) == 2 * p;
      MulSwap(p, t);
    }
  }

  lemma MulSplit(p: int, t: int, b: int)
    ensures p * (2 * t + b) == 2 * (p * t) + p * b
  {
  }

  lemma MulSwap(p: int, t: int)
    ensures 2 * (p * t) == (2 * p) * t
  {
  }

  lemma {:induction false} ShrBelow(x: nat, k: nat, j: nat)
    requires x < Pow2(k + j)
    ensures Shr(x, k) < Pow2(j)
    decreases k
  {
    if k > 0 {
      ShrBelow(x, k - 1, j + 1);
    }
  }

  lemma ShrSmall(x: nat, k: nat)
    requires x < Pow2(k)
    ensures Shr(x, k) == 0
  {
    ShrBelow(x, k, 0);
  }

  /** The low 32 bits of a word are the word. */
  lemma LowWord(x: u32)
    ensures Low(x, 32) == x
  {
    Pow2Word();
    ShrSmall(x, 32);
    LowShr(x, 32);
  }

  /** Bitwise or with a single bit above all bits of `x` is addition. */
  lemma {:induction false} OrHighBit(x: nat, i: nat)
    requires x < Pow2(i)
    ensures Or(x, Pow2(i)) == x + Pow2(i)
    decreases i
  {
    if x != 0 {
      OrHighBit(x / 2, i - 1);
    }
  }

  /** Number of trailing zero bits of a positive natural. */
  function LowZeros(x: nat): nat
    requires x > 0
    decreases x
  {
    if x % 2 == 1 then 0 else 1 + LowZeros(x / 2)
  }

  /** Trailing zeros of a word, 32 for zero: carry propagation moves the
      lowest carry up by at least one position each round. */
  function TrailingZeros(x: u32): (n: nat)
    ensures n <= 32
    ensures x != 0 ==> n < 32
  {
    if x == 0 then 32 else Pow2Word(); LowZerosBound(x, 32); LowZeros(x)
  }

  lemma {:induction false} LowZerosBound(x: nat, k: nat)
    requires 0 < x < Pow2(k)
    ensures LowZeros(x) < k
    decreases x
  {
    if x % 2 == 0 {
      LowZerosBound(x / 2, k - 1);
    }
  }

  lemma {:induction false} AndLowZeros(x: nat, y: nat)
    requires x > 0 && And(x, y) > 0
    ensures LowZeros(And(x, y)) >= LowZeros(x)
    decreases x
  {
    if x % 2 == 0 {
      AndLowZeros(x / 2, y / 2);
    }
  }

  /** Removing 2^k from a value in [2^k, 2^(k+1)) keeps its trailing zeros. */
  lemma {:induction false} LowZerosMinus(y: nat, k: nat)
    requires Pow2(k) < y < 2 * Pow2(k)
    ensures LowZeros(y - Pow2(k)) >= LowZeros(y)
    decreases k
  {
    if y % 2 == 0 {
      LowZerosMinus(y / 2, k - 1);
    }
  }

  lemma {:induction false} AndComm(x: nat, y: nat)
    ensures And(x, y) == And(y, x)
    decreases x
  {
    if x != 0 && y != 0 {
      AndComm(x / 2, y / 2);
    }
  }

  /** Doubling a nonzero word drops bit 31 or moves every bit up: the
      result is zero or has more trailing zeros. */
  lemma ShlMovesUp(c: u32)
    requires c != 0
    ensures Shl(c, 1) == 0 || TrailingZeros(Shl(c, 1)) > TrailingZeros(c)
  {
    var s := Shl(c, 1);
    assert s == (2 * c) % Modulus;
    if s != 0 {
      assert LowZeros(2 * c) == 1 + LowZeros(c);
      Pow2Word();
      if 2 * c >= Modulus {
        assert s == 2 * c - Pow2(32);
        if 2 * c > Modulus {
          LowZerosMinus(2 * c, 32);
        }
      }
    }
  }

  /** A nonzero `x & y` has at least the trailing zeros of `y`. */
  lemma AndKeepsZeros(x: u32, y: u32)
    requires And(x, y) != 0
    ensures TrailingZeros(And(x, y)) >= TrailingZeros(y)
  {
    AndComm(x, y);
    AndLowZeros(y, x);
  }

  /** One round of carry propagation: `(c & r) << 1` is zero or has more
      trailing zeros than `c`. */
  lemma CarryMovesUp(c: u32, r: u32)
    requires c != 0
    ensures Shl(And(c, r), 1) == 0 || TrailingZeros(Shl(And(c, r), 1)) > TrailingZeros(c)
  {
    var n := And(c, r);
    if n != 0 {
      AndComm(c, r);
      AndKeepsZeros(r, c);
      ShlMovesUp(n);
    }
  }

  lemma ShiftMod(z: int, q: int)
    ensures (z + q * Modulus) % Modulus == z % Modulus
  {
  }

  /** Reducing one summand modulo 2^32 does not change the sum modulo 2^32. */
  lemma AddMod(x: int, y: int)
    ensures (x % Modulus + y) % Modulus == (x + y) % Modulus
  {
    var q := x / Modulus;
    assert x == q * Modulus + x % Modulus;
    ShiftMod(x % Modulus + y, q);
  }

  /** Reducing one factor modulo 2^32 does not change the product modulo 2^32. */
  lemma MulMod(x: int, y: int)
    ensures ((x % Modulus) * y) % Modulus == (x * y) % Modulus
  {
    var q := x / Modulus;
    assert x == q * Modulus + x % Modulus;
    assert x * y == (x % Modulus) * y + (q * y) * Modulus;
    ShiftMod((x % Modulus) * y, q * y);
  }

  /** Halving `y` and doubling `x`: `x * y` is `2x * (y / 2)` plus `x` for
      an odd `y`. */
  lemma Halve(x: int, y: nat)
    ensures x * y == (2 * x) * (y / 2) + (if y % 2 == 1 then x else 0)
  {
    var h, r := y / 2, y % 2;
    assert y == 2 * h + r;
    calc {
      x * y;
      x * (2 * h + r);
      (2 * x) * h + x * r;
    }
    if r == 1 {
      assert x * r == x;
    } else {
      assert x * r == 0;
    }
  }

  /** Shifting right by `k + 1` is halving and then shifting by `k`. */
  lemma {:induction false} ShrHalf(x: nat, k: nat)
    ensures Shr(x / 2, k) == Shr(x, k + 1)
    decreases k
  {
    if k > 0 {
      ShrHalf(x, k - 1);
    }
  }

  /** `x & (1 << k)` is nonzero exactly when bit `k` of `x` is set. */
  lemma {:induction false} AndPow2(x: nat, k: nat)
    ensures And(x, Pow2(k)) != 0 <==> Bit(x, k) == 1
    decreases k
  {
    if k == 0 {
      AndOne(x);
    } else if x != 0 {
      assert Pow2(k) % 2 == 0 && Pow2(k) / 2 == Pow2(k - 1);
      assert And(x, Pow2(k)) == 2 * And(x / 2, Pow2(k - 1));
      AndPow2(x / 2, k - 1);
      ShrHalf(x, k - 1);
    }
  }

  /** The mask test of the enumerators: `i & (1 << k)` on a word. */
  lemma MaskBit(i: u32, k: nat)
    requires k < 32
    ensures And(i, Shl(1, k)) != 0 <==> Bit(i, k) == 1
  {
    Pow2InWord(k);
    assert Shl(1, k) == Pow2(k);
    AndPow2(i, k);
  }

  /** The bits of `2x + b` are `b` followed by the bits of `x`. */
  lemma BitsOfDouble(x: nat, b: nat, j: nat)
    requires b <= 1
    ensures Bit(2 * x + b, 0) == b
    ensures Bit(2 * x + b, j + 1) == Bit(x, j)
  {
    ShrHalf(2 * x + b, j);
    assert (2 * x + b) / 2 == x;
  }
}
