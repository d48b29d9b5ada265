/** The fixed-round multiplier of the boole library: 32 rounds of the
    Russian-peasant method over the panicking ripple-carry adder. The
    adder catches overflow in the additions, but the doubling of the
    multiplicand drops its top bit silently. */
module BooleMultiplier {
  import opened Wrappers
  import opened Word
  import RippleAdder

  /** The multiplicand after `i` rounds: doubled `i` times, each doubling
      dropping bit 31. */
  function Doubled(a: u32, i: nat): u32
  {
    if i == 0 then a else Shl(Doubled(a, i - 1), 1)
  }

  /** The exact sum the first `k` rounds add up: the doubled multiplicand
      of every round whose bit of `b` is set. */
  function PartialSum(a: u32, b: u32, k: nat): nat
  {
    if k == 0 then 0
    else PartialSum(a, b, k - 1) + (if Bit(b, k - 1) == 1 then Doubled(a, k - 1) else 0)
  }

  lemma {:induction false} PartialSumMonotone(a: u32, b: u32, j: nat, k: nat)
    requires j <= k
    ensures PartialSum(a, b, j) <= PartialSum(a, b, k)
    decreases k
  {
    if j < k {
      PartialSumMonotone(a, b, j, k - 1);
    }
  }

  /** `multiplier` as written: the sum of the 32 rounds' terms, or the
      adder's overflow panic when that sum does not fit in 32 bits. */
  method Multiplier(a: u32, b: u32) returns (r: Result<u32, ArithPanic>)
    ensures PartialSum(a, b, 32) < Modulus ==> r == Ok(PartialSum(a, b, 32))
    ensures PartialSum(a, b, 32) >= Modulus ==> r == Fail(AddWithOverflow)
  {
    var x: u32, y: u32 := a, b;  // the source's `let mut a = a; let mut b = b;`
    var ret: u32 := 0;
    for i := 0 to 32
      invariant x == Doubled(a, i) && y == Shr(b, i)
      invariant ret == PartialSum(a, b, i)
    {
      AndOne(y);
      if And(y, 1) == 1 {
        var sum := RippleAdder.Adder(ret, x);
        if sum.Fail? {
          PartialSumMonotone(a, b, i + 1, 32);
          return Fail(sum.error);
        }
        ret := sum.value;
      }
      assert Shr(y, 1) == Shr(b, i + 1);
      y := Shr(y, 1);
      x := Shl(x, 1);
    }
    return Ok(ret);
  }

  /** The low `k` bits of `x` are at most `x`. */
  lemma LowBelow(x: nat, k: nat)
    ensures Low(x, k) <= x
  {
    LowShr(x, k);
  }

  /** While the true product of the multiplicand with `2^j` fits in a
      word, doubling drops nothing. */
  lemma {:induction false} DoubledExact(a: u32, j: nat)
    requires a * Pow2(j) < Modulus
    ensures Doubled(a, j) == a * Pow2(j)
  {
    if j > 0 {
      var q := Pow2(j - 1);
      assert Pow2(j) == 2 * q;
      MulDouble(a, q);
      DoubledExact(a, j - 1);
      assert Shl(a * q, 1) == (2 * (a * q)) % Modulus;
    }
  }

  lemma MulDouble(a: nat, q: nat)
    ensures a * (2 * q) == 2 * (a * q)
  {
  }

  lemma MulAdd(a: nat, x: nat, y: nat)
    ensures a * (x + y) == a * x + a * y
  {
  }

  lemma MulLe(a: nat, p: nat, q: nat)
    requires p <= q
    ensures a * p <= a * q
  {
  }

  /** When the product fits in a word, the first `k` rounds add up `a`
      times the low `k` bits of `b`. */
  lemma {:induction false} PartialSumExact(a: u32, b: u32, k: nat)
    requires a * b < Modulus
    ensures PartialSum(a, b, k) == a * Low(b, k)
  {
    if k > 0 {
      PartialSumExact(a, b, k - 1);
      var p := Pow2(k - 1);
      var low := Low(b, k - 1);
      if Bit(b, k - 1) == 1 {
        assert Low(b, k) == low + p;
        LowBelow(b, k);
        MulLe(a, low + p, b);
        MulLe(a, p, low + p);
        DoubledExact(a, k - 1);
        MulAdd(a, low, p);
      }
    }
  }

  /** Whenever the product fits in a word the multiplier returns it. */
  lemma ExactWhenProductFits(a: u32, b: u32)
    requires a * b < Modulus
    ensures PartialSum(a, b, 32) == a * b
  {
    PartialSumExact(a, b, 32);
    LowWord(b);
  }

  /** Once `b >> k` is zero, no further round adds anything. */
  lemma {:induction false} PartialSumSettles(a: u32, b: u32, k: nat, m: nat)
    requires Shr(b, k) == 0 && k <= m
    ensures PartialSum(a, b, m) == PartialSum(a, b, k)
    decreases m
  {
    if k < m {
      PartialSumSettles(a, b, k, m - 1);
      ShrStaysZero(b, k, m - 1);
    }
  }

  lemma {:induction false} ShrStaysZero(x: nat, k: nat, m: nat)
    requires Shr(x, k) == 0 && k <= m
    ensures Shr(x, m) == 0
    decreases m
  {
    if k < m {
      ShrStaysZero(x, k, m - 1);
    }
  }

  /** The `should_panic` test: for `(u32::MAX / 4) * 5` the third round's
      addition overflows. */
  lemma QuarterMaxTimesFiveOverflows()
    ensures PartialSum(0x3FFF_FFFF, 5, 32) >= Modulus
  {
    var a := 0x3FFF_FFFF;
    FiveBits();
    PartialSumSettles(a, 5, 3, 32);
    QuarterMaxDoubled();
    assert PartialSum(a, 5, 1) == a;
    assert PartialSum(a, 5, 2) == a;
    assert PartialSum(a, 5, 3) == a + 0xFFFF_FFFC;
  }

  lemma FiveBits()
    ensures Shr(5, 3) == 0
    ensures Bit(5, 0) == 1 && Bit(5, 1) == 0 && Bit(5, 2) == 1
  {
    assert Shr(5, 1) == 2 && Shr(5, 2) == 1;
  }

  lemma QuarterMaxDoubled()
    ensures Doubled(0x3FFF_FFFF, 2) == 0xFFFF_FFFC
  {
    assert Doubled(0x3FFF_FFFF, 1) == 0x7FFF_FFFE;
  }

  /** The overflow the doubling hides: `2^31 * 2` does not fit in a word,
      yet the rounds add up to 0 and the multiplier returns `Ok(0)`. */
  lemma ShiftOverflowUnnoticed()
    ensures 0x8000_0000 * 2 >= Modulus
    ensures PartialSum(0x8000_0000, 2, 32) == 0
  {
    var a := 0x8000_0000;
    TwoBits();
    PartialSumSettles(a, 2, 2, 32);
    assert Doubled(a, 1) == Shl(a, 1) == 0;
    assert PartialSum(a, 2, 1) == 0;
  }

  lemma TwoBits()
    ensures Shr(2, 2) == 0
    ensures Bit(2, 0) == 0 && Bit(2, 1) == 1
  {
    assert Shr(2, 1) == 1;
  }

  /** A doubling that would carry bit 31 out is an overflow whenever a
      later round still needs the multiplicand. */
  lemma DoublingOverflows(ret: nat, x: nat, y: nat, product: nat)
    requires x >= 0x8000_0000 && y >= 1
    requires ret + 2 * x * y == product
    ensures product >= Modulus
  {
    MulLe(2 * x, 1, y);
  }

  /** `multiplier` as evidently intended: the exact product, or a panic
      whenever it does not fit in 32 bits, including when it is the
      doubling of the multiplicand that overflows. */
  method CheckedMultiplier(a: u32, b: u32) returns (r: Result<u32, ArithPanic>)
    ensures a * b < Modulus ==> r == Ok(a * b)
    ensures a * b >= Modulus ==> r.Fail?
  {
    var x: u32, y: u32 := a, b;
    var ret: u32 := 0;
    for i := 0 to 32
      invariant y == Shr(b, i)
      invariant ret + x * y == a * b
    {
      ghost var ret0, x0, y0 := ret, x, y;
      AndOne(y);
      if And(y, 1) == 1 {
        var sum := RippleAdder.Adder(ret, x);
        if sum.Fail? {
          MulLe(x, 1, y);
          return Fail(sum.error);
        }
        ret := sum.value;
      }
      PeasantStep(ret0, x0, y0, a * b, ret);
      assert Shr(y, 1) == Shr(b, i + 1);
      y := Shr(y, 1);
      if y != 0 && x >= 0x8000_0000 {
        DoublingOverflows(ret, x, y, a * b);
        return Fail(MulWithOverflow);
      }
      DoubleOrDone(x, y);
      x := Shl(x, 1);
    }
    Pow2Word();
    ShrSmall(b, 32);
    return Ok(ret);
  }

  /** One round of the peasant method keeps `ret + x * y` fixed. */
  lemma PeasantStep(ret: int, x: int, y: nat, product: int, ret': int)
    requires ret + x * y == product
    requires ret' == ret + (if y % 2 == 1 then x else 0)
    ensures ret' + 2 * x * (y / 2) == product
  {
    Halve(x, y);
  }

  /** Doubling a multiplicand below 2^31 is exact, and a multiplicand that
      meets a zero multiplier no longer counts. */
  lemma DoubleOrDone(x: u32, y: nat)
    requires y == 0 || x < 0x8000_0000
    ensures Shl(x, 1) * y == 2 * x * y
  {
    if y != 0 {
      assert Shl(x, 1) == 2 * x;
    }
  }
}
