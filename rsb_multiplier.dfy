/** The Russian-peasant multiplier of the newer library, built on its
    wrapping recursive adder: the product modulo 2^32, with no overflow
    check. */
module RsbMultiplier {
  import opened Word
  import RsbAdder

  /** Reducing both summands of `x + y * k` modulo 2^32 first does not
      change the sum modulo 2^32. */
  lemma ReduceBoth(x: int, y: int, k: int)
    ensures (x % Modulus + (y % Modulus) * k) % Modulus == (x + y * k) % Modulus
  {
    AddMod(x, (y % Modulus) * k);
    AddMod((y % Modulus) * k, x);
    MulMod(y, k);
    AddMod(y * k, x);
  }

  /** `multiplier`: the product modulo 2^32. */
  method Multiplier(a: u32, b: u32) returns (res: u32)
    ensures res == (a * b) % Modulus
  {
    res := 0;
    var x: u32, y: u32 := a, b;  // the source's `let mut a = a; let mut b = b;`
    while y > 0
      invariant (res + x * y) % Modulus == (a * b) % Modulus
      decreases y
    {
      AndOne(y);
      Halve(x, y);
      var added: int := res as int + (if y % 2 == 1 then x as int else 0);
      if And(y, 1) != 0 {
        res := RsbAdder.Adder(res, x);
      }
      assert res == added % Modulus;
      ReduceBoth(added, 2 * x as int, y / 2);
      assert Shl(x, 1) == (2 * x as int) % Modulus && Shr(y, 1) == y / 2;
      x := Shl(x, 1);
      y := Shr(y, 1);
    }
    assert x * y == 0;
  }
}
