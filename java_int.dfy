/** Java's 32-bit two's-complement `int`: every `+`, `*` and `+=` on `int`
    operands wraps modulo 2^32 into [-2^31, 2^31). */
module JavaInt {

  const Modulus: int := 0x1_0000_0000
  const Half: int := 0x8000_0000

  predicate InRange(x: int) {
    -Half <= x < Half
  }

  /** The values a Java `int` variable or array element can hold. */
  newtype Int32 = x: int | -0x8000_0000 <= x < 0x8000_0000

  /** The value a Java `int` holds after a computation whose exact result is `x`. */
  function Wrap(x: int): (r: int)
    ensures InRange(r)
    ensures InRange(x) ==> r == x
  {
    (x + Half) % Modulus - Half
  }

  /** Two integers congruent modulo 2^32 wrap to the same Java `int`. */
  lemma WrapCongruent(x: int, y: int)
    requires (x - y) % Modulus == 0
    ensures Wrap(x) == Wrap(y)
  {
    var q := (x - y) / Modulus;
    assert x == y + q * Modulus;
    assert (y + q * Modulus + Half) % Modulus == (y + Half) % Modulus;
  }

  /** Wrapping the operands of a sum first does not change the wrapped sum,
      so `acc += a * b` on Java ints leaves `Wrap(exact acc + a * b)`. */
  lemma WrapAdd(x: int, y: int)
    ensures Wrap(Wrap(x) + Wrap(y)) == Wrap(x + y)
  {
    WrapCongruent(Wrap(x) + Wrap(y), x + y);
  }

  /** Java's `acc += x * y` on ints: the product wraps, then the sum. */
  function MulAdd(acc: Int32, x: Int32, y: Int32): (r: Int32)
    ensures r as int == Wrap(acc as int + x as int * y as int)
  {
    WrapAdd(acc as int, x as int * y as int);
    Wrap(acc as int + Wrap(x as int * y as int)) as Int32
  }
}
