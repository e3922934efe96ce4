/** Java's 32-bit `int`, whose arithmetic wraps around on overflow. */
module JavaInt {

  const Modulus: int := 0x1_0000_0000
  const MinInt: int := -0x8000_0000
  const MaxInt: int := 0x7fff_ffff

  /** The values a Java `int` variable can hold. */
  type Int = x: int | MinInt <= x <= MaxInt

  /** The `int` that Java's two's-complement arithmetic yields for the
      mathematical value `x`. */
  function Wrap(x: int): (r: Int)
    ensures (r - x) % Modulus == 0
    ensures MinInt <= x <= MaxInt ==> r == x
  {
    (x - MinInt) % Modulus + MinInt
  }

  /** Adding a multiple of 2^32 does not change the wrapped value. */
  lemma WrapShift(x: int, n: int)
    ensures Wrap(x + Modulus * n) == Wrap(x)
  {
  }

  /** Wrapping an intermediate result of `m * a + c` changes nothing: Java's
      step-by-step overflow gives the value of the whole expression, wrapped
      once. */
  lemma WrapMulAdd(m: int, a: int, c: int)
    ensures Wrap(m * Wrap(a) + c) == Wrap(m * a + c)
  {
    var q := (Wrap(a) - a) / Modulus;
    assert Wrap(a) == a + Modulus * q;
    var n := m * q;
    assert m * Wrap(a) + c == m * a + c + Modulus * n;
    WrapShift(m * a + c, n);
  }
}
