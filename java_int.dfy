/** Java's fixed-width two's-complement integers, as unbounded Dafny integers
    together with the wrap-around that Java arithmetic performs. */
module JavaInt {

  const TWO_32: int := 0x1_0000_0000
  const TWO_64: int := 0x1_0000_0000_0000_0000

  /** Values of Java's 32-bit `int`. */
  type Int32 = x: int | -0x8000_0000 <= x < 0x8000_0000

  /** Values of Java's 64-bit `long`. */
  type Long = x: int | -0x8000_0000_0000_0000 <= x < 0x8000_0000_0000_0000

  /** Whether an exact value fits in a `long`, so that `long` arithmetic producing it does not wrap. */
  predicate FitsLong(x: int) {
    -0x8000_0000_0000_0000 <= x < 0x8000_0000_0000_0000
  }

  /** The `int` that Java's 32-bit arithmetic produces for the exact value x:
      the one value in range that differs from x by a multiple of 2^32. */
  function WrapInt(x: int): (r: Int32)
    ensures (x - r) % TWO_32 == 0
    ensures -0x8000_0000 <= x < 0x8000_0000 ==> r == x
  {
    (x + 0x8000_0000) % TWO_32 - 0x8000_0000
  }

  /** The `long` that Java's 64-bit arithmetic produces for the exact value x. */
  function WrapLong(x: int): (r: Long)
    ensures (x - r) % TWO_64 == 0
    ensures FitsLong(x) ==> r == x
  {
    (x + 0x8000_0000_0000_0000) % TWO_64 - 0x8000_0000_0000_0000
  }

  /** An `int` congruent to x modulo 2^32 is the wrapped value of x. */
  lemma WrapIntUnique(x: int, y: Int32)
    requires (x - y) % TWO_32 == 0
    ensures WrapInt(x) == y
  {
  }

  /** Multiplying in two wrapping steps, as `a * b * c` does in Java, gives the
      same `int` as wrapping the exact product once. */
  lemma WrapIntMulAssoc(a: int, b: int, c: int)
    ensures WrapInt(WrapInt(a * b) * c) == WrapInt(a * b * c)
  {
    var w := WrapInt(a * b);
    var k := (a * b - w) / TWO_32;
    assert a * b - w == TWO_32 * k;
    assert a * b * c - w * c == TWO_32 * (k * c) by {
      assert a * b * c - w * c == (a * b - w) * c;
    }
    var v := WrapInt(w * c);
    var j := (w * c - v) / TWO_32;
    assert w * c - v == TWO_32 * j;
    assert a * b * c - v == TWO_32 * (k * c + j);
    WrapIntUnique(a * b * c, v);
  }
}
