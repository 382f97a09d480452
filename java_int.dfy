/**
 * Java's 32-bit `int` (and unboxed `Integer`) arithmetic. Dafny integers are
 * unbounded, so every `+`, `-` and `++` of the source goes through `Wrap`.
 */
module JavaInt {

  const MinInt: int := -0x8000_0000
  const MaxInt: int := 0x7fff_ffff
  const Modulus: int := 0x1_0000_0000

  type Int32 = x: int | MinInt <= x <= MaxInt

  /** The two's-complement value Java keeps of the exact result `x`. */
  function Wrap(x: int): (r: Int32)
    ensures MinInt <= x <= MaxInt ==> r == x
    ensures (x - r) % Modulus == 0
  {
    (x - MinInt) % Modulus + MinInt
  }

  /** `a + b` on Java ints. */
  function Add(a: Int32, b: Int32): (r: Int32)
    ensures MinInt <= a + b <= MaxInt ==> r == a + b
    ensures a + b > MaxInt ==> r == a + b - Modulus
  {
    Wrap(a + b)
  }

  /** `a - b` on Java ints. */
  function Sub(a: Int32, b: Int32): (r: Int32)
    ensures MinInt <= a - b <= MaxInt ==> r == a - b
    ensures a - b < MinInt ==> r == a - b + Modulus
    ensures a - b > MaxInt ==> r == a - b - Modulus
  {
    Wrap(a - b)
  }

  /** Two int32 values that differ by a multiple of 2^32 are equal. */
  lemma {:induction false} CongruentInRangeEqual(r1: Int32, r2: Int32)
    requires (r1 - r2) % Modulus == 0
    ensures r1 == r2
  {
  }

  /**
   * Accumulating with a wrap after every addition (what a Java `int` loop does)
   * gives the wrap of the exact total.
   */
  lemma {:induction false} WrapAddWrap(a: int, b: int)
    ensures Wrap(Wrap(a) + b) == Wrap(a + b)
  {
    var w := Wrap(a);
    var k := (a - w) / Modulus;
    assert a - w == k * Modulus;
    var lhs := Wrap(w + b);
    var rhs := Wrap(a + b);
    var j := (w + b - lhs) / Modulus;
    assert w + b - lhs == j * Modulus;
    var i := (a + b - rhs) / Modulus;
    assert a + b - rhs == i * Modulus;
    assert lhs - rhs == (i - j - k) * Modulus;
    assert (lhs - rhs) % Modulus == 0;
    CongruentInRangeEqual(lhs, rhs);
  }
}
