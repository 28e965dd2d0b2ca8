/** Java `int` arithmetic: 32-bit two's complement values and the
    wrap-around that Java's `*` and `+` on `int` perform silently. */
module Int32 {

  const Modulus: int := 0x1_0000_0000
  const MinValue: int := -0x8000_0000
  const MaxValue: int := 0x7fff_ffff

  /** The values a Java `int` can hold. */
  type Int32 = x: int | MinValue <= x <= MaxValue

  /** The Java `int` congruent to `x` modulo 2^32: what a Java `int`
      operation yields when its mathematical result is `x`. */
  function Wrap(x: int): (r: Int32)
    ensures (r - x) % Modulus == 0
    ensures MinValue <= x <= MaxValue ==> r == x
  {
    WrapProperties(x);
    (x - MinValue) % Modulus + MinValue
  }

  lemma WrapProperties(x: int)
    ensures MinValue <= (x - MinValue) % Modulus + MinValue <= MaxValue
    ensures ((x - MinValue) % Modulus + MinValue - x) % Modulus == 0
    ensures MinValue <= x <= MaxValue ==> (x - MinValue) % Modulus + MinValue == x
  {
  }

  /** Java `a * b` on `int` operands. */
  function Mul(a: Int32, b: Int32): (r: Int32)
    ensures (r - a * b) % Modulus == 0
  {
    Wrap(a * b)
  }

  /** Java `a + b` on `int` operands. */
  function Add(a: Int32, b: Int32): (r: Int32)
    ensures (r - (a + b)) % Modulus == 0
  {
    Wrap(a + b)
  }

  /** Two integers that differ by a multiple of 2^32 wrap to the same
      Java `int`. */
  lemma WrapCongruent(x: int, y: int)
    requires (x - y) % Modulus == 0
    ensures Wrap(x) == Wrap(y)
  {
  }

  /** Wrapping an intermediate result before adding gives the same Java
      `int` as wrapping only once at the end. */
  lemma WrapAbsorbsInnerWrap(x: int, y: int)
    ensures Wrap(Wrap(x) + y) == Wrap(x + y)
  {
    WrapCongruent(Wrap(x) + y, x + y);
  }
}
