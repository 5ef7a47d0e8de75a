/** The 32-bit signed integers of C#, whose arithmetic wraps around silently
    (the default, unchecked context). */
module Ints {

  const MinInt32: int := -0x8000_0000
  const MaxInt32: int := 0x7FFF_FFFF
  const Modulus: int := 0x1_0000_0000

  type Int32 = x: int | MinInt32 <= x <= MaxInt32

  /** The value C# keeps of the mathematical result `x`: the one 32-bit
      value congruent to `x` modulo 2^32. */
  function Wrap(x: int): (r: Int32)
    ensures (x - r) % Modulus == 0
    ensures MinInt32 <= x <= MaxInt32 ==> r == x
  {
    (x - MinInt32) % Modulus + MinInt32
  }

  /** Wrapping an intermediate result changes nothing once the final
      result is wrapped: `hp++` then `hp -= loss` keeps the same value as
      wrapping the whole sum once. */
  lemma WrapAdd(a: int, b: int)
    ensures Wrap(Wrap(a) + b) == Wrap(a + b)
  {
    var x := a - MinInt32;
    var q := x / Modulus;
    assert x == q * Modulus + x % Modulus;
    assert Wrap(a) + b - MinInt32 == x % Modulus + b;
    assert a + b - MinInt32 == q * Modulus + (x % Modulus + b);
    ShiftMod(q, x % Modulus + b);
  }

  lemma ShiftMod(q: int, y: int)
    ensures (q * Modulus + y) % Modulus == y % Modulus
  {
  }

  lemma WrapIncAtMax()
    ensures Wrap(MaxInt32 + 1) == MinInt32
  {
  }

  lemma WrapDecAtMin()
    ensures Wrap(MinInt32 - 1) == MaxInt32
  {
  }
}
