/**
 * Java's 32-bit `int`: its range, the wrap-around of its arithmetic, and the
 * outcome of a call that may throw one of the exceptions the programs
 * modelled here can raise.
 */
module JavaInt {

  const TWO_32: int := 0x1_0000_0000
  const INT_MIN: int := -0x8000_0000
  const INT_MAX: int := 0x7fff_ffff

  predicate IsInt32(x: int) {
    INT_MIN <= x <= INT_MAX
  }

  /** Java `int` arithmetic: the mathematical value reduced into [-2^31, 2^31). */
  function Wrap(x: int): (r: int)
    ensures IsInt32(r)
  {
    (x - INT_MIN) % TWO_32 + INT_MIN
  }

  /** Wrapping changes a value by a multiple of 2^32. */
  lemma WrapDiff(x: int)
    ensures (Wrap(x) - x) % TWO_32 == 0
  {
  }

  /** Values that already fit in an `int` are left alone. */
  lemma WrapIdentity(x: int)
    requires IsInt32(x)
    ensures Wrap(x) == x
  {
  }

  /** Two numbers congruent modulo 2^32 wrap to the same `int`. */
  lemma WrapCongruent(x: int, y: int)
    requires (x - y) % TWO_32 == 0
    ensures Wrap(x) == Wrap(y)
  {
    var d := (x - y) / TWO_32;
    assert x == y + d * TWO_32;
    assert (x - INT_MIN) % TWO_32 == (y - INT_MIN) % TWO_32;
  }

  /** Wrapping the operands of an addition first does not change the wrapped sum. */
  lemma WrapAdd(a: int, b: int)
    ensures Wrap(Wrap(a) + Wrap(b)) == Wrap(a + b)
  {
    WrapDiff(a);
    WrapDiff(b);
    var da := (Wrap(a) - a) / TWO_32;
    var db := (Wrap(b) - b) / TWO_32;
    assert Wrap(a) == a + da * TWO_32;
    assert Wrap(b) == b + db * TWO_32;
    assert Wrap(a) + Wrap(b) - (a + b) == (da + db) * TWO_32;
    WrapCongruent(Wrap(a) + Wrap(b), a + b);
  }

  /** If r is the wrapped sum of the wrapped a and b, r is the wrapped sum of a and b. */
  lemma WrapSum(r: int, x: int, y: int, s: int, a: int, b: int)
    requires r == Wrap(x + y) && x == Wrap(a) && y == Wrap(b) && s == a + b
    ensures r == Wrap(s)
  {
    WrapAdd(a, b);
  }

  /** `x + 1` in Java: only `Integer.MAX_VALUE` wraps, to `Integer.MIN_VALUE`. */
  lemma WrapSuccessor(x: int)
    requires IsInt32(x)
    ensures Wrap(x + 1) == if x == INT_MAX then INT_MIN else x + 1
  {
    if x == INT_MAX {
      assert (x + 1 - INT_MIN) % TWO_32 == 0;
    } else {
      WrapIdentity(x + 1);
    }
  }

  /** What a call returns, or which Java exception it throws. */
  datatype Exception = IndexOutOfBounds | NegativeArraySize
  datatype Outcome = Returned(value: int) | Thrown(exception: Exception)
}
