/**
 * Fibonacci numbers computed two ways: `Reccfibo`, a naive recursion, and
 * `Iterfibo`, which fills a caller-supplied array.  Both use Java's 32-bit
 * `int` addition, which wraps past F(46); the model writes that wrap-around
 * out as `Wrap` and proves that the two computations agree anyway.
 */
module Fibonacci {

  import opened JavaInt

  /** The Fibonacci numbers over the unbounded integers. */
  function Fib(n: nat): nat
  {
    if n < 2 then n else Fib(n - 1) + Fib(n - 2)
  }

  /**
   * `Reccfibo`: F(0) = 0, F(1) = 1 and the sum of the two previous values
   * otherwise, added with Java's wrap-around.  `Reccfibo` also accepts a
   * negative argument, for which the recursion never reaches a base case;
   * the model's domain is therefore `nat`.
   */
  function RecFib(n: nat): (r: int)
    ensures IsInt32(r)
    ensures n < 2 ==> r == n
  {
    if n == 0 || n == 1 then n else Wrap(RecFib(n - 1) + RecFib(n - 2))
  }

  /** `Reccfibo(n)` is the n-th Fibonacci number reduced to a 32-bit `int`. */
  lemma {:induction false} RecFibIsWrappedFib(n: nat)
    ensures RecFib(n) == Wrap(Fib(n))
  {
    if n < 2 {
      WrapIdentity(n);
    } else {
      RecFibIsWrappedFib(n - 1);
      RecFibIsWrappedFib(n - 2);
      RecFibStep(n);
    }
  }

  lemma RecFibStep(n: nat)
    requires n >= 2
    requires RecFib(n - 1) == Wrap(Fib(n - 1)) && RecFib(n - 2) == Wrap(Fib(n - 2))
    ensures RecFib(n) == Wrap(Fib(n))
  {
    WrapSum(RecFib(n), RecFib(n - 1), RecFib(n - 2), Fib(n), Fib(n - 1), Fib(n - 2));
  }

  lemma {:induction false} FibMonotone(m: nat, n: nat)
    requires m <= n
    ensures Fib(m) <= Fib(n)
    decreases n - m
  {
    if m < n {
      FibMonotone(m, n - 1);
      assert Fib(n - 1) <= Fib(n) by {
        if n >= 2 {
          assert Fib(n) == Fib(n - 1) + Fib(n - 2);
        }
      }
    }
  }

  /** Fibonacci by pairs: k steps from (F(i), F(i + 1)) reach F(i + k). */
  function FibFrom(k: nat, a: nat, b: nat): nat
  {
    if k == 0 then a else FibFrom(k - 1, b, a + b)
  }

  lemma {:induction false} FibFromIsFib(k: nat, i: nat)
    ensures FibFrom(k, Fib(i), Fib(i + 1)) == Fib(i + k)
  {
    if k > 0 {
      assert Fib(i + 2) == Fib(i) + Fib(i + 1);
      FibFromIsFib(k - 1, i + 1);
    }
  }

  /** F(46) is the last Fibonacci number below 2^31; F(47) is above it. */
  lemma Fib46And47()
    ensures Fib(46) == 1836311903 && Fib(47) == 2971215073
  {
    FibFromIsFib(46, 0);
    FibFromIsFib(47, 0);
    FibFromValues();
  }

  lemma FibFromValues()
    ensures FibFrom(46, 0, 1) == 1836311903 && FibFrom(47, 0, 1) == 2971215073
  {
    assert FibFrom(46, 0, 1) == FibFrom(38, 21, 34);
    assert FibFrom(38, 21, 34) == FibFrom(30, 987, 1597);
    assert FibFrom(30, 987, 1597) == FibFrom(22, 46368, 75025);
    assert FibFrom(22, 46368, 75025) == FibFrom(14, 2178309, 3524578);
    assert FibFrom(14, 2178309, 3524578) == FibFrom(6, 102334155, 165580141);
    assert FibFrom(47, 0, 1) == FibFrom(39, 21, 34);
    assert FibFrom(39, 21, 34) == FibFrom(31, 987, 1597);
    assert FibFrom(31, 987, 1597) == FibFrom(23, 46368, 75025);
    assert FibFrom(23, 46368, 75025) == FibFrom(15, 2178309, 3524578);
    assert FibFrom(15, 2178309, 3524578) == FibFrom(7, 102334155, 165580141);
  }

  /** Up to n = 46 no addition overflows: `Reccfibo` is exactly F(n). */
  lemma NoOverflowUpTo46(n: nat)
    requires n <= 46
    ensures RecFib(n) == Fib(n)
  {
    RecFibIsWrappedFib(n);
    FibMonotone(n, 46);
    Fib46And47();
    WrapIdentity(Fib(n));
  }

  /** F(47) = 2971215073 does not fit in an `int`: Java reports -1323752223. */
  lemma OverflowAt47()
    ensures Fib(47) == 2971215073
    ensures RecFib(47) == -1323752223
  {
    Fib46And47();
    RecFibIsWrappedFib(47);
    var f := Fib(47);
    assert Wrap(f) == -1323752223 by {
      assert f - INT_MIN == 5118698721;
      assert 5118698721 % TWO_32 == 823731425;
    }
  }

  /**
   * `Iterfibo(m, nums)`: writes 0 and 1 into the first two cells, fills the rest
   * of the caller's array with the recurrence, and returns `nums[m]`.  The two
   * unconditional writes and the final read throw when the array has fewer
   * than two cells or `m` is out of range; the cells written before the
   * exception stay written.
   */
  method IterFib(m: int, nums: array<int>) returns (r: Outcome)
    modifies nums
    ensures nums.Length >= 2 ==> forall i :: 0 <= i < nums.Length ==> nums[i] == RecFib(i)
    ensures nums.Length == 1 ==> nums[0] == 0
    ensures r == if nums.Length >= 2 && 0 <= m < nums.Length then Returned(RecFib(m))
                 else Thrown(IndexOutOfBounds)
  {
    if nums.Length == 0 {
      return Thrown(IndexOutOfBounds);
    }
    nums[0] := 0;
    if nums.Length == 1 {
      return Thrown(IndexOutOfBounds);
    }
    nums[1] := 1;
    for i := 2 to nums.Length
      invariant forall k :: 0 <= k < i ==> nums[k] == RecFib(k)
    {
      nums[i] := Wrap(nums[i - 1] + nums[i - 2]);
    }
    if 0 <= m < nums.Length {
      r := Returned(nums[m]);
    } else {
      r := Thrown(IndexOutOfBounds);
    }
  }

  /**
   * The iterative half of `main`: allocate `new int[m + 1]` and call
   * `Iterfibo(m, nums)`.  The size is computed in `int`, so m = 2^31 - 1
   * gives a negative size.  For m = 0 the array has one cell and the write
   * of `nums[1]` throws, so the program cannot report F(0).
   */
  method IterativeMain(m: int) returns (r: Outcome)
    requires IsInt32(m)
    ensures 1 <= m < INT_MAX ==> r == Returned(RecFib(m))
    ensures m == 0 || m == -1 ==> r == Thrown(IndexOutOfBounds)
    ensures m < -1 || m == INT_MAX ==> r == Thrown(NegativeArraySize)
  {
    var size := Wrap(m + 1);
    WrapSuccessor(m);
    if size < 0 {
      return Thrown(NegativeArraySize);
    }
    var nums := new int[size];
    r := IterFib(m, nums);
  }

  /** `Iterfibo` with the write of `nums[1]` guarded by the array's length. */
  method IterFibGuarded(m: int, nums: array<int>) returns (r: Outcome)
    modifies nums
    ensures forall i :: 0 <= i < nums.Length ==> nums[i] == RecFib(i)
    ensures r == if 0 <= m < nums.Length then Returned(RecFib(m)) else Thrown(IndexOutOfBounds)
  {
    if nums.Length == 0 {
      return Thrown(IndexOutOfBounds);
    }
    nums[0] := 0;
    if nums.Length > 1 {
      nums[1] := 1;
    }
    var i := 2;
    while i < nums.Length
      invariant forall k :: 0 <= k < i && k < nums.Length ==> nums[k] == RecFib(k)
    {
      nums[i] := Wrap(nums[i - 1] + nums[i - 2]);
      i := i + 1;
    }
    if 0 <= m < nums.Length {
      r := Returned(nums[m]);
    } else {
      r := Thrown(IndexOutOfBounds);
    }
  }

  /**
   * The driver over the guarded fill reports `Reccfibo(m)`, F(m) reduced to a
   * 32-bit `int`, for every 0 <= m < 2^31 - 1, F(0) included; m = 2^31 - 1
   * still makes `m + 1` wrap and the allocation throw.
   */
  method IterativeMainGuarded(m: int) returns (r: Outcome)
    requires IsInt32(m)
    ensures 0 <= m < INT_MAX ==> r == Returned(RecFib(m))
    ensures m == -1 ==> r == Thrown(IndexOutOfBounds)
    ensures m < -1 || m == INT_MAX ==> r == Thrown(NegativeArraySize)
  {
    var size := Wrap(m + 1);
    WrapSuccessor(m);
    if size < 0 {
      return Thrown(NegativeArraySize);
    }
    var nums := new int[size];
    r := IterFibGuarded(m, nums);
  }
}
