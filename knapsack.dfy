/**
 * 0/1 knapsack by bottom-up tabulation: `dp[i][j]` is the best value that the
 * first `i` items can reach within capacity `j`.  The model states the table
 * `knapsack` fills as a recursive function, proves the method fills it, and
 * proves that the returned entry is the optimum over subsets of the items
 * whenever every weight is at least 1.  With a zero-weight item the program's
 * fixed column 0 is wrong; `Opt` is the recurrence with that column computed,
 * and it is optimal for every non-negative weight.
 */
module Knapsack01 {

  import opened JavaInt

  function Max(a: int, b: int): (m: int)
    ensures m >= a && m >= b && (m == a || m == b)
  {
    if a >= b then a else b
  }

  /**
   * The table as `knapsack` fills it: row 0 and column 0 are 0, and every
   * other cell takes the better of leaving item i-1 out and, when it fits,
   * putting it in.  No cell is below 0, the value of taking nothing.
   */
  function Table(val: seq<int>, wt: seq<int>, i: nat, j: nat): (r: int)
    requires j > 0 ==> i <= |val| && i <= |wt|
    ensures r >= 0
  {
    if i == 0 || j == 0 then 0
    else if wt[i - 1] <= j then
      Max(val[i - 1] + Table(val, wt, i - 1, j - wt[i - 1]), Table(val, wt, i - 1, j))
    else Table(val, wt, i - 1, j)
  }

  /** The same recurrence with column 0 computed like every other column; never below 0 either. */
  function Opt(val: seq<int>, wt: seq<int>, i: nat, j: nat): (r: int)
    requires i <= |val| && i <= |wt|
    ensures r >= 0
  {
    if i == 0 then 0
    else if wt[i - 1] <= j then
      Max(val[i - 1] + Opt(val, wt, i - 1, j - wt[i - 1]), Opt(val, wt, i - 1, j))
    else Opt(val, wt, i - 1, j)
  }

  /** A selection of the first |sel| items: `sel[k]` says whether item k is taken. */
  function Weight(wt: seq<int>, sel: seq<bool>): int
    requires |sel| <= |wt|
  {
    if sel == [] then 0
    else Weight(wt, sel[..|sel| - 1]) + (if sel[|sel| - 1] then wt[|sel| - 1] else 0)
  }

  function Value(val: seq<int>, sel: seq<bool>): int
    requires |sel| <= |val|
  {
    if sel == [] then 0
    else Value(val, sel[..|sel| - 1]) + (if sel[|sel| - 1] then val[|sel| - 1] else 0)
  }

  predicate NonNegativeWeights(wt: seq<int>, n: nat)
    requires n <= |wt|
  {
    forall k :: 0 <= k < n ==> wt[k] >= 0
  }

  predicate PositiveWeights(wt: seq<int>, n: nat)
    requires n <= |wt|
  {
    forall k :: 0 <= k < n ==> wt[k] >= 1
  }

  lemma {:induction false} WeightNonNegative(wt: seq<int>, sel: seq<bool>)
    requires |sel| <= |wt| && NonNegativeWeights(wt, |sel|)
    ensures Weight(wt, sel) >= 0
    decreases |sel|
  {
    if sel != [] {
      WeightNonNegative(wt, sel[..|sel| - 1]);
    }
  }

  /** Considering one more item never lowers the table entry. */
  lemma TableMonotoneInItems(val: seq<int>, wt: seq<int>, i: nat, j: nat)
    requires 1 <= i <= |val| && i <= |wt| && j >= 1
    ensures Table(val, wt, i, j) >= Table(val, wt, i - 1, j)
  {
  }

  /** No selection that fits within capacity j is worth more than Opt. */
  lemma {:induction false} OptIsUpperBound(val: seq<int>, wt: seq<int>, sel: seq<bool>, j: nat)
    requires |sel| <= |val| && |sel| <= |wt| && NonNegativeWeights(wt, |sel|)
    requires Weight(wt, sel) <= j
    ensures Value(val, sel) <= Opt(val, wt, |sel|, j)
    decreases |sel|
  {
    if sel != [] {
      var i := |sel|;
      var rest := sel[..i - 1];
      WeightNonNegative(wt, rest);
      if sel[i - 1] {
        OptIsUpperBound(val, wt, rest, j - wt[i - 1]);
      } else {
        OptIsUpperBound(val, wt, rest, j);
      }
    }
  }

  /** A selection of the first i items that reaches Opt(i, j). */
  function Choice(val: seq<int>, wt: seq<int>, i: nat, j: nat): (sel: seq<bool>)
    requires i <= |val| && i <= |wt|
    ensures |sel| == i
  {
    if i == 0 then []
    else if wt[i - 1] <= j
         && val[i - 1] + Opt(val, wt, i - 1, j - wt[i - 1]) >= Opt(val, wt, i - 1, j) then
      Choice(val, wt, i - 1, j - wt[i - 1]) + [true]
    else Choice(val, wt, i - 1, j) + [false]
  }

  /** Opt is reached: the selection `Choice` fits and is worth exactly Opt. */
  lemma {:induction false} OptIsReached(val: seq<int>, wt: seq<int>, i: nat, j: nat)
    requires i <= |val| && i <= |wt|
    ensures Weight(wt, Choice(val, wt, i, j)) <= j
    ensures Value(val, Choice(val, wt, i, j)) == Opt(val, wt, i, j)
  {
    if i > 0 {
      var sel := Choice(val, wt, i, j);
      assert sel[..i - 1] == Choice(val, wt, i - 1, if sel[i - 1] then j - wt[i - 1] else j);
      if sel[i - 1] {
        OptIsReached(val, wt, i - 1, j - wt[i - 1]);
      } else {
        OptIsReached(val, wt, i - 1, j);
      }
    }
  }

  /**
   * Opt(n, W) is the largest value of any selection of the first n items
   * whose weight is at most W, for every capacity and non-negative weights.
   */
  lemma OptIsOptimal(val: seq<int>, wt: seq<int>, n: nat, W: nat)
    requires n <= |val| && n <= |wt| && NonNegativeWeights(wt, n)
    ensures exists sel :: |sel| == n && Weight(wt, sel) <= W && Value(val, sel) == Opt(val, wt, n, W)
    ensures forall sel :: |sel| == n && Weight(wt, sel) <= W ==> Value(val, sel) <= Opt(val, wt, n, W)
  {
    OptIsReached(val, wt, n, W);
    var best := Choice(val, wt, n, W);
    assert |best| == n && Weight(wt, best) <= W && Value(val, best) == Opt(val, wt, n, W);
    forall sel | |sel| == n && Weight(wt, sel) <= W
      ensures Value(val, sel) <= Opt(val, wt, n, W)
    {
      OptIsUpperBound(val, wt, sel, W);
    }
  }

  /** With every weight at least 1 nothing fits in capacity 0, and the program's table is Opt. */
  lemma {:induction false} TableIsOpt(val: seq<int>, wt: seq<int>, i: nat, j: nat)
    requires i <= |val| && i <= |wt| && PositiveWeights(wt, i)
    ensures Table(val, wt, i, j) == Opt(val, wt, i, j)
  {
    if i > 0 {
      TableIsOpt(val, wt, i - 1, j);
      if wt[i - 1] <= j {
        TableIsOpt(val, wt, i - 1, j - wt[i - 1]);
      }
    }
  }

  /**
   * The value `knapsack` returns, dp[n][W], is the best value of any
   * selection of the first n items whose total weight is at most W, when
   * every weight is at least 1.
   */
  lemma TableIsOptimal(val: seq<int>, wt: seq<int>, n: nat, W: nat)
    requires n <= |val| && n <= |wt| && PositiveWeights(wt, n)
    ensures exists sel :: |sel| == n && Weight(wt, sel) <= W && Value(val, sel) == Table(val, wt, n, W)
    ensures forall sel :: |sel| == n && Weight(wt, sel) <= W ==> Value(val, sel) <= Table(val, wt, n, W)
  {
    TableIsOpt(val, wt, n, W);
    OptIsOptimal(val, wt, n, W);
  }

  /**
   * A zero-weight item: items (value 5, weight 0) and (value 7, weight 1),
   * capacity 1.  Both fit together, for 12, but the program's table reads
   * dp[1][0] = 0 when it considers the second item and returns 7.
   */
  lemma ZeroWeightCounterexample()
    ensures Table([5, 7], [0, 1], 2, 1) == 7
    ensures Opt([5, 7], [0, 1], 2, 1) == 12
    ensures Weight([0, 1], [true, true]) <= 1 && Value([5, 7], [true, true]) == 12
  {
    assert [true, true][..1] == [true];
    assert [true][..0] == [];
  }

  /**
   * The program's own input: values 15, 14, 10, 45, 30, weights 2, 5, 1, 3, 4,
   * capacity 7.  The answer is 75 (items 3 and 4), and no selection does better.
   */
  lemma MainExample()
    ensures Table([15, 14, 10, 45, 30], [2, 5, 1, 3, 4], 5, 7) == 75
    ensures Weight([2, 5, 1, 3, 4], [false, false, false, true, true]) == 7
    ensures Value([15, 14, 10, 45, 30], [false, false, false, true, true]) == 75
    ensures forall sel :: |sel| == 5 && Weight([2, 5, 1, 3, 4], sel) <= 7 ==>
              Value([15, 14, 10, 45, 30], sel) <= 75
  {
    var v, w := [15, 14, 10, 45, 30], [2, 5, 1, 3, 4];
    ExampleRows3To5(v, w);
    ExampleSelection(v, w);
    TableIsOptimal(v, w, 5, 7);
  }

  /** Rows 1 and 2 of the example's table, at the columns the later rows read. */
  lemma ExampleRows1To2(v: seq<int>, w: seq<int>)
    requires v == [15, 14, 10, 45, 30] && w == [2, 5, 1, 3, 4]
    ensures Table(v, w, 2, 2) == 15 && Table(v, w, 2, 3) == 15 && Table(v, w, 2, 4) == 15
    ensures Table(v, w, 2, 6) == 15 && Table(v, w, 2, 7) == 29
  {
    assert Table(v, w, 1, 1) == 0 && Table(v, w, 1, 2) == 15 && Table(v, w, 1, 3) == 15;
    assert Table(v, w, 1, 4) == 15 && Table(v, w, 1, 6) == 15 && Table(v, w, 1, 7) == 15;
  }

  lemma ExampleRows3To5(v: seq<int>, w: seq<int>)
    requires v == [15, 14, 10, 45, 30] && w == [2, 5, 1, 3, 4]
    ensures Table(v, w, 3, 7) == 29
    ensures Table(v, w, 5, 7) == 75
  {
    ExampleRows1To2(v, w);
    assert Table(v, w, 3, 3) == 25 && Table(v, w, 3, 4) == 25 && Table(v, w, 3, 7) == 29;
    assert Table(v, w, 4, 3) == 45 && Table(v, w, 4, 7) == 70;
  }

  /** Taking items 3 and 4 weighs 7 and is worth 75. */
  lemma ExampleSelection(v: seq<int>, w: seq<int>)
    requires v == [15, 14, 10, 45, 30] && w == [2, 5, 1, 3, 4]
    ensures Weight(w, [false, false, false, true, true]) == 7
    ensures Value(v, [false, false, false, true, true]) == 75
  {
    var best := [false, false, false, true, true];
    forall k | 1 <= k <= 5 ensures best[..k][..k - 1] == best[..k - 1] { }
    assert best[..0] == [] && best[..5] == best;
    assert Weight(w, best[..1]) == 0 && Value(v, best[..1]) == 0;
    assert Weight(w, best[..2]) == 0 && Value(v, best[..2]) == 0;
    assert Weight(w, best[..3]) == 0 && Value(v, best[..3]) == 0;
    assert Weight(w, best[..4]) == 3 && Value(v, best[..4]) == 45;
  }

  /**
   * `knapsack(val, wt, W, n)`: allocate an (n+1) x (W+1) table, zero row 0
   * and column 0, fill rows 1..n and columns 1..W by the recurrence and
   * return dp[n][W].
   *
   * The sizes n + 1 and W + 1 are computed in `int`: a negative one, from
   * n or W below -1 or equal to 2^31 - 1, makes the allocation throw.  A
   * dimension of size 0 (n or W equal to -1) makes the first access to it
   * throw.  The fill loop reads `val[i-1]`, `wt[i-1]` and `dp[i-1][j-w]`
   * only when W > 0; it then throws unless n is within both arrays and no
   * weight among the first n is negative (a negative weight w makes
   * j - w exceed W at j = W).
   */
  method Knapsack(val: array<int>, wt: array<int>, W: int, n: int) returns (r: Outcome)
    requires IsInt32(W) && IsInt32(n)
    ensures r == Thrown(NegativeArraySize) <==> n < -1 || n == INT_MAX || W < -1 || W == INT_MAX
    ensures r == Thrown(IndexOutOfBounds) <==>
              -1 <= n < INT_MAX && -1 <= W < INT_MAX
              && (n == -1 || W == -1 || (W > 0 && !ItemsReadable(val[..], wt[..], n)))
    ensures r.Returned? <==> 0 <= n < INT_MAX && 0 <= W < INT_MAX && (W > 0 ==> ItemsReadable(val[..], wt[..], n))
    ensures r.Returned? ==> r.value == Table(val[..], wt[..], n, W) && r.value >= 0
    ensures r.Returned? && ItemsReadable(val[..], wt[..], n) && PositiveWeights(wt[..], n) ==>
              (exists sel :: |sel| == n && Weight(wt[..], sel) <= W && Value(val[..], sel) == r.value)
              && (forall sel :: |sel| == n && Weight(wt[..], sel) <= W ==> Value(val[..], sel) <= r.value)
  {
    var rows, cols := Wrap(n + 1), Wrap(W + 1);
    WrapSuccessor(n);
    WrapSuccessor(W);
    if rows < 0 || cols < 0 {
      return Thrown(NegativeArraySize);
    }
    if rows == 0 || cols == 0 {
      return Thrown(IndexOutOfBounds);
    }
    if W > 0 && !ItemsReadable(val[..], wt[..], n) {
      return Thrown(IndexOutOfBounds);
    }
    ghost var vs, ws := val[..], wt[..];
    var dp := new int[rows, cols];
    for i := 0 to n + 1
      invariant forall i' :: 0 <= i' < i ==> dp[i', 0] == 0
    {
      dp[i, 0] := 0;
    }
    for j := 0 to W + 1
      invariant forall i' :: 0 <= i' <= n ==> dp[i', 0] == 0
      invariant forall j' :: 0 <= j' < j ==> dp[0, j'] == 0
    {
      dp[0, j] := 0;
    }
    for i := 1 to n + 1
      invariant forall i', j' :: 0 <= i' < i && 0 <= j' <= W ==> dp[i', j'] == Table(vs, ws, i', j')
      invariant forall i' :: i <= i' <= n ==> dp[i', 0] == 0
    {
      assert RowIs(dp, vs, ws, i - 1, W);
      FillRow(dp, val, wt, i, W, vs, ws);
    }
    r := Returned(dp[n, W]);
    if ItemsReadable(vs, ws, n) && PositiveWeights(ws, n) {
      TableIsOptimal(vs, ws, n, W);
    }
  }

  /** The fill loop can read items 0..n-1: both arrays hold them and no weight is negative. */
  predicate ItemsReadable(vs: seq<int>, ws: seq<int>, n: int)
  {
    0 <= n <= |vs| && n <= |ws| && NonNegativeWeights(ws, n)
  }

  /** Row r of the table holds the recurrence's values in columns 0..W. */
  ghost predicate RowIs(dp: array2<int>, vs: seq<int>, ws: seq<int>, r: nat, W: nat)
    requires r < dp.Length0 && W < dp.Length1 && (W > 0 ==> r <= |vs| && r <= |ws|)
    reads dp
  {
    forall j :: 0 <= j <= W ==> dp[r, j] == Table(vs, ws, r, j)
  }

  /** One pass of the outer fill loop: row i from the row above it, columns 1..W. */
  method FillRow(dp: array2<int>, val: array<int>, wt: array<int>, i: nat, W: nat, ghost vs: seq<int>, ghost ws: seq<int>)
    requires 1 <= i < dp.Length0 && dp.Length1 == W + 1
    requires W > 0 ==> i <= val.Length && i <= wt.Length && wt[i - 1] >= 0
    requires vs == val[..] && ws == wt[..]
    requires RowIs(dp, vs, ws, i - 1, W)
    requires dp[i, 0] == 0
    modifies dp
    ensures RowIs(dp, vs, ws, i, W)
    ensures forall i', j :: 0 <= i' < dp.Length0 && i' != i && 0 <= j <= W ==> dp[i', j] == old(dp[i', j])
  {
    for j := 1 to W + 1
      invariant forall j' :: 0 <= j' < j ==> dp[i, j'] == Table(vs, ws, i, j')
      invariant forall i', j' :: 0 <= i' < dp.Length0 && i' != i && 0 <= j' <= W ==> dp[i', j'] == old(dp[i', j'])
    {
      var v := val[i - 1];
      var w := wt[i - 1];
      assert v == vs[i - 1] && w == ws[i - 1];
      if w <= j {
        var includeProfit := v + dp[i - 1, j - w];
        var excludeProfit := dp[i - 1, j];
        dp[i, j] := Max(includeProfit, excludeProfit);
      } else {
        dp[i, j] := dp[i - 1, j];
      }
    }
  }

  /** `main`: the five items of the program and capacity 7 give a maximum profit of 75. */
  method ExampleRun() returns (maxProfit: Outcome)
    ensures maxProfit == Returned(75)
  {
    var val := new int[] [15, 14, 10, 45, 30];
    var wt := new int[] [2, 5, 1, 3, 4];
    assert val[..] == [15, 14, 10, 45, 30] && wt[..] == [2, 5, 1, 3, 4];
    ExampleRows3To5(val[..], wt[..]);
    assert ItemsReadable(val[..], wt[..], 5);
    maxProfit := Knapsack(val, wt, 7, val.Length);
  }
}
