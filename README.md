# Four small Java algorithms, modelled and verified in Dafny

This project models the core of a collection of Java exercise programs and proves what those programs promise:

- **N-Queens with a fixed first queen** (`NqueensFixed.java`, module `NQueens` in `nqueens.dfy`).
  - The board, N and the fixed square are the fields of the class `Solver`.
  - `Solver.IsSafe` keeps the three scanning loops of `isSafe`. Which cells those loops look at is the predicate `ClearRow`, and what they decide together is the predicate `Safe`.
  - `Solver.Solve` is the recursive backtracking search. It places queens in the two-dimensional array and removes them again.
  - Both methods are proved to compute exactly the pure functions `Safe`, `SolveFrom` and `TryColumns`. Those functions thread the board through the recursion.
  - About those functions the model proves:
    - what a call leaves unchanged (the rows above and the fixed row);
    - that a failed call restores the board;
    - soundness, and completeness;
    - that the solution found is the lexicographically first one;
    - what the search decides in terms of queens that attack each other.
- **0/1 knapsack by tabulation** (`zerooneknapsack.java`, module `Knapsack01` in `knapsack.dfy`).
  - `Knapsack` fills an `array2` exactly as `knapsack` does and returns `Table(n, W)`, the recursive description of the table. It also returns the exception `knapsack` throws on the inputs where it throws.
  - The lemmas prove that this value is the best total value of a subset of the items that fits the capacity, when every weight is at least 1.
- **Fibonacci** (`Fibo.java`, module `Fibonacci` in `fibonacci.dfy`).
  - `RecFib` is the recursive definition, and `IterFib` fills the caller's array.
  - Both use Java's 32-bit wrapping `int` addition. That addition is written out as `Wrap` in module `JavaInt` (`javaint.dfy`), which also holds the Java exceptions the programs can throw.
  - The model proves that the two agree with each other and with the Fibonacci numbers reduced modulo 2^32. They agree exactly up to F(46), and F(47) is the first to wrap.
- **Huffman coding** (`HuffmanEncoding.java`, module `Huffman` in `huffman.dfy`).
  - The class `Node` (HuffmanEncoding.java:5-23) is the datatype `Huffman.Node`. A leaf holds a character and a frequency. An internal node holds a frequency and two children; the `'-'` the Java constructor stores in it is never read, so the datatype leaves it out.
  - The build loop of `main` is a method over the priority queue, held as an unordered sequence of trees. `Poll` removes a tree of least frequency.
  - `printCodes` is a function returning the (character, code) pairs it would print.
  - The proofs cover:
    - that frequency sums and leaves are preserved;
    - that the queue shrinks by one per merge;
    - that the merged trees are the two least frequent;
    - that there is one code per input character, the codes are prefix-free, and each code decodes to its character.

`wrappers.dfy` holds the `Option` type shared by the modules.

## Model

| member | source | states |
|---|---|---|
| NQueens.Initial | NqueensFixed.java:64-70 | `main`'s board is N x N, holds the fixed queen on the fixed square, and is empty everywhere else |
| NQueens.Solver.constructor | NqueensFixed.java:64-70 | the board is N x N, all zeros except a 1 at the fixed square, and it is a fresh array |
| NQueens.Solver.IsSafe | NqueensFixed.java:8-30 | returns true iff `Safe` holds: no 1 lies in column `col` above `row`, nor on the up-left diagonal, nor on the up-right diagonal inside the board (the cells `ClearRow` names); every access is in bounds and nothing is written |
| NQueens.ScansMeanSafe | NqueensFixed.java:11-29 | when the column scan and both diagonal scans reach the edge of the board without meeting a 1, the square is safe |
| NQueens.Solver.Solve | NqueensFixed.java:33-60 | the result and the board left behind are exactly those of the recursive search `SolveFrom` started from the board before the call, with the search measure N - row |
| NQueens.Run | NqueensFixed.java:62-73 | `main`: throws (None) iff the fixed square is off the board; otherwise reports what `solve(0)` returns; with the fixed queen in row 0, it reports true iff the puzzle has a solution through (0, fc), and on true the board holds such a solution |
| NQueens.SolveFrom | NqueensFixed.java:33-41 | the search keeps an N x N board; the fixed-row test comes before the `row == N` base case, so with the fixed row inside the board the recursion stays within rows 0..N |
| NQueens.TryColumns | NqueensFixed.java:44-59 | the column loop keeps an N x N board: place on a safe column, recurse, undo on failure, return false after the last column |
| NQueens.SafeReadsOnlyAbove | NqueensFixed.java:11-26 | the conflict test depends only on the rows strictly above `row` |
| NQueens.SolveKeeps | NqueensFixed.java:36-37 | `solve(row)` never changes a row above `row` nor the fixed row, so the fixed queen stays where `main` put it |
| NQueens.TryKeeps | NqueensFixed.java:44-54 | the column loop writes only row `row` and rows below it other than the fixed row |
| NQueens.SolveFailureRestores | NqueensFixed.java:48-59 | when the rows still to fill start empty and `solve(row)` returns false, the board is exactly as it was before the call |
| NQueens.TryFailureRestores | NqueensFixed.java:44-59 | the same for the column loop: every placement is undone on failure |
| NQueens.UndoPlace | NqueensFixed.java:48-54 | removing a queen just placed on an empty square gives back the board before the placement |
| NQueens.SolveSound | NqueensFixed.java:40-52 | on true, each row from `row` on (fixed row excepted) is its old content plus exactly one queen, and those queens, read off the board, passed `isSafe` when placed |
| NQueens.TrySound | NqueensFixed.java:44-52 | the same for the column loop |
| NQueens.SoundStep | NqueensFixed.java:47-52 | a safe placement at (row, col) followed by a successful search from row + 1 is a successful search from `row` |
| NQueens.SolveComplete | NqueensFixed.java:40-59 | every placement sequence that passes the tests makes `solve(row)` return true, and the one left on the board is lexicographically no greater (columns ascend, first success wins) |
| NQueens.TryComplete | NqueensFixed.java:44-56 | the same for the column loop started at any column not past the accepted one |
| NQueens.SafeOnBoard | NqueensFixed.java:8-30 | on a board of the search, `isSafe` holds iff no queen in a scanned row attacks (row, col) along a column or diagonal |
| NQueens.ExtendsOnBoard | NqueensFixed.java:33-60 | from the board at `row`, the search accepts a placement iff every checked pair of its queens is non-attacking |
| NQueens.PairwiseStep | NqueensFixed.java:47-48 | a queen that passes the test joins the filled rows without creating a checked attack |
| NQueens.AttackRejects | NqueensFixed.java:47 | a queen attacked from a scanned row rules out every placement that contains it |
| NQueens.SearchDecides | NqueensFixed.java:33-70 | from `main`'s board, `solve(0)` returns true iff some accepted placement uses the fixed square; on true the board is exactly that placement, and it is the lexicographically first |
| NQueens.SearchFound | NqueensFixed.java:33-73 | on success from `main`'s board, the columns read off the board are an accepted placement through the fixed square, and the board is exactly that placement |
| NQueens.FirstRowSearchIsExact | NqueensFixed.java:40-70 | with the fixed queen in row 0 as `main` has it, `solve(0)` returns true iff an N-queens solution with a queen at (0, fc) exists; on true the board holds the first such solution |
| NQueens.FullScanSearchIsExact | NqueensFixed.java:8-30 | the corrected test (scan every other row) makes the search exact for any fixed square: true iff a solution through it exists, and the board then holds one |
| NQueens.FullScanAcceptsPlacements | NqueensFixed.java:8-30 | with every other row scanned, the placements accepted are exactly the N-queens solutions |
| NQueens.FirstRowAcceptsPlacements | NqueensFixed.java:11-26 | with the fixed queen in row 0, scanning only the rows above loses no pair: the placements accepted are exactly the N-queens solutions |
| NQueens.AsWrittenMissesFixedQueenBelow | NqueensFixed.java:11-37 | on 4 x 4 with the queen fixed at (1, 0), `solve(0)` returns true with queens at (0, 0) and (1, 0), which attack each other |
| NQueens.FullScanFindsFixedQueenBelow | NqueensFixed.java:8-30 | on the same board the corrected test succeeds with a true solution |
| NQueens.NoFourQueensFromCorner | NqueensFixed.java:157-172 | 4 x 4 with the queen fixed at (0, 0) has no solution: `solve(0)` returns false, contrary to the comment's dry run |
| NQueens.FourQueensFromSecondColumn | NqueensFixed.java:64-70 | 4 x 4 with the queen fixed at (0, 1) is solved |
| NQueens.FirstRowSolvable | NqueensFixed.java:64-73 | any N-queens solution with its queen at (0, fc) makes `solve(0)` succeed |
| NQueens.EightQueensFromCorner | NqueensFixed.java:64-73 | `main`'s own setting, 8 x 8 with the queen at (0, 0), prints a solution |
| Knapsack01.Knapsack | zerooneknapsack.java:134-167 | a negative-size exception iff `n + 1` or `W + 1` is negative as an `int`; an index exception iff a dimension is 0 or, with W > 0, the items cannot all be read (n beyond an array or a negative weight); otherwise returns `dp[n][W]` of the table, at least 0, and when the first n items lie within both arrays and every weight among them is at least 1, for every capacity W >= 0, it is reached by a subset of the first n items of weight at most W and no such subset has a larger value |
| Knapsack01.FillRow | zerooneknapsack.java:149-163 | one pass of the fill loop sets row i to the recurrence over row i-1 and changes no other row |
| Knapsack01.Max | zerooneknapsack.java:157 | `Math.max`: at least both arguments and equal to one of them |
| Knapsack01.Table | zerooneknapsack.java:136-163 | the table as `knapsack` fills it; every cell is at least the value 0 of the empty selection |
| Knapsack01.Opt | zerooneknapsack.java:9-16 | the recurrence with column 0 computed; never below 0 |
| Knapsack01.TableMonotoneInItems | zerooneknapsack.java:154-162 | for i, j >= 1, dp[i][j] >= dp[i-1][j]: one more item never lowers the optimum |
| Knapsack01.TableIsOpt | zerooneknapsack.java:140-163 | with every weight at least 1, the table equals the recurrence with column 0 computed |
| Knapsack01.TableIsOptimal | zerooneknapsack.java:134-167 | with every weight at least 1, `dp[n][W]` is the maximum value over subsets of the first n items with total weight at most W |
| Knapsack01.OptIsUpperBound | zerooneknapsack.java:9-16 | no selection within capacity j beats the recurrence with column 0 computed |
| Knapsack01.OptIsReached | zerooneknapsack.java:9-16 | that recurrence's value is reached by a selection within capacity j |
| Knapsack01.OptIsOptimal | zerooneknapsack.java:9-16 | with every weight non-negative, that recurrence is the maximum over subsets of the items that fit |
| Knapsack01.ZeroWeightCounterexample | zerooneknapsack.java:140-157 | values 5, 7, weights 0, 1, capacity 1: the table gives 7 while both items fit for 12 |
| Knapsack01.MainExample | zerooneknapsack.java:169-173 | `main`'s input gives 75, reached by items 3 and 4 (weight 7), and no feasible selection is worth more |
| Knapsack01.ExampleRows1To2 | zerooneknapsack.java:169-173 | rows 1 and 2 of `main`'s table at the capacities the later rows read |
| Knapsack01.ExampleRows3To5 | zerooneknapsack.java:169-173 | `main`'s table reads 29 at row 3, capacity 7, and ends in 75 at row 5, capacity 7 |
| Knapsack01.ExampleSelection | zerooneknapsack.java:169-173 | items 3 and 4 weigh 7 and are worth 75 |
| Knapsack01.ExampleRun | zerooneknapsack.java:168-174 | running `knapsack` on `main`'s arrays returns 75 |
| JavaInt.Wrap | Fibo.java:23 | Java `int` addition: the wrapped result lies in [-2^31, 2^31) |
| JavaInt.WrapDiff | Fibo.java:23 | the wrapped result differs from the exact value by a multiple of 2^32 |
| JavaInt.WrapAdd | Fibo.java:23 | wrapping the operands of an addition first does not change the wrapped sum |
| JavaInt.WrapSum | Fibo.java:23 | adding two wrapped values and wrapping gives the wrapped exact sum |
| JavaInt.WrapSuccessor | Fibo.java:61 | `m + 1` in `int` wraps only for m = 2^31 - 1, to -2^31 |
| Fibonacci.RecFib | Fibo.java:19-24 | `Reccfibo` returns an `int`, with `Reccfibo(0) = 0` and `Reccfibo(1) = 1` |
| Fibonacci.RecFibIsWrappedFib | Fibo.java:19-24 | `Reccfibo(n)` is the n-th Fibonacci number reduced to a 32-bit `int` |
| Fibonacci.RecFibStep | Fibo.java:23 | if `Reccfibo` is the wrapped F at n - 1 and n - 2, it is the wrapped F at n |
| Fibonacci.NoOverflowUpTo46 | Fibo.java:23 | for n <= 46 no addition wraps and `Reccfibo(n)` is exactly F(n) |
| Fibonacci.OverflowAt47 | Fibo.java:23 | F(47) = 2971215073 does not fit, and `Reccfibo(47)` is -1323752223 |
| Fibonacci.IterFib | Fibo.java:43-50 | with at least two cells every `nums[i]` becomes `Reccfibo(i)` and the result is `Reccfibo(m)` when m is a valid index; otherwise an index exception, with `nums[0] = 0` already written when there is one cell |
| Fibonacci.IterativeMain | Fibo.java:59-62 | `main`'s iterative part gives `Reccfibo(m)` for 1 <= m < 2^31 - 1, an index exception for m = 0 and m = -1, and a negative-size exception for m < -1 and for m = 2^31 - 1, where `m + 1` wraps |
| Fibonacci.IterFibGuarded | Fibo.java:43-50 | with the write of `nums[1]` guarded, every cell becomes `Reccfibo(i)` for any length, and the result is `Reccfibo(m)` for every valid index |
| Fibonacci.IterativeMainGuarded | Fibo.java:59-62 | with that guard, `main` reports `Reccfibo(m)`, F(m) reduced to a 32-bit `int`, for every 0 <= m < 2^31 - 1, F(0) included; the exceptions for m = -1, m < -1 and m = 2^31 - 1 stay |
| Huffman.RootFreqIsLeafSum | HuffmanEncoding.java:17-22 | in a tree whose internal frequencies are their children's sums, the root frequency is the sum over the leaves |
| Huffman.LeavesNonEmpty | HuffmanEncoding.java:10-22 | every tree has a leaf, and exactly one iff it is a leaf |
| Huffman.MinExists | HuffmanEncoding.java:46 | a non-empty queue has an element of least frequency |
| Huffman.QueueRemoveAt | HuffmanEncoding.java:55-56 | polling removes the polled tree's frequency and leaves from the queue's totals |
| Huffman.QueueAdd | HuffmanEncoding.java:50 | adding a tree adds its frequency and leaves to the queue's totals |
| Huffman.Poll | HuffmanEncoding.java:55-56 | `pq.poll()` returns a tree of least frequency and leaves the queue without exactly that tree; ties are unresolved |
| Huffman.MergeTwoSmallest | HuffmanEncoding.java:54-60 | one iteration: `left` is a least tree, `right` a least one of the rest (so `left.freq <= right.freq`), the new node with their sum is added, the queue shrinks by one, keeps its total frequency and its leaves, and keeps every tree well formed and ordered |
| Huffman.EnqueueStep | HuffmanEncoding.java:49-51 | queueing the leaf of input i extends the queue's totals from the first i inputs to the first i + 1 |
| Huffman.EnqueueLeaves | HuffmanEncoding.java:48-51 | the first loop queues exactly one leaf per input pair, in input order; the queue's total frequency is the input's and its leaves are the input pairs |
| Huffman.LastTree | HuffmanEncoding.java:62 | the single tree left for the final poll carries the queue's total frequency and all its leaves |
| Huffman.AllTreesWithout | HuffmanEncoding.java:55-56 | polling keeps every remaining tree well formed and ordered |
| Huffman.AllTreesAdd | HuffmanEncoding.java:58-59 | adding a well-formed, ordered tree keeps the queue so |
| Huffman.Build | HuffmanEncoding.java:46-62 | null root iff no input; n >= 1 inputs take n - 1 merges; the root is well formed and ordered, its frequency is the sum of the inputs and its leaves are exactly the input pairs; one input gives a single leaf |
| Huffman.PrintCodes | HuffmanEncoding.java:28-39 | `printCodes(root, code)`: nothing for a null root, otherwise one (character, code) pair per leaf |
| Huffman.CodesFrom | HuffmanEncoding.java:32-38 | the walk below a node: a leaf prints its own pair, an internal node its left subtree's pairs then its right subtree's; one pair per leaf |
| Huffman.CodesMatchLeaves | HuffmanEncoding.java:28-39 | `printCodes` emits one code per leaf in leaf order, each extending the prefix, and following a code from the tree reaches exactly its leaf |
| Huffman.CodeOnLeft | HuffmanEncoding.java:37 | a code emitted for the left subtree starts with `code + "0"` and decodes from the parent to the same leaf |
| Huffman.CodeOnRight | HuffmanEncoding.java:38 | a code emitted for the right subtree starts with `code + "1"` and decodes from the parent to the same leaf |
| Huffman.CodesPrefixFree | HuffmanEncoding.java:28-39 | no emitted code is a prefix of another |
| Huffman.HuffmanMain | HuffmanEncoding.java:41-66 | `main` emits one code per input, with the same characters, prefix-free, each decoding to its character; no input emits nothing; one input emits the empty code |

## Left out

- Console I/O is not modelled. This covers the `Scanner` input in `Fibo.java`, board printing and messages in `NqueensFixed.java`, and the `println`s of `HuffmanEncoding.java`. Inputs become parameters. `printCodes` returns its pairs instead of printing them.
- `fractionalknapsack.java` is not part of this model. It computes `double` ratios and sorts with the library.
- The internals of `java.util.PriorityQueue` are not modelled: its heap layout, and its order among equal frequencies. `Poll` takes any tree of least frequency.
- Huffman.Build: the optimality of Huffman codes (least weighted path length), claimed in the comments, is not proved. Proving it takes an exchange argument beyond what the loop itself promises.
- Huffman.HuffmanMain: the concrete code table for `main`'s five characters is not derived. The comment's table (HuffmanEncoding.java:213-219) does not match the code either way.
- Huffman.Build: frequency sums are unbounded integers; Java `int` overflow of the sums is not modelled.
- Knapsack01.Knapsack: the sums `v + dp[i-1][j-w]` use unbounded integers; Java `int` overflow of those sums is not modelled. Inputs whose sums fit in an `int` behave the same.
- Knapsack01.Knapsack: an exception is reported only by its kind. Which access throws first, and the table cells written before it, are not modelled; the table is local to `knapsack`, so nothing outside sees them.
- Knapsack01.Knapsack: the optimality half of its contract needs every weight to be at least 1. With a zero-weight item the table is not optimal; see "## Findings".
- Fibonacci.RecFib: a negative argument never reaches a base case in `Reccfibo`, which recurses until the stack overflows. The model's domain is therefore `nat`.
- NQueens.Solver.Solve: requires the fixed row to lie on the board. `main` would already throw at line 70 otherwise, and `NQueens.Run` models that as `None`.
- The complexity claims in the comment blocks are not modelled.
- The comment dry runs are not used as specifications. Where they disagree with the code, the model follows the code:
  - NqueensFixed.java:157-172 claims a 4 x 4 solution through (0, 0); `NQueens.NoFourQueensFromCorner` shows there is none.
  - Row 3, capacity 7 of the knapsack table at zerooneknapsack.java:76 reads 39, but the code computes 29. That is items 1 and 2 for 15 + 14. `Knapsack01.ExampleRows3To5` states the 29.
  - Row 2, capacity 6 of the same table (zerooneknapsack.java:75) reads 29, but items 1 and 2 weigh 7 together, and the code computes 15. `Knapsack01.ExampleRows1To2` states the 15.

## Findings

| source | as written | input that shows it | evidently intended | confidence | as-written member | corrected member |
|---|---|---|---|---|---|---|
| zerooneknapsack.java:140-157 | column 0 of `dp` is fixed at 0 and the fill starts at j = 1, so an item of weight 0 is never counted at capacity 0 | values {5, 7}, weights {0, 1}, W = 1: returns 7 | the best subset value, 12 (both items fit) | not executed | Knapsack01.ZeroWeightCounterexample | Knapsack01.OptIsOptimal |
| Fibo.java:45,61 | `Iterfibo` writes `nums[1]` unconditionally, and `main` allocates `new int[m + 1]` | m = 0: `nums` has one cell and `nums[1] = 1` throws | print F(0) = 0 | not executed | Fibonacci.IterativeMain | Fibonacci.IterativeMainGuarded |
| NqueensFixed.java:11-26,36-37 | `isSafe` scans only rows above `row`, and the fixed row is skipped, so a queen placed above the fixed queen is never checked against it | N = 4, fixed queen at (1, 0): `solve(0)` returns true with queens at (0, 0) and (1, 0) in the same column | report a solution only when no two queens attack, for any fixed square | not executed | NQueens.AsWrittenMissesFixedQueenBelow | NQueens.FullScanSearchIsExact |

The corrected N-Queens test scans every row other than `row`. For `main`'s own setting, the fixed queen in row 0, it decides exactly what `isSafe` as written decides (`NQueens.FirstRowSearchIsExact`). The class therefore keeps the test as written. The corrected knapsack recurrence is `Knapsack01.Opt`. It equals the table whenever every weight is at least 1 (`Knapsack01.TableIsOpt`).
