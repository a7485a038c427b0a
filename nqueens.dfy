/**
 * N-Queens with one queen fixed in advance.  The board is an N x N grid of
 * ints (1 = queen, 0 = empty).  `solve(row)` skips the row of the fixed queen,
 * tries the columns of every other row in ascending order, places a queen
 * where `isSafe` allows, recurses on the next row and removes the queen again
 * when the recursion fails.
 *
 * The search is first described by pure functions that thread the board
 * through the recursion (`SolveFrom`, `TryColumns`); the class `Solver`
 * further down runs it on a two-dimensional array and is proved to follow
 * those functions exactly.  `full` selects the conflict test: `false` is the
 * test of `isSafe` as written, which scans only the rows above `row`; `true` scans
 * every other row, which also sees a fixed queen standing below `row`.
 */
module NQueens {
  import opened Wrappers

  type Grid = seq<seq<int>>

  predicate IsBoard(g: Grid, n: nat)
  {
    |g| == n && forall r :: 0 <= r < n ==> |g[r]| == n
  }

  /** The board with cell (r, c) set to v. */
  function Place(g: Grid, r: nat, c: nat, v: int): (h: Grid)
    requires r < |g| && c < |g[r]|
    ensures |h| == |g| && h[r] == g[r][c := v]
    ensures forall i :: 0 <= i < |g| && i != r ==> h[i] == g[i]
  {
    g[r := g[r][c := v]]
  }

  /** The board `main` starts from: empty but for the fixed queen. */
  function Initial(n: nat, fr: nat, fc: nat): (g: Grid)
    ensures IsBoard(g, n)
    ensures fr < n && fc < n ==> g[fr][fc] == 1 && EmptyFrom(g, n, fr, 0)
    ensures fr < n ==> forall c :: 0 <= c < n && c != fc ==> g[fr][c] == 0
  {
    seq(n, r => seq(n, c => if r == fr && c == fc then 1 else 0))
  }

  /** Rows from `row` down, except the fixed row, hold no queen. */
  predicate EmptyFrom(g: Grid, n: nat, fr: nat, row: nat)
    requires IsBoard(g, n)
  {
    forall r, c :: row <= r < n && r != fr && 0 <= c < n ==> g[r][c] == 0
  }

  /** Rows above `row` and the fixed row are the same in g and h. */
  predicate Keeps(g: Grid, h: Grid, n: nat, fr: nat, row: nat)
    requires IsBoard(g, n) && IsBoard(h, n)
  {
    forall r :: 0 <= r < n && (r < row || r == fr) ==> h[r] == g[r]
  }

  // ---------------------------------------------------------------------
  // The conflict test

  /**
   * Row i holds no queen in column `col` nor on either diagonal through
   * (row, col).  The three loops of `isSafe` together look at exactly these
   * cells of every row above `row`.
   */
  predicate ClearRow(g: Grid, n: nat, i: nat, row: nat, col: nat)
    requires IsBoard(g, n) && i < n && col < n
  {
    var d := if i < row then row - i else i - row;
    g[i][col] != 1
    && (col >= d ==> g[i][col - d] != 1)
    && (col + d < n ==> g[i][col + d] != 1)
  }

  /** `isSafe(row, col)`: no conflict in any row above; with `full`, in any other row at all. */
  predicate Safe(g: Grid, n: nat, row: nat, col: nat, full: bool)
    requires IsBoard(g, n) && row < n && col < n
  {
    forall i :: 0 <= i < n && (i < row || (full && i > row)) ==> ClearRow(g, n, i, row, col)
  }

  // ---------------------------------------------------------------------
  // The search

  /**
   * `solve(row)` as a function of the board before the call: whether it
   * returns true, and the board it leaves behind.
   */
  function SolveFrom(g: Grid, n: nat, fr: nat, row: nat, full: bool): (r: (bool, Grid))
    requires IsBoard(g, n) && fr < n && row <= n
    ensures IsBoard(r.1, n)
    decreases n - row, 1, 0
  {
    if row == fr then SolveFrom(g, n, fr, row + 1, full)
    else if row == n then (true, g)
    else TryColumns(g, n, fr, row, 0, full)
  }

  /** The column loop of `solve(row)`, from column `col` on. */
  function TryColumns(g: Grid, n: nat, fr: nat, row: nat, col: nat, full: bool): (r: (bool, Grid))
    requires IsBoard(g, n) && fr < n && row < n && row != fr && col <= n
    ensures IsBoard(r.1, n)
    decreases n - row, 0, n - col
  {
    if col == n then (false, g)
    else if Safe(g, n, row, col, full) then
      var (ok, h) := SolveFrom(Place(g, row, col, 1), n, fr, row + 1, full);
      if ok then (true, h) else TryColumns(Place(h, row, col, 0), n, fr, row, col + 1, full)
    else TryColumns(g, n, fr, row, col + 1, full)
  }

  // ---------------------------------------------------------------------
  // What a call leaves unchanged

  /** `solve(row)` writes neither the rows above `row` nor the fixed row. */
  lemma {:induction false} SolveKeeps(g: Grid, n: nat, fr: nat, row: nat, full: bool)
    requires IsBoard(g, n) && fr < n && row <= n
    ensures Keeps(g, SolveFrom(g, n, fr, row, full).1, n, fr, row)
    decreases n - row, 1, 0
  {
    if row == fr {
      SolveKeeps(g, n, fr, row + 1, full);
    } else if row < n {
      TryKeeps(g, n, fr, row, 0, full);
    }
  }

  lemma {:induction false} TryKeeps(g: Grid, n: nat, fr: nat, row: nat, col: nat, full: bool)
    requires IsBoard(g, n) && fr < n && row < n && row != fr && col <= n
    ensures Keeps(g, TryColumns(g, n, fr, row, col, full).1, n, fr, row)
    decreases n - row, 0, n - col
  {
    if col < n {
      if Safe(g, n, row, col, full) {
        var p := Place(g, row, col, 1);
        var (ok, h) := SolveFrom(p, n, fr, row + 1, full);
        SolveKeeps(p, n, fr, row + 1, full);
        if !ok {
          var q := Place(h, row, col, 0);
          TryKeeps(q, n, fr, row, col + 1, full);
        }
      } else {
        TryKeeps(g, n, fr, row, col + 1, full);
      }
    }
  }

  /** Taking back a queen put on an empty square restores the board. */
  lemma UndoPlace(g: Grid, n: nat, fr: nat, row: nat, col: nat)
    requires IsBoard(g, n) && row < n && row != fr && col < n && EmptyFrom(g, n, fr, row)
    ensures Place(Place(g, row, col, 1), row, col, 0) == g
  {
    assert g[row][col] == 0;
    assert g[row][col := 1][col := 0] == g[row];
  }

  /**
   * When the rows still to be filled start out empty, a call that returns
   * false leaves the board exactly as it found it: every queen it placed was
   * removed again.
   */
  lemma {:induction false} SolveFailureRestores(g: Grid, n: nat, fr: nat, row: nat, full: bool)
    requires IsBoard(g, n) && fr < n && row <= n && EmptyFrom(g, n, fr, row)
    ensures !SolveFrom(g, n, fr, row, full).0 ==> SolveFrom(g, n, fr, row, full).1 == g
    decreases n - row, 1, 0
  {
    if row == fr {
      SolveFailureRestores(g, n, fr, row + 1, full);
    } else if row < n {
      TryFailureRestores(g, n, fr, row, 0, full);
    }
  }

  lemma {:induction false} TryFailureRestores(g: Grid, n: nat, fr: nat, row: nat, col: nat, full: bool)
    requires IsBoard(g, n) && fr < n && row < n && row != fr && col <= n && EmptyFrom(g, n, fr, row)
    ensures !TryColumns(g, n, fr, row, col, full).0 ==> TryColumns(g, n, fr, row, col, full).1 == g
    decreases n - row, 0, n - col
  {
    if col < n {
      if Safe(g, n, row, col, full) {
        var p := Place(g, row, col, 1);
        var (ok, h) := SolveFrom(p, n, fr, row + 1, full);
        if !ok {
          SolveFailureRestores(p, n, fr, row + 1, full);
          UndoPlace(g, n, fr, row, col);
          TryFailureRestores(g, n, fr, row, col + 1, full);
        }
      } else {
        TryFailureRestores(g, n, fr, row, col + 1, full);
      }
    }
  }

  // ---------------------------------------------------------------------
  // Reading a placement off the board

  /** The column of the first queen in a row, or the row's length when it has none. */
  function QueenCol(s: seq<int>): (c: nat)
    ensures c <= |s|
  {
    if s == [] then 0 else if s[0] == 1 then 0 else 1 + QueenCol(s[1..])
  }

  lemma {:induction false} QueenColAt(s: seq<int>, c: nat)
    requires c < |s| && s[c] == 1
    requires forall i :: 0 <= i < c ==> s[i] != 1
    ensures QueenCol(s) == c
  {
    if c > 0 {
      assert s[1..][c - 1] == s[c];
      QueenColAt(s[1..], c - 1);
    }
  }

  /** The queen column of every row. */
  function ColumnsOf(h: Grid): (cols: seq<nat>)
    ensures |cols| == |h|
    ensures forall r :: 0 <= r < |h| ==> cols[r] == QueenCol(h[r])
  {
    seq(|h|, r requires 0 <= r < |h| => QueenCol(h[r]))
  }

  /**
   * The search accepts `cols` from `row` on: filling every row from `row` down
   * (the fixed row excepted) with a queen at cols[r], in order, passes the
   * conflict test each time.
   */
  predicate Extends(g: Grid, n: nat, fr: nat, row: nat, cols: seq<nat>, full: bool)
    requires IsBoard(g, n) && fr < n && row <= n && |cols| == n
    decreases n - row
  {
    if row == n then true
    else if row == fr then Extends(g, n, fr, row + 1, cols, full)
    else cols[row] < n && Safe(g, n, row, cols[row], full)
         && Extends(Place(g, row, cols[row], 1), n, fr, row + 1, cols, full)
  }

  /** Every row from `row` down, the fixed row excepted, is g's row with one queen added at cols[r]. */
  predicate FilledFrom(g: Grid, h: Grid, n: nat, fr: nat, row: nat, cols: seq<nat>)
    requires IsBoard(g, n) && IsBoard(h, n) && |cols| == n
  {
    forall r :: row <= r < n && r != fr ==> cols[r] < n && h[r] == g[r][cols[r] := 1]
  }

  /** Lexicographic order on the columns of the rows from `row` down, the fixed row skipped. */
  predicate LexLeq(a: seq<nat>, b: seq<nat>, row: nat, fr: nat)
    requires |a| == |b|
    decreases |a| - row
  {
    if row >= |a| then true
    else if row == fr then LexLeq(a, b, row + 1, fr)
    else a[row] < b[row] || (a[row] == b[row] && LexLeq(a, b, row + 1, fr))
  }

  /** A queen placed on an empty row is the row's first queen. */
  lemma PlacedQueenCol(g: Grid, n: nat, fr: nat, row: nat, col: nat, h: Grid)
    requires IsBoard(g, n) && IsBoard(h, n) && row < n && row != fr && col < n
    requires EmptyFrom(g, n, fr, row) && h[row] == g[row][col := 1]
    ensures ColumnsOf(h)[row] == col
  {
    QueenColAt(h[row], col);
  }

  // ---------------------------------------------------------------------
  // Soundness, completeness and the order of the search

  /**
   * When `solve(row)` returns true, the board it leaves has one queen added
   * in each row still to fill, and those queens, read off the board, are a
   * sequence of placements that each passed the conflict test when made.
   */
  lemma {:induction false} SolveSound(g: Grid, n: nat, fr: nat, row: nat, full: bool)
    requires IsBoard(g, n) && fr < n && row <= n && EmptyFrom(g, n, fr, row)
    ensures var (ok, h) := SolveFrom(g, n, fr, row, full);
            ok ==> Extends(g, n, fr, row, ColumnsOf(h), full) && FilledFrom(g, h, n, fr, row, ColumnsOf(h))
    decreases n - row, 1, 0
  {
    if row == fr {
      SolveSound(g, n, fr, row + 1, full);
    } else if row < n {
      TrySound(g, n, fr, row, 0, full);
    }
  }

  lemma {:induction false} TrySound(g: Grid, n: nat, fr: nat, row: nat, col: nat, full: bool)
    requires IsBoard(g, n) && fr < n && row < n && row != fr && col <= n && EmptyFrom(g, n, fr, row)
    ensures var (ok, h) := TryColumns(g, n, fr, row, col, full);
            ok ==> Extends(g, n, fr, row, ColumnsOf(h), full) && FilledFrom(g, h, n, fr, row, ColumnsOf(h))
    decreases n - row, 0, n - col
  {
    if col < n {
      if Safe(g, n, row, col, full) {
        var p := Place(g, row, col, 1);
        var (ok, h) := SolveFrom(p, n, fr, row + 1, full);
        if ok {
          SolveSound(p, n, fr, row + 1, full);
          SolveKeeps(p, n, fr, row + 1, full);
          SoundStep(g, n, fr, row, col, full, h);
        } else {
          SolveFailureRestores(p, n, fr, row + 1, full);
          UndoPlace(g, n, fr, row, col);
          TrySound(g, n, fr, row, col + 1, full);
        }
      } else {
        TrySound(g, n, fr, row, col + 1, full);
      }
    }
  }

  /** A safe queen at (row, col) followed by a sound search from `row + 1` is a sound search from `row`. */
  lemma SoundStep(g: Grid, n: nat, fr: nat, row: nat, col: nat, full: bool, h: Grid)
    requires IsBoard(g, n) && IsBoard(h, n) && fr < n && row < n && row != fr && col < n
    requires EmptyFrom(g, n, fr, row) && Safe(g, n, row, col, full)
    requires Keeps(Place(g, row, col, 1), h, n, fr, row + 1)
    requires Extends(Place(g, row, col, 1), n, fr, row + 1, ColumnsOf(h), full)
    requires FilledFrom(Place(g, row, col, 1), h, n, fr, row + 1, ColumnsOf(h))
    ensures Extends(g, n, fr, row, ColumnsOf(h), full) && FilledFrom(g, h, n, fr, row, ColumnsOf(h))
  {
    var p := Place(g, row, col, 1);
    assert h[row] == p[row] == g[row][col := 1];
    PlacedQueenCol(g, n, fr, row, col, h);
    forall r | row < r < n && r != fr
      ensures h[r] == g[r][ColumnsOf(h)[r] := 1]
    {
      assert p[r] == g[r];
    }
  }

  /**
   * Every placement sequence the search would accept is found: `solve(row)`
   * returns true, and because columns are tried in ascending order and the
   * first success is kept, the placement it leaves is lexicographically no
   * greater than any accepted one.
   */
  lemma {:induction false} SolveComplete(g: Grid, n: nat, fr: nat, row: nat, full: bool, cols: seq<nat>)
    requires IsBoard(g, n) && fr < n && row <= n && EmptyFrom(g, n, fr, row)
    requires |cols| == n && Extends(g, n, fr, row, cols, full)
    ensures var (ok, h) := SolveFrom(g, n, fr, row, full);
            ok && LexLeq(ColumnsOf(h), cols, row, fr)
    decreases n - row, 1, 0
  {
    if row == fr {
      SolveComplete(g, n, fr, row + 1, full, cols);
    } else if row < n {
      TryComplete(g, n, fr, row, 0, full, cols);
    }
  }

  lemma {:induction false} TryComplete(g: Grid, n: nat, fr: nat, row: nat, col: nat, full: bool, cols: seq<nat>)
    requires IsBoard(g, n) && fr < n && row < n && row != fr && EmptyFrom(g, n, fr, row)
    requires |cols| == n && col <= cols[row] < n && Safe(g, n, row, cols[row], full)
    requires Extends(Place(g, row, cols[row], 1), n, fr, row + 1, cols, full)
    ensures var (ok, h) := TryColumns(g, n, fr, row, col, full);
            ok && LexLeq(ColumnsOf(h), cols, row, fr)
    decreases n - row, 0, n - col
  {
    if Safe(g, n, row, col, full) {
      var p := Place(g, row, col, 1);
      var (ok, h) := SolveFrom(p, n, fr, row + 1, full);
      if col == cols[row] {
        SolveComplete(p, n, fr, row + 1, full, cols);
      }
      if ok {
        SolveKeeps(p, n, fr, row + 1, full);
        PlacedQueenCol(g, n, fr, row, col, h);
      } else {
        SolveFailureRestores(p, n, fr, row + 1, full);
        UndoPlace(g, n, fr, row, col);
        TryComplete(g, n, fr, row, col + 1, full, cols);
      }
    } else {
      TryComplete(g, n, fr, row, col + 1, full, cols);
    }
  }

  // ---------------------------------------------------------------------
  // What the search decides, in terms of queens that attack each other

  /** Queens at (i, a) and (j, b) share a column or a diagonal. */
  predicate Attacks(i: int, a: int, j: int, b: int)
  {
    a == b || a - b == i - j || a - b == j - i
  }

  /** A solution of the N-Queens puzzle: one queen per row, inside the board, no two attacking. */
  predicate IsPlacement(cols: seq<nat>, n: nat)
  {
    |cols| == n
    && (forall i :: 0 <= i < n ==> cols[i] < n)
    && (forall i, j :: 0 <= i < j < n ==> !Attacks(i, cols[i], j, cols[j]))
  }

  /**
   * The pair of rows i < j is compared by the conflict test: always when
   * every other row is scanned, and otherwise only when the lower row j is
   * not the fixed row (the fixed queen is never the one being placed, so
   * nothing looks from it up to the rows above it).
   */
  predicate Checked(j: nat, fr: nat, full: bool)
  {
    full || j != fr
  }

  /** The placements the search accepts: one queen per row, and no attack between checked pairs. */
  predicate Accepts(cols: seq<nat>, n: nat, fr: nat, full: bool)
  {
    |cols| == n
    && (forall i :: 0 <= i < n ==> cols[i] < n)
    && (forall i, j :: 0 <= i < j < n && Checked(j, fr, full) ==> !Attacks(i, cols[i], j, cols[j]))
  }

  /** Row r is filled once the search has reached `row`: it lies above, or it is the fixed row. */
  predicate Placed(r: nat, row: nat, fr: nat)
  {
    r < row || r == fr
  }

  /** The board of the search at `row` when the queens are taken from `cols`. */
  function Board(n: nat, cols: seq<nat>, row: nat, fr: nat): (g: Grid)
    requires |cols| == n
    ensures IsBoard(g, n)
    ensures forall r, c :: 0 <= r < n && 0 <= c < n ==>
              g[r][c] == if Placed(r, row, fr) && c == cols[r] then 1 else 0
  {
    seq(n, r requires 0 <= r < n => seq(n, c => if Placed(r, row, fr) && c == cols[r] then 1 else 0))
  }

  lemma InitialIsBoard(n: nat, fr: nat, fc: nat, cols: seq<nat>)
    requires fr < n && |cols| == n && cols[fr] == fc
    ensures Initial(n, fr, fc) == Board(n, cols, 0, fr)
  {
    var g, b := Initial(n, fr, fc), Board(n, cols, 0, fr);
    forall r | 0 <= r < n
      ensures g[r] == b[r]
    {
    }
  }

  lemma BoardEmptyFrom(n: nat, cols: seq<nat>, row: nat, fr: nat)
    requires |cols| == n
    ensures EmptyFrom(Board(n, cols, row, fr), n, fr, row)
  {
  }

  /** Placing the queen of row `row` moves the board of the search on to `row + 1`. */
  lemma BoardPlace(n: nat, cols: seq<nat>, row: nat, fr: nat)
    requires |cols| == n && row < n && row != fr && cols[row] < n
    ensures Place(Board(n, cols, row, fr), row, cols[row], 1) == Board(n, cols, row + 1, fr)
  {
    var p, b := Place(Board(n, cols, row, fr), row, cols[row], 1), Board(n, cols, row + 1, fr);
    forall r | 0 <= r < n
      ensures p[r] == b[r]
    {
    }
  }

  lemma BoardSkip(n: nat, cols: seq<nat>, row: nat, fr: nat)
    requires |cols| == n && row == fr
    ensures Board(n, cols, row, fr) == Board(n, cols, row + 1, fr)
  {
    var a, b := Board(n, cols, row, fr), Board(n, cols, row + 1, fr);
    forall r | 0 <= r < n
      ensures a[r] == b[r]
    {
    }
  }

  /** On the board of the search, the conflict test is the absence of attacks from the rows it scans. */
  lemma SafeOnBoard(n: nat, cols: seq<nat>, row: nat, fr: nat, col: nat, full: bool)
    requires |cols| == n && row < n && col < n
    requires forall i :: 0 <= i < n && Placed(i, row, fr) ==> cols[i] < n
    ensures Safe(Board(n, cols, row, fr), n, row, col, full) <==>
            forall i :: 0 <= i < n && Placed(i, row, fr) && (i < row || (full && i > row)) ==>
              !Attacks(i, cols[i], row, col)
  {
    var g := Board(n, cols, row, fr);
    forall i | 0 <= i < n && (i < row || (full && i > row))
      ensures ClearRow(g, n, i, row, col) <==> (Placed(i, row, fr) ==> !Attacks(i, cols[i], row, col))
    {
    }
  }

  /** No attack between checked pairs among the rows already filled. */
  predicate PairwiseOk(cols: seq<nat>, n: nat, row: nat, fr: nat, full: bool)
    requires |cols| == n
  {
    forall i, j :: 0 <= i < j < n && Placed(i, row, fr) && Placed(j, row, fr) && Checked(j, fr, full) ==>
      !Attacks(i, cols[i], j, cols[j])
  }

  /**
   * From the board of the search at `row`, the search accepts `cols` exactly
   * when `cols` is a placement it accepts overall.
   */
  lemma {:induction false} ExtendsOnBoard(n: nat, cols: seq<nat>, row: nat, fr: nat, full: bool)
    requires |cols| == n && fr < n && row <= n
    requires forall i :: 0 <= i < n && Placed(i, row, fr) ==> cols[i] < n
    requires PairwiseOk(cols, n, row, fr, full)
    ensures Extends(Board(n, cols, row, fr), n, fr, row, cols, full) <==> Accepts(cols, n, fr, full)
    decreases n - row
  {
    if row == n {
    } else if row == fr {
      BoardSkip(n, cols, row, fr);
      ExtendsOnBoard(n, cols, row + 1, fr, full);
    } else {
      var c := cols[row];
      if c < n {
        SafeOnBoard(n, cols, row, fr, c, full);
        BoardPlace(n, cols, row, fr);
        if Safe(Board(n, cols, row, fr), n, row, c, full) {
          PairwiseStep(n, cols, row, fr, full);
          ExtendsOnBoard(n, cols, row + 1, fr, full);
        } else {
          AttackRejects(n, cols, row, fr, full);
        }
      }
    }
  }

  /** A safe queen in row `row` keeps the filled rows free of checked attacks. */
  lemma PairwiseStep(n: nat, cols: seq<nat>, row: nat, fr: nat, full: bool)
    requires |cols| == n && row < n && row != fr
    requires PairwiseOk(cols, n, row, fr, full)
    requires forall i :: 0 <= i < n && Placed(i, row, fr) && (i < row || (full && i > row)) ==>
               !Attacks(i, cols[i], row, cols[row])
    ensures PairwiseOk(cols, n, row + 1, fr, full)
  {
    forall i, j | 0 <= i < j < n && Placed(i, row + 1, fr) && Placed(j, row + 1, fr) && Checked(j, fr, full)
      ensures !Attacks(i, cols[i], j, cols[j])
    {
      if j == row {
        assert Placed(i, row, fr) && (i < row || (full && i > row));
      } else if i == row {
        assert Placed(j, row, fr) && full && j > row;
      }
    }
  }

  /** A queen in row `row` attacked from a row the test scans rules the placement out. */
  lemma AttackRejects(n: nat, cols: seq<nat>, row: nat, fr: nat, full: bool)
    requires |cols| == n && row < n && row != fr
    requires exists i :: 0 <= i < n && Placed(i, row, fr) && (i < row || (full && i > row)) &&
               Attacks(i, cols[i], row, cols[row])
    ensures !Accepts(cols, n, fr, full)
  {
    var i :| 0 <= i < n && Placed(i, row, fr) && (i < row || (full && i > row)) && Attacks(i, cols[i], row, cols[row]);
    if i > row {
      assert Checked(i, fr, full) && Attacks(row, cols[row], i, cols[i]);
    }
  }

  /**
   * From the board `main` sets up, the search succeeds exactly when some
   * placement it accepts puts a queen on the fixed square; on success the
   * board holds one queen per row at the columns read off it, that
   * placement is accepted, and it is lexicographically the first one.
   */
  lemma SearchDecides(n: nat, fr: nat, fc: nat, full: bool)
    requires fr < n && fc < n
    ensures var (ok, h) := SolveFrom(Initial(n, fr, fc), n, fr, 0, full);
            (ok <==> exists cols :: Accepts(cols, n, fr, full) && cols[fr] == fc)
            && (ok ==> Accepts(ColumnsOf(h), n, fr, full) && ColumnsOf(h)[fr] == fc
                       && h == Board(n, ColumnsOf(h), n, fr))
            && (ok ==> forall cols :: Accepts(cols, n, fr, full) && cols[fr] == fc ==>
                         LexLeq(ColumnsOf(h), cols, 0, fr))
  {
    var g := Initial(n, fr, fc);
    var (ok, h) := SolveFrom(g, n, fr, 0, full);
    forall cols | Accepts(cols, n, fr, full) && cols[fr] == fc
      ensures ok && LexLeq(ColumnsOf(h), cols, 0, fr)
    {
      InitialIsBoard(n, fr, fc, cols);
      ExtendsOnBoard(n, cols, 0, fr, full);
      BoardEmptyFrom(n, cols, 0, fr);
      SolveComplete(g, n, fr, 0, full, cols);
    }
    if ok {
      SearchFound(n, fr, fc, full);
    }
  }

  /** A successful search from `main`'s board leaves an accepted placement through the fixed square. */
  lemma SearchFound(n: nat, fr: nat, fc: nat, full: bool)
    requires fr < n && fc < n
    requires SolveFrom(Initial(n, fr, fc), n, fr, 0, full).0
    ensures var h := SolveFrom(Initial(n, fr, fc), n, fr, 0, full).1;
            Accepts(ColumnsOf(h), n, fr, full) && ColumnsOf(h)[fr] == fc && h == Board(n, ColumnsOf(h), n, fr)
  {
    var g := Initial(n, fr, fc);
    var h := SolveFrom(g, n, fr, 0, full).1;
    var c := ColumnsOf(h);
    SolveSound(g, n, fr, 0, full);
    SolveKeeps(g, n, fr, 0, full);
    QueenColAt(g[fr], fc);
    InitialIsBoard(n, fr, fc, c);
    ExtendsOnBoard(n, c, 0, fr, full);
    var b := Board(n, c, n, fr);
    forall r | 0 <= r < n
      ensures h[r] == b[r]
    {
    }
  }

  /**
   * With the conflict test scanning every other row, the search is exact for
   * any fixed square: it succeeds iff the puzzle has a solution with a queen
   * there, and then leaves such a solution on the board.
   */
  lemma FullScanSearchIsExact(n: nat, fr: nat, fc: nat)
    requires fr < n && fc < n
    ensures var (ok, h) := SolveFrom(Initial(n, fr, fc), n, fr, 0, true);
            (ok <==> exists cols :: IsPlacement(cols, n) && cols[fr] == fc)
            && (ok ==> IsPlacement(ColumnsOf(h), n) && ColumnsOf(h)[fr] == fc && h == Board(n, ColumnsOf(h), n, fr))
  {
    SearchDecides(n, fr, fc, true);
    forall cols: seq<nat>
      ensures Accepts(cols, n, fr, true) <==> IsPlacement(cols, n)
    {
      FullScanAcceptsPlacements(cols, n, fr);
    }
  }

  /** Scanning every other row, the search accepts exactly the placements. */
  lemma FullScanAcceptsPlacements(cols: seq<nat>, n: nat, fr: nat)
    ensures Accepts(cols, n, fr, true) <==> IsPlacement(cols, n)
  {
  }

  /**
   * The search as written, with the fixed queen in row 0 as `main` places
   * it: `solve(0)` returns true iff the puzzle has a solution with a queen at
   * (0, fc), and then the board holds the lexicographically first one.
   */
  lemma FirstRowSearchIsExact(n: nat, fc: nat)
    requires 0 < n && fc < n
    ensures var (ok, h) := SolveFrom(Initial(n, 0, fc), n, 0, 0, false);
            (ok <==> exists cols :: IsPlacement(cols, n) && cols[0] == fc)
            && (ok ==> IsPlacement(ColumnsOf(h), n) && ColumnsOf(h)[0] == fc && h == Board(n, ColumnsOf(h), n, 0))
            && (ok ==> forall cols :: IsPlacement(cols, n) && cols[0] == fc ==> LexLeq(ColumnsOf(h), cols, 0, 0))
  {
    SearchDecides(n, 0, fc, false);
    forall cols: seq<nat>
      ensures Accepts(cols, n, 0, false) <==> IsPlacement(cols, n)
    {
      FirstRowAcceptsPlacements(cols, n);
    }
  }

  /**
   * Scanning only the rows above, with the fixed queen in row 0, the search
   * still accepts exactly the placements: every pair of rows is checked when
   * its lower row is filled.
   */
  lemma FirstRowAcceptsPlacements(cols: seq<nat>, n: nat)
    ensures Accepts(cols, n, 0, false) <==> IsPlacement(cols, n)
  {
  }

  // ---------------------------------------------------------------------
  // Concrete boards

  /** One placement with its queen at (0, fc) is enough for `solve(0)` to succeed. */
  lemma FirstRowSolvable(n: nat, fc: nat, cols: seq<nat>)
    requires fc < n && IsPlacement(cols, n) && cols[0] == fc
    ensures SolveFrom(Initial(n, 0, fc), n, 0, 0, false).0
  {
    FirstRowSearchIsExact(n, fc);
  }

  /** A 4 x 4 board has no solution with a queen in the corner (0, 0). */
  lemma NoFourQueensFromCorner()
    ensures !SolveFrom(Initial(4, 0, 0), 4, 0, 0, false).0
  {
    FirstRowSearchIsExact(4, 0);
    forall cols | IsPlacement(cols, 4)
      ensures cols[0] != 0
    {
      NoCornerPlacementOfFour(cols);
    }
  }

  lemma NoCornerPlacementOfFour(cols: seq<nat>)
    requires IsPlacement(cols, 4)
    ensures cols[0] != 0
  {
    assert !Attacks(0, cols[0], 1, cols[1]) && !Attacks(0, cols[0], 2, cols[2]) && !Attacks(0, cols[0], 3, cols[3]);
    assert !Attacks(1, cols[1], 2, cols[2]) && !Attacks(1, cols[1], 3, cols[3]) && !Attacks(2, cols[2], 3, cols[3]);
  }

  /** A 4 x 4 board with the queen fixed at (0, 1) is solved, by 1, 3, 0, 2. */
  lemma FourQueensFromSecondColumn()
    ensures SolveFrom(Initial(4, 0, 1), 4, 0, 0, false).0
  {
    FourQueensWitness();
    FirstRowSolvable(4, 1, [1, 3, 0, 2]);
  }

  lemma FourQueensWitness()
    ensures IsPlacement([1, 3, 0, 2], 4)
  {
    var c: seq<nat> := [1, 3, 0, 2];
    forall i, j | 0 <= i < j < 4
      ensures !Attacks(i, c[i], j, c[j])
    {
    }
  }

  /** The board of `main`: 8 x 8 with the queen fixed at (0, 0) is solved (for instance by 0, 4, 7, 5, 2, 6, 1, 3). */
  lemma EightQueensFromCorner()
    ensures SolveFrom(Initial(8, 0, 0), 8, 0, 0, false).0
  {
    EightQueensWitness();
    FirstRowSolvable(8, 0, [0, 4, 7, 5, 2, 6, 1, 3]);
  }

  lemma EightQueensWitness()
    ensures IsPlacement([0, 4, 7, 5, 2, 6, 1, 3], 8)
  {
    var c: seq<nat> := [0, 4, 7, 5, 2, 6, 1, 3];
    forall i, j | 0 <= i < j < 8
      ensures !Attacks(i, c[i], j, c[j])
    {
    }
  }

  /**
   * With the fixed queen below row 0 the test as written lets a queen above
   * it attack it: on 4 x 4 with the queen fixed at (1, 0), `solve(0)` returns
   * true with a second queen at (0, 0), in the same column.
   */
  lemma AsWrittenMissesFixedQueenBelow()
    ensures var (ok, h) := SolveFrom(Initial(4, 1, 0), 4, 1, 0, false);
            ok && h[0][0] == 1 && h[1][0] == 1 && Attacks(0, 0, 1, 0)
  {
    var cols: seq<nat> := [0, 0, 3, 1];
    assert Accepts(cols, 4, 1, false);
    SearchDecides(4, 1, 0, false);
  }

  /** The full scan on the same board finds a true solution, such as 2, 0, 3, 1. */
  lemma FullScanFindsFixedQueenBelow()
    ensures var (ok, h) := SolveFrom(Initial(4, 1, 0), 4, 1, 0, true);
            ok && IsPlacement(ColumnsOf(h), 4) && h[1][0] == 1
  {
    FullScanSearchIsExact(4, 1, 0);
    FixedBelowWitness();
  }

  lemma FixedBelowWitness()
    ensures IsPlacement([2, 0, 3, 1], 4)
  {
    var c: seq<nat> := [2, 0, 3, 1];
    forall i, j | 0 <= i < j < 4
      ensures !Attacks(i, c[i], j, c[j])
    {
    }
  }

  /** `isSafe` reads nothing below `row`: boards that agree above it get the same answer. */
  lemma SafeReadsOnlyAbove(g: Grid, h: Grid, n: nat, row: nat, col: nat)
    requires IsBoard(g, n) && IsBoard(h, n) && row < n && col < n
    requires forall r :: 0 <= r < row ==> g[r] == h[r]
    ensures Safe(g, n, row, col, false) == Safe(h, n, row, col, false)
  {
    forall i | 0 <= i < row
      ensures ClearRow(g, n, i, row, col) == ClearRow(h, n, i, row, col)
    {
      assert g[i] == h[i];
    }
  }

  /**
   * The three scans of `isSafe` reaching the edge of the board without a
   * queen: the column above, the up-left diagonal down to row `a` and the
   * up-right diagonal down to row `b`, which are where the diagonals leave the board.
   */
  lemma ScansMeanSafe(g: Grid, n: nat, row: nat, col: nat, a: int, b: int)
    requires IsBoard(g, n) && row < n && col < n
    requires forall k :: 0 <= k < row ==> g[k][col] != 1
    requires -1 <= a < row && a - (row - col) >= -1 && (a < 0 || a - (row - col) < 0)
    requires forall k :: a < k < row ==> g[k][col - (row - k)] != 1
    requires -1 <= b < row && (row + col) - b <= n && (b < 0 || (row + col) - b >= n)
    requires forall k :: b < k < row ==> g[k][col + (row - k)] != 1
    ensures Safe(g, n, row, col, false)
  {
    forall k | 0 <= k < row
      ensures ClearRow(g, n, k, row, col)
    {
      assert col >= row - k ==> k > a;
      assert col + (row - k) < n ==> k > b;
    }
  }

  // ---------------------------------------------------------------------
  // The program's state and its operations

  /**
   * The static fields of the program: the board size N, the board array and
   * the fixed square.  `main` assigns N, the array and the fixed square once
   * and only the array's cells change afterwards, so they are constants
   * here.  `grid` is a ghost copy of the cells.
   */
  class Solver {
    const n: nat
    const fixedRow: nat
    const fixedCol: nat
    const board: array2<int>
    ghost var grid: Grid

    ghost predicate Valid()
      reads this, board
    {
      board.Length0 == n && board.Length1 == n && fixedRow < n && fixedCol < n
      && IsBoard(grid, n)
      && forall i, j :: 0 <= i < n && 0 <= j < n ==> board[i, j] == grid[i][j]
    }

    /** `main`, lines 64-70: a zeroed N x N board with the first queen put on the fixed square. */
    constructor (size: nat, fr: nat, fc: nat)
      requires fr < size && fc < size
      ensures Valid() && n == size && fixedRow == fr && fixedCol == fc
      ensures grid == Initial(size, fr, fc)
      ensures fresh(board)
    {
      n, fixedRow, fixedCol := size, fr, fc;
      var b := new int[size, size]((_, _) => 0);
      b[fr, fc] := 1;
      board := b;
      grid := Initial(size, fr, fc);
    }

    /**
     * `isSafe(row, col)`: three scans upwards from (row, col), along the
     * column, the up-left diagonal and the up-right diagonal, each stopping at
     * the first queen or at the edge of the board.
     */
    method IsSafe(row: nat, col: nat) returns (safe: bool)
      requires Valid() && row < n && col < n
      ensures safe == Safe(grid, n, row, col, false)
    {
      var i := 0;
      while i < row
        invariant i <= row
        invariant forall k :: 0 <= k < i ==> grid[k][col] != 1
      {
        if board[i, col] == 1 {
          assert !ClearRow(grid, n, i, row, col);
          return false;
        }
        i := i + 1;
      }
      var r: int, c: int := row - 1, col - 1;
      while r >= 0 && c >= 0
        invariant r - c == row - col && -1 <= r < row && -1 <= c
        invariant forall k :: r < k < row ==> grid[k][col - (row - k)] != 1
      {
        if board[r, c] == 1 {
          assert !ClearRow(grid, n, r, row, col);
          return false;
        }
        r, c := r - 1, c - 1;
      }
      ghost var leftEnd := r;
      r, c := row - 1, col + 1;
      while r >= 0 && c < n
        invariant r + c == row + col && -1 <= r < row && c <= n
        invariant forall k :: r < k < row ==> grid[k][col + (row - k)] != 1
      {
        if board[r, c] == 1 {
          assert !ClearRow(grid, n, r, row, col);
          return false;
        }
        r, c := r - 1, c + 1;
      }
      ScansMeanSafe(grid, n, row, col, leftEnd, r);
      return true;
    }

    /**
     * `solve(row)`, proved to return and leave on the board exactly what
     * `SolveFrom` describes.
     */
    method Solve(row: nat) returns (ok: bool)
      requires Valid() && row <= n
      modifies this, board
      ensures Valid()
      ensures ok == SolveFrom(old(grid), n, fixedRow, row, false).0
      ensures grid == SolveFrom(old(grid), n, fixedRow, row, false).1
      decreases n - row, 1
    {
      if row == fixedRow {
        ok := Solve(row + 1);
        return;
      }
      if row == n {
        return true;
      }
      ghost var g0 := grid;
      for col := 0 to n
        invariant Valid()
        invariant TryColumns(grid, n, fixedRow, row, col, false) == TryColumns(g0, n, fixedRow, row, 0, false)
      {
        var safe := IsSafe(row, col);
        if safe {
          board[row, col] := 1;
          grid := Place(grid, row, col, 1);
          var done := Solve(row + 1);
          if done {
            return true;
          }
          board[row, col] := 0;
          grid := Place(grid, row, col, 0);
        }
      }
      return false;
    }
  }

  /**
   * `main` for a board of `size` and the fixed square (fr, fc) (the program
   * uses 8 and (0, 0)): None when setting up the board throws, otherwise
   * what `solve(0)` returns, with the solver whose board it leaves.
   */
  method Run(size: int, fr: int, fc: int) returns (found: Option<bool>, s: Solver?)
    ensures found.None? <==> !(0 <= fr < size && 0 <= fc < size)
    ensures found.Some? ==> s != null && s.Valid() && s.n == size && s.fixedRow == fr && s.fixedCol == fc
    ensures found.Some? ==> found.value == SolveFrom(Initial(size, fr, fc), size, fr, 0, false).0
    ensures found.Some? ==> s.grid == SolveFrom(Initial(size, fr, fc), size, fr, 0, false).1
    ensures found.Some? && fr == 0 ==> (found.value <==> exists cols :: IsPlacement(cols, size) && cols[0] == fc)
    ensures found == Some(true) && fr == 0 ==> IsPlacement(ColumnsOf(s.grid), size) && ColumnsOf(s.grid)[0] == fc
  {
    if !(0 <= fr < size && 0 <= fc < size) {
      return None, null;
    }
    s := new Solver(size, fr, fc);
    var ok := s.Solve(0);
    found := Some(ok);
    if fr == 0 {
      FirstRowSearchIsExact(size, fc);
    }
  }
}
