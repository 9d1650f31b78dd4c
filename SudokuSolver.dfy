/**
 * The backtracking solver of SudokuSolver.java, working in place on a 9x9
 * board. The GUI callback and the per-step delay that follow every placement
 * and every undo are left out: they read the board but never write to it.
 *
 * Every method is specified against SudokuRules through Cells, the snapshot
 * of the board's current contents.
 */
module SudokuSolver {
  import opened SudokuRules

  /** The current contents of the board, as a value. */
  ghost function Cells(board: array2<int>): (g: Grid)
    requires board.Length0 == Size && board.Length1 == Size
    reads board
    ensures forall i, j :: 0 <= i < Size && 0 <= j < Size ==> g[i][j] == board[i, j]
  {
    seq(Size, i requires 0 <= i < Size reads board =>
      seq(Size, j requires 0 <= j < Size reads board => board[i, j]))
  }

  /** Position of (row, col) in the row-major visiting order of the search. */
  function Index(row: int, col: int): (k: int)
    ensures 0 <= row < Size && 0 <= col < Size ==> 0 <= k < Size * Size
  {
    Size * row + col
  }

  /** The cells visited before position k are the same in g0 and g. */
  ghost predicate SameBefore(g0: Grid, g: Grid, k: int) {
    forall i, j :: 0 <= i < Size && 0 <= j < Size && Size * i + j < k ==> g[i][j] == g0[i][j]
  }

  /**
   * From position k on, g leaves no cell empty, and every cell empty in g0
   * now holds a digit that no peer repeats.
   */
  ghost predicate FilledFrom(g0: Grid, g: Grid, k: int) {
    forall i, j :: 0 <= i < Size && 0 <= j < Size && k <= Size * i + j ==>
      g[i][j] != 0 && (g0[i][j] == 0 ==> Digit(g[i][j]) && NoClash(g, i, j))
  }

  /** No cell is empty from position k on. */
  ghost predicate FullFrom(g: Grid, k: int) {
    forall i, j :: 0 <= i < Size && 0 <= j < Size && k <= Size * i + j ==> g[i][j] != 0
  }

  /**
   * What a search started at position k on board g0 promises about the board g
   * it leaves and its answer: the cells before k are untouched; no given
   * changes; a failure restores g0 exactly; a success fills every cell from k
   * on; a board already full from k on succeeds; and a failure means no valid
   * solution keeps the givens of g0.
   */
  ghost predicate Outcome(g0: Grid, g: Grid, k: int, solved: bool) {
    && SameBefore(g0, g, k)
    && Extends(g0, g)
    && (!solved ==> g == g0)
    && (solved ==> FilledFrom(g0, g, k))
    && (FullFrom(g0, k) ==> solved)
    && (!solved ==> !HasSolution(g0))
  }

  /**
   * `isSafe`: scans the whole row and column of (row, col), then its 3x3 box,
   * for num, returning on the first hit. The target cell is scanned too.
   */
  method IsSafe(board: array2<int>, row: int, col: int, num: int) returns (safe: bool)
    requires board.Length0 == Size && board.Length1 == Size
    requires 0 <= row < Size && 0 <= col < Size
    ensures safe == Safe(Cells(board), row, col, num)
  {
    for x := 0 to Size
      invariant forall y :: 0 <= y < x ==> board[row, y] != num && board[y, col] != num
    {
      if board[row, x] == num || board[x, col] == num {
        assert Cells(board)[row][x] == num || Cells(board)[x][col] == num;
        return false;
      }
    }
    var boxRowStart := row - row % 3;
    var boxColStart := col - col % 3;
    for i := boxRowStart to boxRowStart + 3
      invariant forall a, b :: boxRowStart <= a < i && boxColStart <= b < boxColStart + 3 ==> board[a, b] != num
    {
      for j := boxColStart to boxColStart + 3
        invariant forall b :: boxColStart <= b < j ==> board[i, b] != num
      {
        if board[i, j] == num {
          assert Cells(board)[i][j] == num;
          return false;
        }
      }
    }
    assert !InBox(Cells(board), row, col, num);
    return true;
  }

  /** `isSudokuSolved`: true exactly when no cell is 0; the digits are not checked against each other. */
  method IsSudokuSolved(board: array2<int>) returns (solved: bool)
    requires board.Length0 == Size && board.Length1 == Size
    ensures solved == Full(Cells(board))
  {
    for row := 0 to Size
      invariant forall i, j :: 0 <= i < row && 0 <= j < Size ==> board[i, j] != 0
    {
      for col := 0 to Size
        invariant forall j :: 0 <= j < col ==> board[row, j] != 0
      {
        if board[row, col] == 0 {
          assert Cells(board)[row][col] == 0;
          return false;
        }
      }
    }
    return true;
  }

  /**
   * `solveSudoku`: runs the search from the first cell. Givens are never
   * changed; a failed search leaves the board as it was; a successful one
   * fills every empty cell with a digit that clashes with no other cell, and
   * the search fails only when no solution keeps the givens. When the givens
   * are well formed and consistent, success means a valid solution.
   */
  method SolveSudoku(board: array2<int>) returns (solved: bool)
    requires board.Length0 == Size && board.Length1 == Size
    modifies board
    ensures Extends(old(Cells(board)), Cells(board))
    ensures !solved ==> forall i, j :: 0 <= i < Size && 0 <= j < Size ==> board[i, j] == old(board[i, j])
    ensures solved ==> Full(Cells(board))
    ensures solved ==> forall i, j :: 0 <= i < Size && 0 <= j < Size && old(board[i, j]) == 0 ==>
      Digit(board[i, j]) && NoClash(Cells(board), i, j)
    ensures !solved ==> !HasSolution(old(Cells(board)))
    ensures Full(old(Cells(board))) ==> solved
    ensures WellFormed(old(Cells(board))) && Consistent(old(Cells(board))) ==>
      (solved <==> HasSolution(old(Cells(board)))) && (solved ==> Solved(Cells(board)))
  {
    ghost var g0 := Cells(board);
    solved := SolveSudokuRecursive(board, 0, 0);
    ghost var g := Cells(board);
    if solved {
      assert FilledFrom(g0, g, Index(0, 0));
      if WellFormed(g0) && Consistent(g0) {
        CompletionIsSolution(g0, g);
      }
    }
  }

  /**
   * `solveSudokuRecursive`: depth-first search from (row, col) in row-major
   * order. A given is skipped; an empty cell tries 1..9 in ascending order,
   * writing each safe digit and recursing, keeping the first success and
   * resetting the cell to 0 after each failed branch.
   */
  method SolveSudokuRecursive(board: array2<int>, row: int, col: int) returns (solved: bool)
    requires board.Length0 == Size && board.Length1 == Size
    requires 0 <= row <= Size && 0 <= col < Size
    modifies board
    decreases Size * Size - Index(row, col)
    ensures Outcome(old(Cells(board)), Cells(board), Index(row, col), solved)
  {
    if row == Size {
      return true;
    }
    var nextRow := if col == Size - 1 then row + 1 else row;
    var nextCol := if col == Size - 1 then 0 else col + 1;
    assert Index(nextRow, nextCol) == Index(row, col) + 1;
    ghost var g0 := Cells(board);

    if board[row, col] != 0 {
      solved := SolveSudokuRecursive(board, nextRow, nextCol);
      SkipGiven(g0, Cells(board), row, col, solved);
      return;
    }

    for num := 1 to Size + 1
      invariant Cells(board) == g0
      invariant forall n :: 1 <= n < num ==> !HasSolution(Place(g0, row, col, n))
    {
      var safe := IsSafe(board, row, col, num);
      if safe {
        board[row, col] := num;
        SameGrid(Cells(board), Place(g0, row, col, num));
        solved := SolveSudokuRecursive(board, nextRow, nextCol);
        if solved {
          PlacementFills(g0, Cells(board), row, col, num);
          return;
        }
        board[row, col] := 0;
        SameGrid(Cells(board), g0);
      } else {
        UnsafeDigitHasNoSolution(g0, row, col, num);
      }
    }
    SolutionSplits(g0, row, col);
    return false;
  }

  /** Two snapshots that agree on every cell are equal. */
  lemma SameGrid(g: Grid, h: Grid)
    requires forall i, j :: 0 <= i < Size && 0 <= j < Size ==> g[i][j] == h[i][j]
    ensures g == h
  {
    forall i | 0 <= i < Size ensures g[i] == h[i] {
      assert forall j :: 0 <= j < Size ==> g[i][j] == h[i][j];
    }
  }

  /** Skipping a given at position k: what the search from k + 1 promises holds from k. */
  lemma SkipGiven(g0: Grid, g: Grid, row: int, col: int, solved: bool)
    requires 0 <= row < Size && 0 <= col < Size && g0[row][col] != 0
    requires SameBefore(g0, g, Index(row, col) + 1) && Extends(g0, g)
    requires solved ==> FilledFrom(g0, g, Index(row, col) + 1)
    requires FullFrom(g0, Index(row, col) + 1) ==> solved
    ensures SameBefore(g0, g, Index(row, col))
    ensures solved ==> FilledFrom(g0, g, Index(row, col))
    ensures FullFrom(g0, Index(row, col)) ==> solved
  {
  }

  /**
   * One step of the search: a safe digit placed in the empty cell at position
   * k, followed by a successful search from k + 1, fills everything from k.
   */
  lemma PlacementFills(g0: Grid, g: Grid, row: int, col: int, num: int)
    requires 0 <= row < Size && 0 <= col < Size && g0[row][col] == 0
    requires Safe(g0, row, col, num) && 1 <= num <= Size
    requires SameBefore(Place(g0, row, col, num), g, Index(row, col) + 1)
    requires Extends(Place(g0, row, col, num), g)
    requires FilledFrom(Place(g0, row, col, num), g, Index(row, col) + 1)
    ensures SameBefore(g0, g, Index(row, col)) && Extends(g0, g)
    ensures FilledFrom(g0, g, Index(row, col))
  {
    SafeOnEmptyCell(g0, row, col, num);
    var g1 := Place(g0, row, col, num);
    assert g[row][col] == num;
    forall a, b | 0 <= a < Size && 0 <= b < Size && Peer(row, col, a, b) ensures g[a][b] != num {
      if g0[a][b] != 0 {
        assert g[a][b] == g1[a][b] == g0[a][b];
      } else if Index(a, b) < Index(row, col) {
        assert g[a][b] == g1[a][b] == 0;
      } else {
        assert Index(a, b) != Index(row, col);
        assert g1[a][b] == 0;
        assert NoClash(g, a, b) && Peer(a, b, row, col);
      }
    }
    assert NoClash(g, row, col);
  }

}
