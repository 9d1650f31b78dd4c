/**
 * The rules of 9x9 Sudoku, stated on an immutable snapshot of the board.
 *
 * A snapshot is a 9x9 sequence of sequences of integers; 0 marks an empty
 * cell. The predicates here are the vocabulary in which the solver's
 * methods (module SudokuSolver) are specified: the row, column and box scans
 * of `isSafe`, the fullness test of `isSudokuSolved`, and what it means for a
 * board to be a valid solution that extends a puzzle.
 */
module SudokuRules {

  /** Side length of the board (SIZE in the solver). */
  const Size := 9

  type Grid = g: seq<seq<int>> | |g| == Size && forall i :: 0 <= i < Size ==> |g[i]| == Size
    witness seq(Size, i => seq(Size, j => 0))

  predicate Digit(v: int) { 1 <= v <= Size }

  /** The board with every cell empty. */
  function Empty(): (g: Grid)
    ensures forall i, j :: 0 <= i < Size && 0 <= j < Size ==> g[i][j] == 0
  {
    seq(Size, i => seq(Size, j => 0))
  }

  /** First row (or column) of the 3x3 box holding row (or column) r, computed as `r - r % 3`. */
  function BoxStart(r: int): (s: int)
    requires 0 <= r < Size
    ensures 0 <= s <= r < s + 3 <= Size
    ensures s % 3 == 0
    ensures forall i :: 0 <= i < Size ==> (s <= i < s + 3 <==> i / 3 == r / 3)
  {
    r - r % 3
  }

  /** Replaces the value of one cell. */
  function Place(g: Grid, r: int, c: int, n: int): (h: Grid)
    requires 0 <= r < Size && 0 <= c < Size
    ensures h[r][c] == n
    ensures forall i, j :: 0 <= i < Size && 0 <= j < Size && (i != r || j != c) ==> h[i][j] == g[i][j]
  {
    g[r := g[r][c := n]]
  }

  // ---------------------------------------------------------------------
  // The three scans of isSafe. Each includes the target cell itself.

  ghost predicate InRow(g: Grid, r: int, n: int)
    requires 0 <= r < Size
  {
    exists x :: 0 <= x < Size && g[r][x] == n
  }

  ghost predicate InCol(g: Grid, c: int, n: int)
    requires 0 <= c < Size
  {
    exists x :: 0 <= x < Size && g[x][c] == n
  }

  ghost predicate InBox(g: Grid, r: int, c: int, n: int)
    requires 0 <= r < Size && 0 <= c < Size
  {
    exists i, j :: BoxStart(r) <= i < BoxStart(r) + 3 && BoxStart(c) <= j < BoxStart(c) + 3 && g[i][j] == n
  }

  /** What `isSafe(board, r, c, n)` reports: n occurs nowhere in the row, the column or the box of (r, c). */
  ghost predicate Safe(g: Grid, r: int, c: int, n: int)
    requires 0 <= r < Size && 0 <= c < Size
  {
    !InRow(g, r, n) && !InCol(g, c, n) && !InBox(g, r, c, n)
  }

  // ---------------------------------------------------------------------
  // Peers and the uniqueness constraint.

  /** Two different cells that share a row, a column or a 3x3 box. */
  predicate Peer(r1: int, c1: int, r2: int, c2: int) {
    (r1 != r2 || c1 != c2) && (r1 == r2 || c1 == c2 || (r1 / 3 == r2 / 3 && c1 / 3 == c2 / 3))
  }

  /** No peer of (r, c) holds n. */
  ghost predicate Absent(g: Grid, r: int, c: int, n: int) {
    forall i, j :: 0 <= i < Size && 0 <= j < Size && Peer(r, c, i, j) ==> g[i][j] != n
  }

  /** The value in (r, c) is repeated by none of its peers. */
  ghost predicate NoClash(g: Grid, r: int, c: int)
    requires 0 <= r < Size && 0 <= c < Size
  {
    Absent(g, r, c, g[r][c])
  }

  /** Every non-empty cell clashes with none of its peers. */
  ghost predicate Consistent(g: Grid) {
    forall r, c :: 0 <= r < Size && 0 <= c < Size && g[r][c] != 0 ==> NoClash(g, r, c)
  }

  /** Every cell holds 0 or a digit. */
  ghost predicate WellFormed(g: Grid) {
    forall r, c :: 0 <= r < Size && 0 <= c < Size ==> 0 <= g[r][c] <= Size
  }

  /** What `isSudokuSolved` reports: no cell is 0. */
  ghost predicate Full(g: Grid) {
    forall r, c :: 0 <= r < Size && 0 <= c < Size ==> g[r][c] != 0
  }

  /** A valid full solution: every cell a digit, no clash anywhere. */
  ghost predicate Solved(g: Grid) {
    (forall r, c :: 0 <= r < Size && 0 <= c < Size ==> Digit(g[r][c])) && Consistent(g)
  }

  /** g agrees with every non-empty cell (every given) of g0. */
  ghost predicate Extends(g0: Grid, g: Grid) {
    forall r, c :: 0 <= r < Size && 0 <= c < Size && g0[r][c] != 0 ==> g[r][c] == g0[r][c]
  }

  /** Some valid full solution keeps every given of g0. */
  ghost predicate HasSolution(g0: Grid) {
    exists s: Grid :: Solved(s) && Extends(g0, s)
  }

  // ---------------------------------------------------------------------
  // Lemmas about isSafe.

  /** isSafe is exactly "n is not in the target cell and no peer holds n". */
  lemma SafeIff(g: Grid, r: int, c: int, n: int)
    requires 0 <= r < Size && 0 <= c < Size
    ensures Safe(g, r, c, n) <==> g[r][c] != n && Absent(g, r, c, n)
  {
    var br, bc := BoxStart(r), BoxStart(c);
    if Safe(g, r, c, n) {
      forall i, j | 0 <= i < Size && 0 <= j < Size && Peer(r, c, i, j) ensures g[i][j] != n {
        if i == r {
          assert !(g[r][j] == n);
        } else if j == c {
          assert !(g[i][c] == n);
        } else {
          assert br <= i < br + 3 && bc <= j < bc + 3;
        }
      }
    }
    if g[r][c] != n && Absent(g, r, c, n) {
      forall x | 0 <= x < Size ensures g[r][x] != n && g[x][c] != n {
        if x != c { assert Peer(r, c, r, x); }
        if x != r { assert Peer(r, c, x, c); }
      }
      forall i, j | br <= i < br + 3 && bc <= j < bc + 3 ensures g[i][j] != n {
        if i != r || j != c { assert Peer(r, c, i, j); }
      }
    }
  }

  /**
   * isSafe never excludes the target cell: asked about the value a cell already
   * holds, it always answers false.
   */
  lemma SafeRejectsOwnValue(g: Grid, r: int, c: int)
    requires 0 <= r < Size && 0 <= c < Size
    ensures !Safe(g, r, c, g[r][c])
  {
  }

  /** On an empty cell, isSafe answers exactly whether a digit could go there without a clash. */
  lemma SafeOnEmptyCell(g: Grid, r: int, c: int, n: int)
    requires 0 <= r < Size && 0 <= c < Size && g[r][c] == 0
    ensures Safe(g, r, c, n) <==> n != 0 && Absent(g, r, c, n)
  {
    SafeIff(g, r, c, n);
  }

  /**
   * The corrected check for a cell that is already filled: scan its peers only.
   * For a filled cell it reports whether the cell's value clashes with nothing.
   */
  ghost predicate SafeIgnoringSelf(g: Grid, r: int, c: int, n: int)
    requires 0 <= r < Size && 0 <= c < Size
  {
    Safe(Place(g, r, c, 0), r, c, n) && n != 0
  }

  /**
   * A filled cell whose digit clashes with nothing is still reported unsafe:
   * a board holding a single 5 in its corner.
   */
  lemma LoneDigitReportedUnsafe()
    ensures var g := Place(Empty(), 0, 0, 5); NoClash(g, 0, 0) && !Safe(g, 0, 0, 5)
  {
    var g := Place(Empty(), 0, 0, 5);
    forall i, j | 0 <= i < Size && 0 <= j < Size && Peer(0, 0, i, j) ensures g[i][j] != 5 {
      assert g[i][j] == 0;
    }
    SafeRejectsOwnValue(g, 0, 0);
  }

  lemma SafeIgnoringSelfIsNoClash(g: Grid, r: int, c: int)
    requires 0 <= r < Size && 0 <= c < Size && g[r][c] != 0
    ensures SafeIgnoringSelf(g, r, c, g[r][c]) <==> NoClash(g, r, c)
  {
    var h := Place(g, r, c, 0);
    SafeOnEmptyCell(h, r, c, g[r][c]);
    assert Absent(h, r, c, g[r][c]) <==> Absent(g, r, c, g[r][c]);
  }

  /** A safe placement into an empty cell keeps a consistent board consistent. */
  lemma PlaceKeepsConsistent(g: Grid, r: int, c: int, n: int)
    requires 0 <= r < Size && 0 <= c < Size && g[r][c] == 0
    requires Consistent(g) && Safe(g, r, c, n)
    ensures Consistent(Place(g, r, c, n))
  {
    SafeOnEmptyCell(g, r, c, n);
    var h := Place(g, r, c, n);
    forall a, b | 0 <= a < Size && 0 <= b < Size && h[a][b] != 0 ensures NoClash(h, a, b) {
      if a == r && b == c {
        assert Absent(h, r, c, n);
      } else {
        assert NoClash(g, a, b);
        if Peer(a, b, r, c) {
          assert Peer(r, c, a, b);
          assert h[r][c] != h[a][b];
        }
      }
    }
  }

  /** A digit of any solution that keeps the givens is a safe choice for an empty cell. */
  lemma SolutionDigitIsSafe(g: Grid, s: Grid, r: int, c: int)
    requires 0 <= r < Size && 0 <= c < Size && g[r][c] == 0
    requires Solved(s) && Extends(g, s)
    ensures Safe(g, r, c, s[r][c])
  {
    assert NoClash(s, r, c);
    SafeOnEmptyCell(g, r, c, s[r][c]);
  }

  /** A digit that isSafe rejects for an empty cell leads to no solution. */
  lemma UnsafeDigitHasNoSolution(g: Grid, r: int, c: int, n: int)
    requires 0 <= r < Size && 0 <= c < Size && g[r][c] == 0 && Digit(n)
    requires !Safe(g, r, c, n)
    ensures !HasSolution(Place(g, r, c, n))
  {
    if HasSolution(Place(g, r, c, n)) {
      var s: Grid :| Solved(s) && Extends(Place(g, r, c, n), s);
      assert Extends(g, s);
      SolutionDigitIsSafe(g, s, r, c);
      assert false;
    }
  }

  /**
   * An empty cell splits the search: the board has a solution exactly when
   * some digit placed there leaves a board that still has one.
   */
  lemma SolutionSplits(g: Grid, r: int, c: int)
    requires 0 <= r < Size && 0 <= c < Size && g[r][c] == 0
    ensures HasSolution(g) <==> exists n :: 1 <= n <= Size && HasSolution(Place(g, r, c, n))
  {
    if HasSolution(g) {
      var s: Grid :| Solved(s) && Extends(g, s);
      assert Extends(Place(g, r, c, s[r][c]), s);
    }
    if n :| 1 <= n <= Size && HasSolution(Place(g, r, c, n)) {
      var s: Grid :| Solved(s) && Extends(Place(g, r, c, n), s);
      assert Extends(g, s);
    }
  }

  // ---------------------------------------------------------------------
  // Lemmas about fullness and solutions.

  /** isSudokuSolved does not check uniqueness: a board of nothing but 1s is full but not consistent. */
  lemma FullDoesNotMeanSolved()
    ensures exists g: Grid :: Full(g) && !Consistent(g)
  {
    var g: Grid := seq(Size, i => seq(Size, j => 1));
    assert Peer(0, 0, 0, 1);
    assert !NoClash(g, 0, 0);
    assert Full(g) && !Consistent(g);
  }

  /**
   * A board that keeps consistent givens and fills every empty cell with a digit
   * that clashes with no peer is a valid full solution.
   */
  lemma CompletionIsSolution(g0: Grid, g: Grid)
    requires WellFormed(g0) && Consistent(g0) && Extends(g0, g)
    requires forall r, c :: 0 <= r < Size && 0 <= c < Size && g0[r][c] == 0 ==> Digit(g[r][c]) && NoClash(g, r, c)
    ensures Solved(g) && Full(g)
  {
    forall r, c | 0 <= r < Size && 0 <= c < Size && g[r][c] != 0 ensures NoClash(g, r, c) {
      if g0[r][c] != 0 {
        forall i, j | 0 <= i < Size && 0 <= j < Size && Peer(r, c, i, j) ensures g[i][j] != g[r][c] {
          assert NoClash(g0, r, c);
          if g0[i][j] == 0 {
            assert NoClash(g, i, j);
            assert Peer(i, j, r, c);
          }
        }
      }
    }
  }

  // ---------------------------------------------------------------------
  // A valid solution holds every digit once in each row, column and box.

  ghost predicate Distinct(s: seq<int>) {
    forall i, j :: 0 <= i < j < |s| ==> s[i] != s[j]
  }

  /** Distinct values drawn from a finite set are no more numerous than the set. */
  lemma {:induction false} DistinctWithin(s: seq<int>, a: set<int>)
    requires Distinct(s) && forall i :: 0 <= i < |s| ==> s[i] in a
    ensures |s| <= |a|
  {
    if s != [] {
      var t := s[1..];
      forall i | 0 <= i < |t| ensures t[i] in a - {s[0]} {
        assert t[i] == s[i + 1];
      }
      DistinctWithin(t, a - {s[0]});
    }
  }

  /** Nine distinct digits include every digit. */
  lemma NineDistinctDigits(s: seq<int>, d: int)
    requires |s| == Size && Distinct(s) && forall i :: 0 <= i < |s| ==> Digit(s[i])
    requires Digit(d)
    ensures exists i :: 0 <= i < |s| && s[i] == d
  {
    var digits: set<int> := {1, 2, 3, 4, 5, 6, 7, 8, 9};
    if forall i :: 0 <= i < |s| ==> s[i] != d {
      assert |digits - {d}| == 8;
      DistinctWithin(s, digits - {d});
      assert false;
    }
  }

  /** Each row of a valid solution contains every digit. */
  lemma SolvedRowHoldsEveryDigit(g: Grid, r: int, d: int)
    requires 0 <= r < Size && Digit(d) && Solved(g)
    ensures InRow(g, r, d)
  {
    var row := g[r];
    forall i, j | 0 <= i < j < Size ensures row[i] != row[j] {
      assert NoClash(g, r, i) && Peer(r, i, r, j);
    }
    NineDistinctDigits(row, d);
  }

  /** Each column of a valid solution contains every digit. */
  lemma SolvedColHoldsEveryDigit(g: Grid, c: int, d: int)
    requires 0 <= c < Size && Digit(d) && Solved(g)
    ensures InCol(g, c, d)
  {
    var col := seq(Size, i requires 0 <= i < Size => g[i][c]);
    forall i, j | 0 <= i < j < Size ensures col[i] != col[j] {
      assert NoClash(g, i, c) && Peer(i, c, j, c);
    }
    NineDistinctDigits(col, d);
    var x :| 0 <= x < Size && col[x] == d;
    assert g[x][c] == d;
  }

  /** The nine cells of the box holding (r, c), in row-major order. */
  function BoxCells(g: Grid, r: int, c: int): (box: seq<int>)
    requires 0 <= r < Size && 0 <= c < Size
    ensures |box| == Size
    ensures forall k :: 0 <= k < Size ==> box[k] == g[BoxStart(r) + k / 3][BoxStart(c) + k % 3]
  {
    seq(Size, k requires 0 <= k < Size => g[BoxStart(r) + k / 3][BoxStart(c) + k % 3])
  }

  lemma SolvedBoxDistinct(g: Grid, r: int, c: int)
    requires 0 <= r < Size && 0 <= c < Size && Solved(g)
    ensures Distinct(BoxCells(g, r, c))
  {
    var box, br, bc := BoxCells(g, r, c), BoxStart(r), BoxStart(c);
    forall i, j | 0 <= i < j < Size ensures box[i] != box[j] {
      var ri, ci, rj, cj := br + i / 3, bc + i % 3, br + j / 3, bc + j % 3;
      assert ri != rj || ci != cj;
      assert ri / 3 == r / 3 && rj / 3 == r / 3 && ci / 3 == c / 3 && cj / 3 == c / 3;
      assert Peer(ri, ci, rj, cj);
      assert NoClash(g, ri, ci);
    }
  }

  /** Each 3x3 box of a valid solution contains every digit. */
  lemma SolvedBoxHoldsEveryDigit(g: Grid, r: int, c: int, d: int)
    requires 0 <= r < Size && 0 <= c < Size && Digit(d) && Solved(g)
    ensures InBox(g, r, c, d)
  {
    var box := BoxCells(g, r, c);
    SolvedBoxDistinct(g, r, c);
    NineDistinctDigits(box, d);
    var k :| 0 <= k < Size && box[k] == d;
    assert g[BoxStart(r) + k / 3][BoxStart(c) + k % 3] == d;
  }
}
