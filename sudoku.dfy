/**
 * The sudoku page: a 9x9 board of one-character strings ("" for a blank),
 * a backtracking solver that fills a copy of the puzzle in place, cell
 * editing with input filtering, and the completion check against the
 * solver's answer.
 */
module Sudoku {
  import Text
  import Grids

  /** A value view of a `string[][]` board: nine rows of nine cells. */
  type Board = seq<seq<string>>

  predicate IsBoard(g: Board)
  {
    Grids.IsGrid(g, 9, 9)
  }

  predicate InRange(r: int, c: int)
  {
    0 <= r < 9 && 0 <= c < 9
  }

  /** The empty board of `generateEmptyBoard`. */
  const EmptyBoard: Board := seq(9, _ => seq(9, _ => ""))

  /** The static puzzle that `generatePuzzle` loads. */
  const Puzzle: Board := [
    ["5", "3", "", "", "7", "", "", "", ""],
    ["6", "", "", "1", "9", "5", "", "", ""],
    ["", "9", "8", "", "", "", "", "6", ""],
    ["8", "", "", "", "6", "", "", "", "3"],
    ["4", "", "", "8", "", "3", "", "", "1"],
    ["7", "", "", "", "2", "", "", "", "6"],
    ["", "6", "", "", "", "", "2", "8", ""],
    ["", "", "", "4", "1", "9", "", "", "5"],
    ["", "", "", "", "8", "", "", "7", "9"]
  ]

  /** One of "1".."9", the values the solver may write. */
  predicate IsDigit(v: string)
  {
    |v| == 1 && '1' <= v[0] <= '9'
  }

  /** Two cells share a row, a column or a 3x3 box. */
  predicate SameUnit(r1: int, c1: int, r2: int, c2: int)
  {
    r1 == r2 || c1 == c2 || (r1 / 3 == r2 / 3 && c1 / 3 == c2 / 3)
  }

  /** No cell in the row, column or box of (r, c) holds `v`. */
  predicate NoConflict(g: Board, r: int, c: int, v: string)
    requires IsBoard(g)
  {
    forall r2, c2 :: 0 <= r2 < 9 && 0 <= c2 < 9 && SameUnit(r, c, r2, c2) ==> g[r2][c2] != v
  }

  /** No value appears twice in any row, column or box. */
  predicate Consistent(g: Board)
    requires IsBoard(g)
  {
    forall r1, c1, r2, c2 ::
      0 <= r1 < 9 && 0 <= c1 < 9 && 0 <= r2 < 9 && 0 <= c2 < 9 && (r1 != r2 || c1 != c2) &&
      SameUnit(r1, c1, r2, c2) && g[r1][c1] != "" ==>
        g[r1][c1] != g[r2][c2]
  }

  /** No blank cell remains. */
  predicate Filled(g: Board)
    requires IsBoard(g)
  {
    forall r, c :: 0 <= r < 9 && 0 <= c < 9 ==> g[r][c] != ""
  }

  /** `h` keeps every given of `g` and holds only blanks or digits elsewhere. */
  predicate Extends(g: Board, h: Board)
    requires IsBoard(g) && IsBoard(h)
  {
    forall r, c :: 0 <= r < 9 && 0 <= c < 9 ==>
      if g[r][c] != "" then h[r][c] == g[r][c] else h[r][c] == "" || IsDigit(h[r][c])
  }

  /** The coordinates of the blank cells. */
  ghost function Blanks(g: Board): set<(int, int)>
    requires IsBoard(g)
  {
    set r, c | 0 <= r < 9 && 0 <= c < 9 && g[r][c] == "" :: (r, c)
  }

  ghost predicate Is9x9(a: array2<string>)
  {
    a.Length0 == 9 && a.Length1 == 9
  }

  lemma SameUnitSymmetric(r1: int, c1: int, r2: int, c2: int)
    ensures SameUnit(r1, c1, r2, c2) == SameUnit(r2, c2, r1, c1)
  {
  }

  /** Writing a non-conflicting value into a blank cell keeps a board consistent. */
  lemma PlaceKeepsConsistent(g: Board, r: int, c: int, v: string)
    requires IsBoard(g) && InRange(r, c) && Consistent(g)
    requires g[r][c] == "" && v != "" && NoConflict(g, r, c, v)
    ensures Consistent(Grids.Update(g, r, c, v))
  {
    var h := Grids.Update(g, r, c, v);
    forall r1, c1, r2, c2 |
      InRange(r1, c1) && InRange(r2, c2) && (r1 != r2 || c1 != c2) &&
      SameUnit(r1, c1, r2, c2) && h[r1][c1] != ""
      ensures h[r1][c1] != h[r2][c2]
    {
      if r1 == r && c1 == c {
        assert g[r2][c2] != v;
      } else if r2 == r && c2 == c {
        SameUnitSymmetric(r1, c1, r2, c2);
        assert g[r1][c1] != v;
      } else {
        assert h[r1][c1] == g[r1][c1] && h[r2][c2] == g[r2][c2];
      }
    }
  }

  /** Filling a blank removes exactly that cell from the blanks. */
  lemma PlaceShrinksBlanks(g: Board, r: int, c: int, v: string)
    requires IsBoard(g) && InRange(r, c) && g[r][c] == "" && v != ""
    ensures Blanks(Grids.Update(g, r, c, v)) == Blanks(g) - {(r, c)}
    ensures |Blanks(Grids.Update(g, r, c, v))| < |Blanks(g)|
  {
    assert (r, c) in Blanks(g);
  }

  /** The i-th cell (0..8) of the box containing (r, c), as `isValid` walks it. */
  function BoxRow(r: int, i: int): int { 3 * (r / 3) + i / 3 }
  function BoxCol(c: int, i: int): int { 3 * (c / 3) + i % 3 }

  /** Step i (0..8) of `isValid` finds `val` neither in its row cell, nor its column cell, nor its box cell. */
  predicate StepClear(g: Board, r: int, c: int, i: int, val: string)
    requires IsBoard(g) && InRange(r, c) && 0 <= i < 9
  {
    g[r][i] != val && g[i][c] != val && g[BoxRow(r, i)][BoxCol(c, i)] != val
  }

  /** Step i (0..8) of `isValid` looks at a cell of the box of (r, c). */
  lemma BoxStepInUnit(r: int, c: int, i: int)
    requires InRange(r, c) && 0 <= i < 9
    ensures InRange(BoxRow(r, i), BoxCol(c, i)) && SameUnit(r, c, BoxRow(r, i), BoxCol(c, i))
  {
  }

  /** The nine steps of `isValid` together cover every cell sharing a unit with (r, c). */
  lemma StepsCoverUnits(g: Board, r: int, c: int, val: string)
    requires IsBoard(g) && InRange(r, c)
    requires forall i :: 0 <= i < 9 ==> StepClear(g, r, c, i, val)
    ensures NoConflict(g, r, c, val)
  {
    forall r2, c2 | 0 <= r2 < 9 && 0 <= c2 < 9 && SameUnit(r, c, r2, c2)
      ensures g[r2][c2] != val
    {
      if r2 == r {
        assert StepClear(g, r, c, c2, val);
      } else if c2 == c {
        assert StepClear(g, r, c, r2, val);
      } else {
        var i := 3 * (r2 % 3) + c2 % 3;
        assert BoxRow(r, i) == r2 && BoxCol(c, i) == c2;
        assert StepClear(g, r, c, i, val);
      }
    }
  }

  /**
   * `isValid(r, c, val)`: false exactly when `val` already stands in the row,
   * the column or the 3x3 box of (r, c).
   */
  method IsValid(grid: array2<string>, r: int, c: int, val: string) returns (ok: bool)
    requires Is9x9(grid) && InRange(r, c)
    ensures ok <==> NoConflict(Grids.Snapshot(grid), r, c, val)
  {
    ghost var g := Grids.Snapshot(grid);
    for i := 0 to 9
      invariant forall j :: 0 <= j < i ==> StepClear(g, r, c, j, val)
    {
      if grid[r, i] == val || grid[i, c] == val {
        assert g[r][i] == val || g[i][c] == val;
        return false;
      }
      var boxRow := BoxRow(r, i);
      var boxCol := BoxCol(c, i);
      if grid[boxRow, boxCol] == val {
        BoxStepInUnit(r, c, i);
        assert g[boxRow][boxCol] == val;
        return false;
      }
      assert StepClear(g, r, c, i, val);
    }
    StepsCoverUnits(g, r, c, val);
    return true;
  }

  lemma ExtendsReflexive(g: Board)
    requires IsBoard(g)
    ensures Extends(g, g)
  {
  }

  lemma ExtendsTransitive(g: Board, h: Board, k: Board)
    requires IsBoard(g) && IsBoard(h) && IsBoard(k)
    requires Extends(g, h) && Extends(h, k)
    ensures Extends(g, k)
  {
  }

  /**
   * What a successful tentative write contributes to `solve`'s result: the
   * final board extends the entry board and inherits its consistency.
   */
  lemma TentativeWriteSucceeds(start: Board, r: int, c: int, val: string, final: Board)
    requires IsBoard(start) && IsBoard(final) && InRange(r, c)
    requires start[r][c] == "" && IsDigit(val) && NoConflict(start, r, c, val)
    requires Extends(Grids.Update(start, r, c, val), final)
    requires Consistent(Grids.Update(start, r, c, val)) ==> Consistent(final)
    ensures Extends(start, final)
    ensures Consistent(start) ==> Consistent(final)
  {
    var placed := Grids.Update(start, r, c, val);
    assert Extends(start, placed);
    ExtendsTransitive(start, placed, final);
    if Consistent(start) {
      PlaceKeepsConsistent(start, r, c, val);
    }
  }

  /** Resetting a tentative write to "" gives back the board it was made on. */
  lemma PlaceUndone(g: Board, r: int, c: int, v: string)
    requires IsBoard(g) && InRange(r, c) && g[r][c] == ""
    ensures Grids.Update(Grids.Update(g, r, c, v), r, c, "") == g
  {
    assert Grids.Update(Grids.Update(g, r, c, v), r, c, "")[r] == g[r];
  }

  /** `String(n)` for the candidates 1..9 of `solve`. */
  lemma CandidateIsDigit(n: int)
    requires 1 <= n <= 9
    ensures IsDigit(Text.NatToString(n))
  {
  }

  /**
   * `solve()`: finds the first blank cell in row-major order, tries "1".."9"
   * there, recurses after each write that `isValid` admits and resets the cell
   * to "" when the recursion fails. A board without blanks is solved.
   */
  method Solve(grid: array2<string>) returns (solved: bool)
    requires Is9x9(grid)
    modifies grid
    ensures solved ==> Filled(Grids.Snapshot(grid))
    ensures !solved ==> Grids.Snapshot(grid) == old(Grids.Snapshot(grid))
    ensures Extends(old(Grids.Snapshot(grid)), Grids.Snapshot(grid))
    ensures Consistent(old(Grids.Snapshot(grid))) ==> Consistent(Grids.Snapshot(grid))
    decreases |Blanks(Grids.Snapshot(grid))|
  {
    ghost var start := Grids.Snapshot(grid);
    for r := 0 to 9
      invariant Grids.Snapshot(grid) == start
      invariant forall r1, c1 :: 0 <= r1 < r && 0 <= c1 < 9 ==> start[r1][c1] != ""
    {
      for c := 0 to 9
        invariant Grids.Snapshot(grid) == start
        invariant forall r1, c1 :: 0 <= r1 < r && 0 <= c1 < 9 ==> start[r1][c1] != ""
        invariant forall c1 :: 0 <= c1 < c ==> start[r][c1] != ""
      {
        if grid[r, c] == "" {
          for n := 1 to 10
            invariant Grids.Snapshot(grid) == start
          {
            var val := Text.NatToString(n);
            CandidateIsDigit(n);
            var ok := IsValid(grid, r, c, val);
            if ok {
              Grids.Write(grid, r, c, val);
              PlaceShrinksBlanks(start, r, c, val);
              var rest := Solve(grid);
              if rest {
                TentativeWriteSucceeds(start, r, c, val, Grids.Snapshot(grid));
                return true;
              }
              Grids.Write(grid, r, c, "");
              PlaceUndone(start, r, c, val);
            }
          }
          ExtendsReflexive(start);
          return false;
        }
      }
    }
    ExtendsReflexive(start);
    return true;
  }

  /** A fresh in-place grid holding `g`, as `puzzle.map((r) => [...r])` copies it. */
  method ToGrid(g: Board) returns (grid: array2<string>)
    requires IsBoard(g)
    ensures fresh(grid) && Is9x9(grid) && Grids.Snapshot(grid) == g
  {
    grid := new string[9, 9]((r, c) requires 0 <= r < 9 && 0 <= c < 9 => g[r][c]);
    Grids.Equal(Grids.Snapshot(grid), g, 9, 9);
  }

  /**
   * `solveSudoku`: solves a copy of `puzzle` and returns the copy whatever
   * `solve()` answered. The result keeps the givens, is either the puzzle
   * itself or has no blank left, and has no duplicate in any row, column or
   * box when the puzzle had none.
   */
  method SolveSudoku(puzzle: Board) returns (result: Board)
    requires IsBoard(puzzle)
    ensures IsBoard(result) && Extends(puzzle, result)
    ensures Filled(result) || result == puzzle
    ensures Consistent(puzzle) ==> Consistent(result)
  {
    var grid := ToGrid(puzzle);
    var _ := Solve(grid);
    result := Grids.Snapshot(grid);
  }

  /** The input filter of `handleCellChange`: a string containing a digit 1-9, or "". */
  predicate AcceptsInput(value: string)
  {
    value == "" || exists i :: 0 <= i < |value| && '1' <= value[i] <= '9'
  }

  /**
   * The filter tests whether the value contains a digit 1-9 somewhere; on the
   * one-character values a cell admits that is the same as being "" or one of
   * "1".."9", while a longer value such as "a5" would also pass.
   */
  lemma InputFilterOnOneChar(value: string)
    requires |value| <= 1
    ensures AcceptsInput(value) <==> value == "" || IsDigit(value)
    ensures AcceptsInput("a5") && !IsDigit("a5")
  {
    assert "a5"[1] == '5';
  }

  /** `isInitial`: the solution has a value here and the board shows that value. */
  predicate IsInitial(board: Board, solution: Board, row: int, col: int)
    requires IsBoard(board) && IsBoard(solution) && InRange(row, col)
  {
    solution[row][col] != "" && board[row][col] == solution[row][col]
  }

  /**
   * On a freshly generated page (the board is the puzzle, the solution is what
   * `solveSudoku` returned for it) the initial cells are exactly the givens.
   */
  lemma InitialCellsAreGivens(puzzle: Board, solution: Board)
    requires IsBoard(puzzle) && IsBoard(solution) && Extends(puzzle, solution)
    ensures forall r, c :: 0 <= r < 9 && 0 <= c < 9 ==>
      (IsInitial(puzzle, solution, r, c) <==> puzzle[r][c] != "")
  {
  }

  /**
   * A blank cell into which the player types the solution's value counts as
   * initial from then on, although it was not a given.
   */
  lemma TypedAnswerIsInitial(board: Board, solution: Board, r: int, c: int)
    requires IsBoard(board) && IsBoard(solution) && InRange(r, c)
    requires board[r][c] == "" && IsDigit(solution[r][c])
    ensures !IsInitial(board, solution, r, c)
    ensures AcceptsInput(solution[r][c])
    ensures IsInitial(Grids.Update(board, r, c, solution[r][c]), solution, r, c)
  {
    assert '1' <= solution[r][c][0] <= '9';
  }

  /** The page state: the board shown, the solver's answer and the completion flag. */
  class SudokuPage {
    var board: Board
    var solution: Board
    var isComplete: bool

    ghost predicate Valid()
      reads this
    {
      IsBoard(board) && IsBoard(solution)
    }

    /** The state on mount, before `generatePuzzle` runs. */
    constructor ()
      ensures Valid() && board == EmptyBoard && solution == EmptyBoard && !isComplete
    {
      board := EmptyBoard;
      solution := EmptyBoard;
      isComplete := false;
    }

    /** `generatePuzzle`: loads the static puzzle and stores its solution. */
    method GeneratePuzzle()
      modifies this
      ensures Valid() && board == Puzzle && !isComplete
      ensures Extends(Puzzle, solution) && (Filled(solution) || solution == Puzzle)
      ensures Consistent(Puzzle) ==> Consistent(solution)
    {
      var solved := SolveSudoku(Puzzle);
      board := Puzzle;
      solution := solved;
      isComplete := false;
    }

    /** `checkComplete(b)`: the flag says whether `b` matches the solution in all 81 cells. */
    method CheckComplete(b: Board)
      requires Valid() && IsBoard(b)
      modifies `isComplete
      ensures isComplete <==> b == solution
    {
      for i := 0 to 9
        invariant forall r, c :: 0 <= r < i && 0 <= c < 9 ==> b[r][c] == solution[r][c]
      {
        for j := 0 to 9
          invariant forall r, c :: 0 <= r < i && 0 <= c < 9 ==> b[r][c] == solution[r][c]
          invariant forall c :: 0 <= c < j ==> b[i][c] == solution[i][c]
        {
          if b[i][j] != solution[i][j] {
            isComplete := false;
            return;
          }
        }
      }
      Grids.Equal(b, solution, 9, 9);
      isComplete := true;
    }

    /**
     * `handleCellChange(value, row, col)`: an accepted value replaces that one
     * cell and the completion flag is recomputed; any other value changes nothing.
     */
    method HandleCellChange(value: string, row: int, col: int)
      requires Valid() && InRange(row, col)
      modifies this
      ensures Valid() && solution == old(solution)
      ensures AcceptsInput(value) ==>
        (forall r, c :: 0 <= r < 9 && 0 <= c < 9 ==>
          board[r][c] == if r == row && c == col then value else old(board)[r][c]) &&
        (isComplete <==> board == solution)
      ensures !AcceptsInput(value) ==> board == old(board) && isComplete == old(isComplete)
    {
      if AcceptsInput(value) {
        var newBoard := Grids.Update(board, row, col, value);
        board := newBoard;
        CheckComplete(newBoard);
      }
    }
  }
}
