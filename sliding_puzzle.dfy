/**
 * The sliding 8-puzzle page: a 3x3 grid of tiles 1..8 and one empty cell
 * (`null`). A click on a tile orthogonally next to the empty cell moves that
 * tile into it; any other click changes nothing.
 */
module SlidingPuzzle {
  import opened Wrappers
  import Grids

  /** A tile number, or `None` for the empty cell. */
  type Tile = Option<int>

  type Board = seq<seq<Tile>>

  predicate IsBoard(g: Board)
  {
    Grids.IsGrid(g, 3, 3)
  }

  /** The starting layout `[[1, 2, 3], [4, 5, 6], [7, 8, null]]`. */
  const Start: Board := [
    [Some(1), Some(2), Some(3)],
    [Some(4), Some(5), Some(6)],
    [Some(7), Some(8), None]
  ]

  /** The tiles in row-major order. */
  function Tiles(g: Board): (s: seq<Tile>)
    requires IsBoard(g)
  {
    [g[0][0], g[0][1], g[0][2], g[1][0], g[1][1], g[1][2], g[2][0], g[2][1], g[2][2]]
  }


  /** `isAdjacent`: same row and neighbouring columns, or same column and neighbouring rows. */
  predicate IsAdjacent(row1: int, col1: int, row2: int, col2: int)
  {
    (row1 == row2 && Grids.Abs(col1 - col2) == 1) || (col1 == col2 && Grids.Abs(row1 - row2) == 1)
  }

  /** Adjacency is Manhattan distance one. */
  lemma AdjacentIsManhattanOne(row1: int, col1: int, row2: int, col2: int)
    ensures IsAdjacent(row1, col1, row2, col2) <==> Grids.Abs(row1 - row2) + Grids.Abs(col1 - col2) == 1
  {
  }

  lemma AdjacentSymmetric(row1: int, col1: int, row2: int, col2: int)
    ensures IsAdjacent(row1, col1, row2, col2) <==> IsAdjacent(row2, col2, row1, col1)
  {
  }

  lemma AdjacentIrreflexive(row: int, col: int)
    ensures !IsAdjacent(row, col, row, col)
  {
  }

  /** (row, col) is before (i, j) in row-major order. */
  predicate Before(i: int, j: int, row: int, col: int)
  {
    i < row || (i == row && j < col)
  }

  /** What `findEmptyTile` answers: the first empty cell in row-major order, or (-1, -1). */
  predicate IsFirstEmpty(g: Board, row: int, col: int)
    requires IsBoard(g)
  {
    if row == -1 && col == -1 then
      forall i, j :: 0 <= i < 3 && 0 <= j < 3 ==> g[i][j] != None
    else
      0 <= row < 3 && 0 <= col < 3 && g[row][col] == None &&
      forall i, j :: 0 <= i < 3 && 0 <= j < 3 && Before(i, j, row, col) ==> g[i][j] != None
  }

  /** The empty cell of a board, cell by cell in row-major order: an independent reference definition. */
  function EmptyCell(g: Board): (p: (int, int))
    requires IsBoard(g)
  {
    if g[0][0] == None then (0, 0) else if g[0][1] == None then (0, 1) else if g[0][2] == None then (0, 2)
    else if g[1][0] == None then (1, 0) else if g[1][1] == None then (1, 1) else if g[1][2] == None then (1, 2)
    else if g[2][0] == None then (2, 0) else if g[2][1] == None then (2, 1) else if g[2][2] == None then (2, 2)
    else (-1, -1)
  }

  /** The reference definition finds the first empty cell. */
  lemma EmptyCellIsFirst(g: Board)
    requires IsBoard(g)
    ensures IsFirstEmpty(g, EmptyCell(g).0, EmptyCell(g).1)
  {
  }

  /** There is only one first empty cell. */
  lemma FirstEmptyUnique(g: Board, row: int, col: int)
    requires IsBoard(g) && IsFirstEmpty(g, row, col)
    ensures (row, col) == EmptyCell(g)
  {
    EmptyCellIsFirst(g);
  }

  /** `findEmptyTile`: a row-major scan for the first `null`. */
  method FindEmptyTile(puzzle: array2<Tile>) returns (row: int, col: int)
    requires puzzle.Length0 == 3 && puzzle.Length1 == 3
    ensures IsFirstEmpty(Grids.Snapshot(puzzle), row, col)
  {
    ghost var g := Grids.Snapshot(puzzle);
    for i := 0 to puzzle.Length0
      invariant forall i1, j1 :: 0 <= i1 < i && 0 <= j1 < 3 ==> g[i1][j1] != None
    {
      for j := 0 to puzzle.Length1
        invariant forall i1, j1 :: 0 <= i1 < i && 0 <= j1 < 3 ==> g[i1][j1] != None
        invariant forall j1 :: 0 <= j1 < j ==> g[i][j1] != None
      {
        if puzzle[i, j] == None {
          return i, j;
        }
      }
    }
    return -1, -1;
  }

  /**
   * The board after a click on (row, col): if the click is next to the empty
   * cell, the clicked tile moves there and the clicked cell becomes empty.
   */
  function Slide(g: Board, row: int, col: int): (h: Board)
    requires IsBoard(g) && 0 <= row < 3 && 0 <= col < 3
    ensures IsBoard(h)
  {
    var (er, ec) := EmptyCell(g);
    if IsAdjacent(row, col, er, ec) then
      Grids.Update(Grids.Update(g, er, ec, g[row][col]), row, col, None)
    else g
  }

  /** Exactly one cell is empty. */
  predicate OneEmpty(g: Board)
    requires IsBoard(g)
  {
    exists r, c :: 0 <= r < 3 && 0 <= c < 3 && g[r][c] == None &&
      forall i, j :: 0 <= i < 3 && 0 <= j < 3 && (i != r || j != c) ==> g[i][j] != None
  }

  /** Flattening turns a one-cell update into a sequence update. */
  lemma TilesOfUpdate(g: Board, r: int, c: int, v: Tile)
    requires IsBoard(g) && 0 <= r < 3 && 0 <= c < 3
    ensures Tiles(Grids.Update(g, r, c, v)) == Tiles(g)[3 * r + c := v]
  {
  }

  /** A click permutes the tiles: the multiset of tiles is unchanged. */
  lemma SlideKeepsTiles(g: Board, row: int, col: int)
    requires IsBoard(g) && 0 <= row < 3 && 0 <= col < 3
    ensures multiset(Tiles(Slide(g, row, col))) == multiset(Tiles(g))
  {
    var (er, ec) := EmptyCell(g);
    if IsAdjacent(row, col, er, ec) {
      EmptyCellIsFirst(g);
      var mid := Grids.Update(g, er, ec, g[row][col]);
      TilesOfUpdate(g, er, ec, g[row][col]);
      TilesOfUpdate(mid, row, col, None);
      var s := Tiles(g);
      var i, j := 3 * er + ec, 3 * row + col;
      assert s[i] == None && s[j] == g[row][col];
      assert Tiles(Slide(g, row, col)) == s[i := s[j]][j := None];
      SwapKeepsMultiset(s, i, j);
    }
  }

  /** Moving the value at j into i, which held `None`, and emptying j keeps the multiset. */
  lemma SwapKeepsMultiset(s: seq<Tile>, i: int, j: int)
    requires 0 <= i < |s| && 0 <= j < |s| && s[i] == None
    ensures multiset(s[i := s[j]][j := None]) == multiset(s)
  {
  }

  /**
   * An adjacent click moves the clicked tile into the old empty cell, empties
   * the clicked cell and changes no other cell; any other click changes nothing.
   */
  lemma SlideMovesOneTile(g: Board, row: int, col: int)
    requires IsBoard(g) && 0 <= row < 3 && 0 <= col < 3
    ensures var (er, ec) := EmptyCell(g);
      if IsAdjacent(row, col, er, ec) then
        Slide(g, row, col)[er][ec] == g[row][col] && Slide(g, row, col)[row][col] == None &&
        forall i, j :: 0 <= i < 3 && 0 <= j < 3 && (i, j) != (er, ec) && (i, j) != (row, col) ==>
          Slide(g, row, col)[i][j] == g[i][j]
      else Slide(g, row, col) == g
  {
    var (er, ec) := EmptyCell(g);
    if IsAdjacent(row, col, er, ec) {
      EmptyCellIsFirst(g);
    }
  }

  /** A click on the empty cell itself is a no-op. */
  lemma ClickOnEmptyIsNoop(g: Board, row: int, col: int)
    requires IsBoard(g) && 0 <= row < 3 && 0 <= col < 3
    requires EmptyCell(g) == (row, col)
    ensures Slide(g, row, col) == g
  {
    AdjacentIrreflexive(row, col);
  }

  /** A click keeps exactly one cell empty. */
  lemma SlideKeepsOneEmpty(g: Board, row: int, col: int)
    requires IsBoard(g) && 0 <= row < 3 && 0 <= col < 3 && OneEmpty(g)
    ensures OneEmpty(Slide(g, row, col))
  {
    var r, c :| 0 <= r < 3 && 0 <= c < 3 && g[r][c] == None &&
      forall i, j :: 0 <= i < 3 && 0 <= j < 3 && (i != r || j != c) ==> g[i][j] != None;
    FirstEmptyUnique(g, r, c);
    if IsAdjacent(row, col, r, c) {
      SlideMovesOneTile(g, row, col);
      var h := Slide(g, row, col);
      forall i, j | 0 <= i < 3 && 0 <= j < 3 && (i != row || j != col)
        ensures h[i][j] != None
      {
        if i == r && j == c {
          assert h[i][j] == g[row][col];
        } else {
          assert h[i][j] == g[i][j];
        }
      }
      assert h[row][col] == None;
    }
  }

  /** The start layout holds tiles 1..8 and exactly one empty cell. */
  lemma StartHasOneEmpty()
    ensures OneEmpty(Start)
  {
    forall i, j | 0 <= i < 3 && 0 <= j < 3 && (i != 2 || j != 2)
      ensures Start[i][j] != None
    {
      var row := Start[i];
      if i == 0 {
        assert row == [Some(1), Some(2), Some(3)];
      } else if i == 1 {
        assert row == [Some(4), Some(5), Some(6)];
      } else {
        assert row == [Some(7), Some(8), None];
      }
    }
    assert Start[2][2] == None;
  }

  /** The page state: the board, mutated in place by clicks. */
  class PuzzlePage {
    var puzzle: array2<Tile>

    /** A 3x3 board with exactly one empty cell. */
    ghost predicate Valid()
      reads this, puzzle
    {
      puzzle.Length0 == 3 && puzzle.Length1 == 3 && OneEmpty(Grids.Snapshot(puzzle))
    }

    constructor ()
      ensures Valid() && fresh(puzzle) && Grids.Snapshot(puzzle) == Start
    {
      puzzle := new Tile[3, 3]((r, c) requires 0 <= r < 3 && 0 <= c < 3 => Start[r][c]);
      new;
      Grids.Equal(Grids.Snapshot(puzzle), Start, 3, 3);
      StartHasOneEmpty();
    }

    /** `handleTileClick(row, col)`. */
    method HandleTileClick(row: int, col: int)
      requires Valid() && 0 <= row < 3 && 0 <= col < 3
      modifies puzzle
      ensures Valid()
      ensures Grids.Snapshot(puzzle) == Slide(old(Grids.Snapshot(puzzle)), row, col)
    {
      ghost var g := Grids.Snapshot(puzzle);
      var emptyRow, emptyCol := FindEmptyTile(puzzle);
      FirstEmptyUnique(g, emptyRow, emptyCol);
      if IsAdjacent(row, col, emptyRow, emptyCol) {
        var tile := puzzle[row, col];
        Grids.Write(puzzle, emptyRow, emptyCol, tile);
        Grids.Write(puzzle, row, col, None);
        assert Grids.Snapshot(puzzle) == Grids.Update(Grids.Update(g, emptyRow, emptyCol, g[row][col]), row, col, None);
      }
      ghost var h := Grids.Snapshot(puzzle);
      assert h == Slide(g, row, col);
      SlideKeepsOneEmpty(g, row, col);
    }
  }
}
