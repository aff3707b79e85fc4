/**
 * The maze page: a fixed 8x8 grid of walls (`#`), open cells, the start `S`
 * and the exit `E`. Arrow keys move the player one cell unless the target is
 * a wall or off the grid; stepping onto the exit wins, and a won game ignores
 * every further key.
 */
module Maze {
  import opened Wrappers
  import Grids

  /** `mazeData`, one string per row and one character per cell. */
  const MazeData: seq<string> := [
    "########",
    "#S  #  #",
    "### # ##",
    "# #   ##",
    "# ###  #",
    "#   ## #",
    "### #E #",
    "########"
  ]

  /** `mazeData[row][col]`, or `None` where JavaScript reads `undefined`. */
  function CellAt(row: int, col: int): (cell: Option<char>)
    ensures cell.Some? <==> 0 <= row < |MazeData| && 0 <= col < |MazeData[row]|
  {
    if 0 <= row < |MazeData| && 0 <= col < |MazeData[row]| then Some(MazeData[row][col]) else None
  }

  datatype Position = Position(row: int, col: int)

  datatype Status = Playing | Won

  /** The page state: `playerPos` and `gameStatus`. */
  datatype State = State(pos: Position, status: Status)

  /** The initial state: on the `S` cell, playing. */
  const Start: State := State(Position(1, 1), Playing)

  /** A cell the player may stand on: on the grid and not a wall. */
  predicate Open(p: Position)
  {
    CellAt(p.row, p.col).Some? && CellAt(p.row, p.col).value != '#'
  }

  predicate AtExit(p: Position)
  {
    CellAt(p.row, p.col) == Some('E')
  }

  /** The cell an arrow key aims at; any other key aims at the current cell. */
  function Step(p: Position, dir: string): Position
  {
    if dir == "ArrowUp" then Position(p.row - 1, p.col)
    else if dir == "ArrowDown" then Position(p.row + 1, p.col)
    else if dir == "ArrowLeft" then Position(p.row, p.col - 1)
    else if dir == "ArrowRight" then Position(p.row, p.col + 1)
    else p
  }

  predicate IsArrow(dir: string)
  {
    dir == "ArrowUp" || dir == "ArrowDown" || dir == "ArrowLeft" || dir == "ArrowRight"
  }


  /** An arrow key changes exactly one coordinate by one; any other key changes nothing. */
  lemma StepMovesOneCoordinate(p: Position, dir: string)
    ensures IsArrow(dir) ==>
      Grids.Abs(Step(p, dir).row - p.row) + Grids.Abs(Step(p, dir).col - p.col) == 1
    ensures !IsArrow(dir) ==> Step(p, dir) == p
  {
  }

  /** `movePlayer(dir)` as a transition of the page state. */
  function Move(s: State, dir: string): (t: State)
  {
    if s.status == Won then s
    else
      var p := Step(s.pos, dir);
      if Open(p) then State(p, if AtExit(p) then Won else s.status) else s
  }

  /** The player stands on an open cell, and the game is won exactly when that cell is the exit. */
  predicate Inv(s: State)
  {
    Open(s.pos) && (s.status == Won <==> AtExit(s.pos))
  }

  /** The start cell is `S`, so the initial state is valid and not won. */
  lemma StartInv()
    ensures CellAt(Start.pos.row, Start.pos.col) == Some('S')
    ensures Inv(Start) && Start.status == Playing
  {
    assert MazeData[1] == "#S  #  #";
  }

  /**
   * A move keeps the invariant. A won game ignores the move; a move into a
   * wall or off the grid leaves the state as it was; otherwise the player is
   * on the target, and the game is won exactly when that is the exit.
   */
  lemma MoveProperties(s: State, dir: string)
    requires Inv(s)
    ensures Inv(Move(s, dir))
    ensures s.status == Won ==> Move(s, dir) == s
    ensures s.status == Playing && !Open(Step(s.pos, dir)) ==> Move(s, dir) == s
    ensures s.status == Playing && Open(Step(s.pos, dir)) ==>
      Move(s, dir).pos == Step(s.pos, dir) && (Move(s, dir).status == Won <==> AtExit(Step(s.pos, dir)))
  {
  }

  /** The state after a sequence of keys. */
  function Run(s: State, keys: seq<string>): State
    decreases |keys|
  {
    if keys == [] then s else Run(Move(s, keys[0]), keys[1..])
  }

  /** Any sequence of keys keeps the invariant, and a won game stays won. */
  lemma {:induction false} RunKeepsInv(s: State, keys: seq<string>)
    requires Inv(s)
    ensures Inv(Run(s, keys))
    ensures s.status == Won ==> Run(s, keys) == s
    decreases |keys|
  {
    if keys != [] {
      MoveProperties(s, keys[0]);
      RunKeepsInv(Move(s, keys[0]), keys[1..]);
    }
  }

  /** Keys that take each state of a trace to the next one run from its first state to its last. */
  lemma {:induction false} RunAlongTrace(trace: seq<State>, keys: seq<string>)
    requires |trace| == |keys| + 1
    requires forall i :: 0 <= i < |keys| ==> Move(trace[i], keys[i]) == trace[i + 1]
    ensures Run(trace[0], keys) == trace[|keys|]
    decreases |keys|
  {
    if keys != [] {
      RunAlongTrace(trace[1..], keys[1..]);
    }
  }

  /** The exit is reachable: eleven arrow presses from the start win the game. */
  lemma ExitReachable()
    ensures Run(Start, ["ArrowRight", "ArrowRight", "ArrowDown", "ArrowDown", "ArrowRight", "ArrowRight",
      "ArrowDown", "ArrowRight", "ArrowDown", "ArrowDown", "ArrowLeft"]).status == Won
  {
    var keys := ["ArrowRight", "ArrowRight", "ArrowDown", "ArrowDown", "ArrowRight", "ArrowRight",
      "ArrowDown", "ArrowRight", "ArrowDown", "ArrowDown", "ArrowLeft"];
    var cells := [(1, 1), (1, 2), (1, 3), (2, 3), (3, 3), (3, 4), (3, 5), (4, 5), (4, 6), (5, 6), (6, 6), (6, 5)];
    var trace := seq(12, i requires 0 <= i < 12 =>
      State(Position(cells[i].0, cells[i].1), if i == 11 then Won else Playing));
    assert MazeData[1] == "#S  #  #" && MazeData[2] == "### # ##" && MazeData[3] == "# #   ##";
    assert MazeData[4] == "# ###  #" && MazeData[5] == "#   ## #" && MazeData[6] == "### #E #";
    forall i | 0 <= i < |keys|
      ensures Move(trace[i], keys[i]) == trace[i + 1]
    {
      assert Step(trace[i].pos, keys[i]) == trace[i + 1].pos;
    }
    RunAlongTrace(trace, keys);
  }

  /** The page: React state in fields. */
  class MazePage {
    var playerPos: Position
    var gameStatus: Status

    ghost function StateOf(): State
      reads this
    {
      State(playerPos, gameStatus)
    }

    ghost predicate Valid()
      reads this
    {
      Inv(StateOf())
    }

    constructor ()
      ensures Valid() && StateOf() == Start
    {
      playerPos := Position(1, 1);
      gameStatus := Playing;
      new;
      StartInv();
    }

    /** `movePlayer(dir)`. */
    method MovePlayer(dir: string)
      requires Valid()
      modifies this
      ensures Valid()
      ensures StateOf() == Move(old(StateOf()), dir)
    {
      MoveProperties(StateOf(), dir);
      if gameStatus == Won {
        return;
      }
      var row, col := playerPos.row, playerPos.col;
      var newRow, newCol := row, col;
      if dir == "ArrowUp" {
        newRow := newRow - 1;
      } else if dir == "ArrowDown" {
        newRow := newRow + 1;
      } else if dir == "ArrowLeft" {
        newCol := newCol - 1;
      } else if dir == "ArrowRight" {
        newCol := newCol + 1;
      }
      var cell := CellAt(newRow, newCol);
      if cell.Some? && cell.value != '#' {
        playerPos := Position(newRow, newCol);
        if cell.value == 'E' {
          gameStatus := Won;
        }
      }
    }
  }
}
