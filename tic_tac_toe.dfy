/**
 * Quantum tic-tac-toe move recorder: a player picks two cells, one click at a
 * time, and the pair becomes one committed move labelled with the player and
 * a running id. A cell used by a committed move cannot be picked again.
 */
module QuantumTicTacToe {
  import Text

  datatype Player = X | O

  /** A committed move: its id, its player and the two cells it claims. */
  datatype Move = Move(id: int, player: Player, cells: seq<int>)

  /** `isXNext ? 'X' : 'O'`. */
  function PlayerFor(isXNext: bool): Player
  {
    if isXNext then X else O
  }

  function PlayerChar(p: Player): char
  {
    if p == X then 'X' else 'O'
  }

  /** `moves.some(move => move.cells.includes(index))`. */
  predicate Claimed(moves: seq<Move>, index: int)
  {
    exists k :: 0 <= k < |moves| && index in moves[k].cells
  }

  /** No cell belongs to two different moves. */
  predicate Disjoint(moves: seq<Move>)
  {
    forall k1, k2, c :: 0 <= k1 < k2 < |moves| && c in moves[k1].cells ==> c !in moves[k2].cells
  }

  /**
   * The committed moves so far: ids 1..n in order, X first and then
   * alternating, each claiming two distinct cells that no other move claims.
   */
  predicate ValidMoves(moves: seq<Move>)
  {
    (forall k :: 0 <= k < |moves| ==>
      moves[k].id == k + 1 && moves[k].player == PlayerFor(k % 2 == 0) &&
      |moves[k].cells| == 2 && moves[k].cells[0] != moves[k].cells[1]) &&
    Disjoint(moves)
  }

  /** The text of a cell owned by move `m`: `${move.player}${move.id}`. */
  function Label(m: Move): (s: string)
    ensures |s| >= 2 && s[0] == PlayerChar(m.player) && s[1..] == Text.IntToString(m.id)
  {
    [PlayerChar(m.player)] + Text.IntToString(m.id)
  }

  /** The set of cells claimed by some move, an independent definition by recursion. */
  ghost function CellsOf(moves: seq<Move>): (cells: set<int>)
    decreases |moves|
  {
    if moves == [] then {}
    else
      var last := moves[|moves| - 1].cells;
      CellsOf(moves[..|moves| - 1]) + set c | c in last
  }

  /** A cell is claimed exactly when it is one of the cells of the moves. */
  lemma {:induction false} CellsOfClaimed(moves: seq<Move>, index: int)
    ensures index in CellsOf(moves) <==> Claimed(moves, index)
    decreases |moves|
  {
    if moves != [] {
      var init := moves[..|moves| - 1];
      CellsOfClaimed(init, index);
      if Claimed(init, index) {
        var k :| 0 <= k < |init| && index in init[k].cells;
        assert moves[k] == init[k];
      }
      if Claimed(moves, index) {
        var k :| 0 <= k < |moves| && index in moves[k].cells;
        if k < |init| {
          assert init[k] == moves[k];
        }
      }
    }
  }

  /** A prefix of valid moves is valid. */
  lemma ValidMovesPrefix(moves: seq<Move>, n: nat)
    requires ValidMoves(moves) && n <= |moves|
    ensures ValidMoves(moves[..n])
  {
    assert forall k :: 0 <= k < n ==> moves[..n][k] == moves[k];
  }

  /** A cell of move `k` is not claimed by any earlier move. */
  lemma NotClaimedEarlier(moves: seq<Move>, k: int, c: int)
    requires ValidMoves(moves) && 0 <= k < |moves| && c in moves[k].cells
    ensures !Claimed(moves[..k], c)
  {
  }

  /** Adding two new distinct cells to a set of cells grows it by two. */
  lemma AddTwoCells(cellSet: set<int>, cells: seq<int>)
    requires |cells| == 2 && cells[0] != cells[1] && cells[0] !in cellSet && cells[1] !in cellSet
    ensures |cellSet + set c | c in cells| == |cellSet| + 2
  {
    assert (set c | c in cells) == {cells[0], cells[1]};
    assert cellSet + {cells[0], cells[1]} == (cellSet + {cells[0]}) + {cells[1]};
  }

  /** Valid moves claim exactly two cells each: `2 * n` cells in all. */
  lemma {:induction false} ClaimedCellCount(moves: seq<Move>)
    requires ValidMoves(moves)
    ensures |CellsOf(moves)| == 2 * |moves|
    decreases |moves|
  {
    if moves != [] {
      var n := |moves| - 1;
      var init := moves[..n];
      var cells := moves[n].cells;
      ValidMovesPrefix(moves, n);
      ClaimedCellCount(init);
      NotClaimedEarlier(moves, n, cells[0]);
      NotClaimedEarlier(moves, n, cells[1]);
      CellsOfClaimed(init, cells[0]);
      CellsOfClaimed(init, cells[1]);
      AddTwoCells(CellsOf(init), cells);
    }
  }

  /** After appending move `m`, the claimed cells are the old ones and those of `m`. */
  lemma ClaimedAppend(moves: seq<Move>, m: Move, c: int)
    ensures Claimed(moves + [m], c) <==> Claimed(moves, c) || c in m.cells
  {
    var all := moves + [m];
    if Claimed(all, c) {
      var k :| 0 <= k < |all| && c in all[k].cells;
      if k < |moves| {
        assert moves[k] == all[k];
      }
    }
    if Claimed(moves, c) {
      var k :| 0 <= k < |moves| && c in moves[k].cells;
      assert all[k] == moves[k];
    }
    if c in m.cells {
      assert all[|moves|] == m;
    }
  }

  /**
   * Committing two distinct unclaimed cells as the next move, with the next id
   * and the alternating player, keeps the moves valid.
   */
  lemma CommitKeepsValid(moves: seq<Move>, cells: seq<int>)
    requires ValidMoves(moves)
    requires |cells| == 2 && cells[0] != cells[1] && !Claimed(moves, cells[0]) && !Claimed(moves, cells[1])
    ensures ValidMoves(moves + [Move(|moves| + 1, PlayerFor(|moves| % 2 == 0), cells)])
  {
    var m := Move(|moves| + 1, PlayerFor(|moves| % 2 == 0), cells);
    var all := moves + [m];
    forall k1, k2, c | 0 <= k1 < k2 < |all| && c in all[k1].cells
      ensures c !in all[k2].cells
    {
      assert all[k1] == moves[k1];
      if k2 < |moves| {
        assert all[k2] == moves[k2];
      } else {
        assert c != cells[0] && c != cells[1];
      }
    }
  }

  /** A claimed cell's text names its owning move: the player and, read back, the move number. */
  lemma LabelIdentifiesMove(moves: seq<Move>, k: int)
    requires ValidMoves(moves) && 0 <= k < |moves|
    ensures Label(moves[k])[0] == (if k % 2 == 0 then 'X' else 'O')
    ensures Text.AllDigits(Label(moves[k])[1..]) && Text.ParseNat(Label(moves[k])[1..]) == k + 1
  {
    Text.ParseNatToString(k + 1);
  }

  /** The page state of the recorder. */
  class Game {
    var moves: seq<Move>
    var selected: seq<int>
    var isXNext: bool
    var moveId: int

    /**
     * The moves are valid, X moves after an even number of moves, `moveId` is
     * the next id, and the selection is at most one cell that no move claims.
     */
    ghost predicate Valid()
      reads this
    {
      ValidMoves(moves) && moveId == |moves| + 1 && isXNext == (|moves| % 2 == 0) &&
      |selected| <= 1 && forall i :: 0 <= i < |selected| ==> !Claimed(moves, selected[i])
    }

    constructor ()
      ensures Valid()
      ensures moves == [] && selected == [] && isXNext && moveId == 1
    {
      moves := [];
      selected := [];
      isXNext := true;
      moveId := 1;
    }

    /** `handleClick(index)`. */
    method HandleClick(index: int)
      requires Valid()
      modifies this
      ensures Valid()
      ensures old(index in selected || Claimed(moves, index)) ==>
        moves == old(moves) && selected == old(selected) && isXNext == old(isXNext) && moveId == old(moveId)
      ensures old(index !in selected && !Claimed(moves, index) && |selected| == 0) ==>
        moves == old(moves) && selected == [index] && isXNext == old(isXNext) && moveId == old(moveId)
      ensures old(index !in selected && !Claimed(moves, index) && |selected| == 1) ==>
        moves == old(moves) + [Move(old(moveId), PlayerFor(old(isXNext)), old(selected) + [index])] &&
        selected == [] && isXNext == !old(isXNext) && moveId == old(moveId) + 1
    {
      if index in selected {
        return;
      }
      if Claimed(moves, index) {
        return;
      }
      var newSelection := selected + [index];
      selected := newSelection;
      if |newSelection| == 2 {
        var newMove := Move(moveId, if isXNext then X else O, newSelection);
        CommitKeepsValid(moves, newSelection);
        moves := moves + [newMove];
        selected := [];
        isXNext := !isXNext;
        moveId := moveId + 1;
      }
    }

    /** `getCellText(index)`: scans the moves in order for the cell's owner. */
    method GetCellText(index: int) returns (text: string)
      ensures Claimed(moves, index) ==>
        exists k :: 0 <= k < |moves| && index in moves[k].cells && text == Label(moves[k]) &&
          forall j :: 0 <= j < k ==> index !in moves[j].cells
      ensures !Claimed(moves, index) && index in selected ==> text == [PlayerChar(PlayerFor(isXNext)), '?']
      ensures !Claimed(moves, index) && index !in selected ==> text == ""
    {
      var k := 0;
      while k < |moves|
        invariant 0 <= k <= |moves|
        invariant forall j :: 0 <= j < k ==> index !in moves[j].cells
      {
        if index in moves[k].cells {
          return [PlayerChar(moves[k].player)] + Text.IntToString(moves[k].id);
        }
        k := k + 1;
      }
      if index in selected {
        return if isXNext then "X?" else "O?";
      }
      return "";
    }

    /** `resetGame`. */
    method Reset()
      modifies this
      ensures Valid()
      ensures moves == [] && selected == [] && isXNext && moveId == 1
    {
      moves := [];
      selected := [];
      isXNext := true;
      moveId := 1;
    }
  }
}
