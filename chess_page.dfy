/**
 * The quantum chess page, minus the chess rules: the clock display, the
 * right-click square marks, the one-second clock tick and the left-click
 * handler that selects a piece, plays a legal move and records captures,
 * history and the result. Whatever chess.js answers (the piece on a square,
 * the side to move, the legal moves, the verdict after a move) is a
 * parameter.
 */
module Chess {
  import opened Wrappers
  import Text

  datatype Color = White | Black

  /** A verbose chess.js move: squares, the mover's colour and the captured piece, if any. */
  datatype ChessMove = ChessMove(from: string, to: string, color: Color, captured: Option<string>)

  /** What chess.js reports after a move: the side to move and the game-over tests. */
  datatype Verdict = Verdict(turn: Color, isGameOver: bool, isCheckmate: bool, isDraw: bool)

  // ----- formatTime -----

  /** JavaScript's `a % b` for `b > 0`: the remainder takes the sign of the dividend. */
  function JsRem(a: int, b: int): (r: int)
    requires b > 0
    ensures -b < r < b
    ensures a >= 0 ==> r == a % b
    ensures a < 0 ==> r <= 0 && -r == (-a) % b
  {
    if a >= 0 then a % b else -((-a) % b)
  }

  /** `s.padStart(n, pad)`: `s` with copies of `pad` in front up to length `n`. */
  function PadStart(s: string, n: nat, pad: char): (r: string)
    ensures |r| == if |s| >= n then |s| else n
    ensures r[|r| - |s|..] == s
    ensures forall i :: 0 <= i < |r| - |s| ==> r[i] == pad
  {
    if |s| >= n then s else seq(n - |s|, _ => pad) + s
  }

  /**
   * `formatTime(seconds)`: `Math.floor(seconds / 60)`, a colon and
   * `(seconds % 60).toString().padStart(2, '0')`. Dafny's `/` by a positive
   * divisor is the floor, and `%` is JavaScript's through `JsRem`.
   */
  function FormatTime(seconds: int): string
  {
    Text.IntToString(seconds / 60) + ":" + PadStart(Text.IntToString(JsRem(seconds, 60)), 2, '0')
  }

  /** Two digits for a number of seconds below sixty. */
  function TwoDigits(r: nat): (s: string)
    requires r < 60
    ensures |s| == 2 && Text.AllDigits(s)
  {
    [Text.DigitChar(r / 10), Text.DigitChar(r % 10)]
  }

  /** The seconds part of the clock carries a leading zero below ten. */
  lemma PaddedSeconds(r: nat)
    requires r < 60
    ensures PadStart(Text.IntToString(r), 2, '0') == TwoDigits(r)
  {
    if r >= 10 {
      assert Text.NatToString(r) == Text.NatToString(r / 10) + [Text.DigitChar(r % 10)];
      assert Text.NatToString(r / 10) == [Text.DigitChar(r / 10)];
    } else {
      assert Text.NatToString(r) == [Text.DigitChar(r)];
      assert Text.DigitChar(0) == '0';
    }
  }

  /** For a non-negative count: the minutes, a colon and the remaining seconds as two digits. */
  lemma FormatTimeDigits(s: nat)
    ensures FormatTime(s) == Text.NatToString(s / 60) + ":" + TwoDigits(s % 60)
  {
    PaddedSeconds(s % 60);
  }

  /** Reads a clock `m:ss` back into seconds; `None` when the text is not of that form. */
  function ParseClock(t: string): (r: Option<int>)
    ensures r.Some? ==> r.value >= 0
  {
    if |t| >= 4 && t[|t| - 3] == ':' && Text.AllDigits(t[..|t| - 3]) && Text.AllDigits(t[|t| - 2..]) then
      Some(Text.ParseNat(t[..|t| - 3]) * 60 + Text.ParseNat(t[|t| - 2..]))
    else None
  }

  /** Two digits read back as their value. */
  lemma ParseTwoDigits(r: nat)
    requires r < 60
    ensures Text.ParseNat(TwoDigits(r)) == r
  {
    var s := TwoDigits(r);
    assert s[..1][..0] == [];
    assert Text.ParseNat(s[..1]) == r / 10;
  }

  /** A clock built from digits reads back as its minutes and seconds. */
  lemma ParseClockParts(m: string, d: string)
    requires |m| >= 1 && Text.AllDigits(m) && |d| == 2 && Text.AllDigits(d)
    ensures ParseClock(m + ":" + d) == Some(Text.ParseNat(m) * 60 + Text.ParseNat(d))
  {
    var t := m + ":" + d;
    assert t[..|t| - 3] == m;
    assert t[|t| - 2..] == d;
  }

  /** The clock of a non-negative count reads back as that count. */
  lemma FormatTimeRoundTrip(s: nat)
    ensures ParseClock(FormatTime(s)) == Some(s)
  {
    FormatTimeDigits(s);
    ClockDigitsRoundTrip(s / 60, s % 60, s);
  }

  /** Minutes and two-digit seconds read back as the count they stand for. */
  lemma ClockDigitsRoundTrip(minutes: nat, seconds: nat, total: nat)
    requires seconds < 60 && total == minutes * 60 + seconds
    ensures ParseClock(Text.NatToString(minutes) + ":" + TwoDigits(seconds)) == Some(total)
  {
    var m, d := Text.NatToString(minutes), TwoDigits(seconds);
    ParseClockParts(m, d);
    Text.ParseNatToString(minutes);
    ParseTwoDigits(seconds);
  }

  // ----- onSquareRightClick -----

  /** The background of a marked square. */
  const MarkColour: string := "rgba(255, 0, 0, 0.4)"

  /** `rightClickedSquares`: a square maps to its style, `None` standing for `undefined`. */
  type Marks = map<string, Option<string>>

  predicate Marked(marks: Marks, square: string)
  {
    square in marks && marks[square] == Some(MarkColour)
  }

  /** A right click on `square`: unmark it if it is marked, mark it otherwise. */
  function ToggleMark(marks: Marks, square: string): Marks
  {
    marks[square := if Marked(marks, square) then None else Some(MarkColour)]
  }

  /** A right click flips the mark of that square and leaves every other entry as it was. */
  lemma ToggleFlipsOneSquare(marks: Marks, square: string)
    ensures Marked(ToggleMark(marks, square), square) <==> !Marked(marks, square)
    ensures ToggleMark(marks, square).Keys == marks.Keys + {square}
    ensures forall x :: x in marks && x != square ==> ToggleMark(marks, square)[x] == marks[x]
  {
  }

  /** Right-clicking a square twice leaves every square marked exactly as before. */
  lemma ToggleTwiceRestores(marks: Marks, square: string)
    ensures forall x :: Marked(ToggleMark(ToggleMark(marks, square), square), x) <==> Marked(marks, x)
  {
    var once := ToggleMark(marks, square);
    ToggleFlipsOneSquare(marks, square);
    ToggleFlipsOneSquare(once, square);
  }

  // ----- page state -----

  /** The page state this model keeps. */
  datatype Page = Page(
    moveFrom: string,
    rightClicked: Marks,
    whiteTime: int,
    blackTime: int,
    isGameStarted: bool,
    winner: Option<string>,
    moveHistory: seq<string>,
    capturedWhite: seq<string>,
    capturedBlack: seq<string>)

  /** The state on load and after "Reset Game". */
  const Initial: Page := Page("", map[], 0, 0, false, None, [], [], [])

  /** The clocks run and clicks count only in a started game without a result. */
  predicate Running(p: Page)
  {
    p.isGameStarted && p.winner.None?
  }

  /**
   * A selected piece only exists in a running game, a result only in a
   * started one, no clock is negative, and each recorded move adds at most
   * one captured piece.
   */
  predicate Inv(p: Page)
  {
    (p.moveFrom != "" ==> Running(p)) && (p.winner.Some? ==> p.isGameStarted) &&
    p.whiteTime >= 0 && p.blackTime >= 0 &&
    |p.capturedWhite| + |p.capturedBlack| <= |p.moveHistory|
  }

  lemma InitialInv()
    ensures Inv(Initial) && !Running(Initial)
  {
  }

  // ----- the clock tick -----

  /** One second of the interval: the clock of the side to move gains a second. */
  function ClockTick(p: Page, turn: Color): Page
  {
    if !Running(p) then p
    else if turn == White then p.(whiteTime := p.whiteTime + 1)
    else p.(blackTime := p.blackTime + 1)
  }

  /** The ticks of a sequence of seconds, with the side to move at each. */
  function Ticks(p: Page, turns: seq<Color>): Page
    decreases |turns|
  {
    if turns == [] then p else Ticks(ClockTick(p, turns[0]), turns[1..])
  }

  function Count(turns: seq<Color>, c: Color): nat
    ensures Count(turns, c) <= |turns|
    decreases |turns|
  {
    if turns == [] then 0 else (if turns[0] == c then 1 else 0) + Count(turns[1..], c)
  }

  /** A tick keeps the invariant, and does nothing unless the game is running. */
  lemma TickInv(p: Page, turn: Color)
    requires Inv(p)
    ensures Inv(ClockTick(p, turn))
    ensures !Running(p) ==> ClockTick(p, turn) == p
    ensures Running(ClockTick(p, turn)) == Running(p)
  {
  }

  /**
   * Over a running game each clock gains exactly the seconds during which its
   * side was to move, and nothing but the clocks changes.
   */
  lemma {:induction false} TicksAddUp(p: Page, turns: seq<Color>)
    requires Running(p)
    ensures Ticks(p, turns).whiteTime == p.whiteTime + Count(turns, White)
    ensures Ticks(p, turns).blackTime == p.blackTime + Count(turns, Black)
    ensures Ticks(p, turns) == p.(whiteTime := Ticks(p, turns).whiteTime, blackTime := Ticks(p, turns).blackTime)
    decreases |turns|
  {
    if turns != [] {
      TicksAddUp(ClockTick(p, turns[0]), turns[1..]);
    }
  }

  /** Every second is charged to exactly one side. */
  lemma {:induction false} CountSplits(turns: seq<Color>)
    ensures Count(turns, White) + Count(turns, Black) == |turns|
    decreases |turns|
  {
    if turns != [] {
      CountSplits(turns[1..]);
    }
  }

  // ----- onSquareClick -----

  predicate Matches(m: ChessMove, from: string, to: string)
  {
    m.from == from && m.to == to
  }

  /** The index `moves.find` stops at: the first move from `from` to `to`, or -1. */
  function FirstMatch(moves: seq<ChessMove>, from: string, to: string): (i: int)
    ensures -1 <= i < |moves|
    ensures i >= 0 ==> Matches(moves[i], from, to)
    ensures i >= 0 ==> forall j :: 0 <= j < i ==> !Matches(moves[j], from, to)
    ensures i == -1 <==> forall j :: 0 <= j < |moves| ==> !Matches(moves[j], from, to)
    decreases |moves|
  {
    if moves == [] then -1
    else if Matches(moves[0], from, to) then 0
    else
      var i := FirstMatch(moves[1..], from, to);
      if i == -1 then -1 else i + 1
  }

  /** A capture by White goes to Black's lost pieces, a capture by Black to White's. */
  function RecordCapture(p: Page, m: ChessMove): Page
  {
    if m.captured.None? then p
    else if m.color == White then p.(capturedBlack := p.capturedBlack + [m.captured.value])
    else p.(capturedWhite := p.capturedWhite + [m.captured.value])
  }

  /** The result after a move: the side to move after checkmate has lost; otherwise a draw or no change. */
  function Outcome(winner: Option<string>, v: Verdict): Option<string>
  {
    if v.isGameOver && v.isCheckmate then
      Some(if v.turn == White then "Black wins by checkmate!" else "White wins by checkmate!")
    else if v.isGameOver && v.isDraw then Some("Game drawn!")
    else winner
  }

  /**
   * A left click on `square` with no superposition pending and superposition
   * mode off. `piece` is the colour of the piece on `square`, `turn` the side
   * to move, `legal` the legal moves from the selected square and `verdict`
   * what chess.js reports once the move is played.
   */
  function Click(p: Page, square: string, piece: Option<Color>, turn: Color,
                 legal: seq<ChessMove>, verdict: Verdict): Page
  {
    if !Running(p) then p
    else
      var q := p.(rightClicked := map[]);
      if q.moveFrom == "" then Select(q, square, piece, turn) else MoveTo(q, square, legal, verdict)
  }

  /** The "from square" step: select `square` if it holds a piece of the side to move. */
  function Select(q: Page, square: string, piece: Option<Color>, turn: Color): Page
  {
    if piece == Some(turn) then q.(moveFrom := square) else q
  }

  /** The "to square" step: play the first legal move to `square`, if any, and drop the selection. */
  function MoveTo(q: Page, square: string, legal: seq<ChessMove>, verdict: Verdict): Page
  {
    var i := FirstMatch(legal, q.moveFrom, square);
    if i == -1 then q.(moveFrom := "") else Played(RecordCapture(q, legal[i]), square, verdict)
  }

  /** Recording a played move: its "from-to" text, the result, and no selection. */
  function Played(r: Page, square: string, verdict: Verdict): Page
  {
    r.(moveHistory := r.moveHistory + [r.moveFrom + "-" + square],
       winner := Outcome(r.winner, verdict),
       moveFrom := "")
  }

  /** A click outside a running game is ignored; inside one it clears every right-click mark. */
  lemma ClickGuard(p: Page, square: string, piece: Option<Color>, turn: Color,
                   legal: seq<ChessMove>, verdict: Verdict)
    ensures !Running(p) ==> Click(p, square, piece, turn, legal, verdict) == p
    ensures Running(p) ==> Click(p, square, piece, turn, legal, verdict).rightClicked == map[]
    ensures Click(p, square, piece, turn, legal, verdict).whiteTime == p.whiteTime
    ensures Click(p, square, piece, turn, legal, verdict).blackTime == p.blackTime
    ensures Click(p, square, piece, turn, legal, verdict).isGameStarted == p.isGameStarted
  {
  }

  /**
   * With no piece selected, a click selects the square exactly when it holds
   * a piece of the side to move, and records nothing.
   */
  lemma ClickSelects(p: Page, square: string, piece: Option<Color>, turn: Color,
                     legal: seq<ChessMove>, verdict: Verdict)
    requires Running(p) && p.moveFrom == ""
    ensures var q := Click(p, square, piece, turn, legal, verdict);
      (piece == Some(turn) ==> q.moveFrom == square) &&
      (piece != Some(turn) ==> q.moveFrom == "") &&
      q.moveHistory == p.moveHistory && q.capturedWhite == p.capturedWhite &&
      q.capturedBlack == p.capturedBlack && q.winner == p.winner
  {
  }

  /**
   * With a piece selected, a click on a square no legal move reaches only
   * drops the selection; one a legal move reaches records the move as
   * "from-to" and clears the selection.
   */
  lemma ClickMoves(p: Page, square: string, piece: Option<Color>, turn: Color,
                   legal: seq<ChessMove>, verdict: Verdict)
    requires Running(p) && p.moveFrom != ""
    ensures var q := Click(p, square, piece, turn, legal, verdict);
      q.moveFrom == "" &&
      ((forall j :: 0 <= j < |legal| ==> !Matches(legal[j], p.moveFrom, square)) ==>
        q == p.(rightClicked := map[], moveFrom := "")) &&
      ((exists j :: 0 <= j < |legal| && Matches(legal[j], p.moveFrom, square)) ==>
        q.moveHistory == p.moveHistory + [p.moveFrom + "-" + square] &&
        q.winner == Outcome(None, verdict))
  {
  }

  /**
   * The piece taken by the move played lands on the list of the side that
   * lost it, and the other list is unchanged; a move without a capture
   * changes neither.
   */
  lemma ClickRecordsCapture(p: Page, square: string, piece: Option<Color>, turn: Color,
                            legal: seq<ChessMove>, verdict: Verdict, k: int)
    requires Running(p) && p.moveFrom != ""
    requires k == FirstMatch(legal, p.moveFrom, square) && k >= 0
    ensures var q := Click(p, square, piece, turn, legal, verdict);
      var m := legal[k];
      (m.captured.None? ==> q.capturedWhite == p.capturedWhite && q.capturedBlack == p.capturedBlack) &&
      (m.captured.Some? && m.color == White ==>
        q.capturedBlack == p.capturedBlack + [m.captured.value] && q.capturedWhite == p.capturedWhite) &&
      (m.captured.Some? && m.color == Black ==>
        q.capturedWhite == p.capturedWhite + [m.captured.value] && q.capturedBlack == p.capturedBlack)
  {
  }

  /** Checkmate names the side that delivered it; a draw says so; otherwise there is no result yet. */
  lemma OutcomeNames(v: Verdict)
    ensures Outcome(None, v) == Some("White wins by checkmate!") <==>
      v.isGameOver && v.isCheckmate && v.turn == Black
    ensures Outcome(None, v) == Some("Black wins by checkmate!") <==>
      v.isGameOver && v.isCheckmate && v.turn == White
    ensures Outcome(None, v) == Some("Game drawn!") <==> v.isGameOver && !v.isCheckmate && v.isDraw
    ensures Outcome(None, v) == None <==> !v.isGameOver || (!v.isCheckmate && !v.isDraw)
  {
  }

  /** A click keeps the invariant. */
  lemma ClickInv(p: Page, square: string, piece: Option<Color>, turn: Color,
                 legal: seq<ChessMove>, verdict: Verdict)
    requires Inv(p)
    ensures Inv(Click(p, square, piece, turn, legal, verdict))
  {
  }

  /** "Start Game". */
  function Start(p: Page): Page
  {
    p.(isGameStarted := true)
  }

  /** Starting keeps the invariant, and a game started fresh is running. */
  lemma StartInv(p: Page)
    requires Inv(p)
    ensures Inv(Start(p))
    ensures p.winner.None? ==> Running(Start(p))
  {
  }

  /** The page state in fields. */
  class ChessPage {
    var moveFrom: string
    var rightClickedSquares: Marks
    var whiteTime: int
    var blackTime: int
    var isGameStarted: bool
    var winner: Option<string>
    var moveHistory: seq<string>
    var capturedWhitePieces: seq<string>
    var capturedBlackPieces: seq<string>

    ghost function State(): Page
      reads this
    {
      Page(moveFrom, rightClickedSquares, whiteTime, blackTime, isGameStarted, winner,
        moveHistory, capturedWhitePieces, capturedBlackPieces)
    }

    ghost predicate Valid()
      reads this
    {
      Inv(State())
    }

    constructor ()
      ensures Valid() && State() == Initial
    {
      moveFrom := "";
      rightClickedSquares := map[];
      whiteTime := 0;
      blackTime := 0;
      isGameStarted := false;
      winner := None;
      moveHistory := [];
      capturedWhitePieces := [];
      capturedBlackPieces := [];
    }

    /** One firing of the one-second interval; `turn` is `game.turn()`. */
    method Tick(turn: Color)
      requires Valid()
      modifies this
      ensures Valid() && State() == ClockTick(old(State()), turn)
    {
      TickInv(State(), turn);
      if !isGameStarted || winner.Some? {
        return;
      }
      if turn == White {
        whiteTime := whiteTime + 1;
      } else {
        blackTime := blackTime + 1;
      }
    }

    /** `onSquareRightClick(square)`. */
    method OnSquareRightClick(square: string)
      requires Valid()
      modifies this
      ensures Valid() && State() == old(State()).(rightClicked := ToggleMark(old(rightClickedSquares), square))
    {
      var marked := square in rightClickedSquares && rightClickedSquares[square] == Some(MarkColour);
      rightClickedSquares := rightClickedSquares[square := if marked then None else Some(MarkColour)];
    }

    /** `onSquareClick(square)` with superposition mode off and no superposition pending. */
    method OnSquareClick(square: string, piece: Option<Color>, turn: Color,
                         legal: seq<ChessMove>, verdict: Verdict)
      requires Valid()
      modifies this
      ensures Valid() && State() == Click(old(State()), square, piece, turn, legal, verdict)
    {
      ClickInv(State(), square, piece, turn, legal, verdict);
      if !isGameStarted || winner.Some? {
        return;
      }
      rightClickedSquares := map[];
      if moveFrom == "" {
        SelectFrom(square, piece, turn);
      } else {
        MoveSelectedTo(square, legal, verdict);
      }
    }

    /** The "from square" branch of `onSquareClick`. */
    method SelectFrom(square: string, piece: Option<Color>, turn: Color)
      modifies this
      ensures State() == Select(old(State()), square, piece, turn)
    {
      if piece.Some? && piece.value == turn {
        moveFrom := square;
      }
    }

    /** The "to square" branch of `onSquareClick`. */
    method MoveSelectedTo(square: string, legal: seq<ChessMove>, verdict: Verdict)
      modifies this
      ensures State() == MoveTo(old(State()), square, legal, verdict)
    {
      var i := FirstMatch(legal, moveFrom, square);
      if i != -1 {
        RecordCaptureOf(legal[i]);
        moveHistory := moveHistory + [moveFrom + "-" + square];
        if verdict.isGameOver {
          if verdict.isCheckmate {
            winner := Some(if verdict.turn == White then "Black wins by checkmate!" else "White wins by checkmate!");
          } else if verdict.isDraw {
            winner := Some("Game drawn!");
          }
        }
      }
      moveFrom := "";
    }

    /** The capture bookkeeping of a played move. */
    method RecordCaptureOf(move: ChessMove)
      modifies this
      ensures State() == RecordCapture(old(State()), move)
    {
      if move.captured.Some? {
        if move.color == White {
          capturedBlackPieces := capturedBlackPieces + [move.captured.value];
        } else {
          capturedWhitePieces := capturedWhitePieces + [move.captured.value];
        }
      }
    }

    /** The "Start Game" button. */
    method StartGame()
      requires Valid()
      modifies this
      ensures Valid() && State() == Start(old(State()))
    {
      StartInv(State());
      isGameStarted := true;
    }

    /** The "Reset Game" button. */
    method ResetGame()
      modifies this
      ensures Valid() && State() == Initial
    {
      moveFrom := "";
      rightClickedSquares := map[];
      whiteTime := 0;
      blackTime := 0;
      isGameStarted := false;
      winner := None;
      moveHistory := [];
      capturedWhitePieces := [];
      capturedBlackPieces := [];
    }
  }
}
