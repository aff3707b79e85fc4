/**
 * The home page's chess board: two ten-minute countdown clocks, the capture
 * lists and the numbered move history that `safeGameMutate` rebuilds after
 * every drop. The chess rules themselves (legality, the side to move, the
 * history chess.js keeps, game over) are parameters; moves are the verbose
 * chess.js moves of the chess page model.
 */
module HomePage {
  import opened Wrappers
  import Text
  import Chess

  // ----- formatTime -----

  /**
   * `formatTime(seconds)`: the minutes `Math.floor(seconds / 60)`, a colon,
   * and the remainder `seconds % 60` with a "0" glued in front when it is
   * below ten.
   */
  function FormatTime(seconds: int): string
  {
    var s := Chess.JsRem(seconds, 60);
    Text.IntToString(seconds / 60) + ":" + (if s < 10 then "0" + Text.IntToString(s) else Text.IntToString(s))
  }

  /** The seconds part: a "0" in front of one digit, two digits as they are. */
  lemma ZeroPaddedSeconds(r: nat)
    requires r < 60
    ensures (if r < 10 then "0" + Text.IntToString(r) else Text.IntToString(r)) == Chess.TwoDigits(r)
  {
    if r >= 10 {
      assert Text.NatToString(r) == Text.NatToString(r / 10) + [Text.DigitChar(r % 10)];
      assert Text.NatToString(r / 10) == [Text.DigitChar(r / 10)];
    } else {
      assert Text.NatToString(r) == [Text.DigitChar(r)];
      assert Text.DigitChar(0) == '0';
    }
  }

  /** For a non-negative count the home page shows the same clock as the chess page. */
  lemma FormatTimeAgrees(s: nat)
    ensures FormatTime(s) == Chess.FormatTime(s)
    ensures FormatTime(s) == Text.NatToString(s / 60) + ":" + Chess.TwoDigits(s % 60)
  {
    ZeroPaddedSeconds(s % 60);
    Chess.FormatTimeDigits(s);
  }

  /** The clock of a non-negative count reads back as that count. */
  lemma FormatTimeRoundTrip(s: nat)
    ensures Chess.ParseClock(FormatTime(s)) == Some(s)
  {
    FormatTimeAgrees(s);
    Chess.FormatTimeRoundTrip(s);
  }

  /**
   * Below zero the two pages part ways: JavaScript's remainder is negative,
   * `padStart` leaves "-5" alone while this page still glues a "0" in front.
   */
  lemma NegativeClocksDiffer()
    ensures FormatTime(-5) == "-1:0-5"
    ensures Chess.FormatTime(-5) == "-1:-5"
  {
    assert Chess.JsRem(-5, 60) == -5;
    assert Text.NatToString(1) == "1";
    assert Text.NatToString(5) == "5";
    assert Text.IntToString(-1) == "-1";
    assert Text.IntToString(-5) == "-5";
  }

  // ----- the countdown -----

  /** Ten minutes, the value both clocks start from. */
  const TenMinutes: int := 600

  /** `prev > 0 ? prev - 1 : 0`. */
  function Decrement(t: int): (r: int)
    ensures r >= 0
    ensures t > 0 ==> r == t - 1
    ensures t <= 0 ==> r == 0
  {
    if t > 0 then t - 1 else 0
  }

  /** The seconds left on both clocks. */
  datatype Clocks = Clocks(white: int, black: int)

  /**
   * One firing of the interval: nothing before "Start Game" (no interval
   * exists) or once chess.js reports the game over; otherwise the clock of the
   * side to move loses a second, stopping at zero.
   */
  function CountdownTick(c: Clocks, started: bool, gameOver: bool, turn: Chess.Color): Clocks
  {
    if !started || gameOver then c
    else if turn == Chess.White then c.(white := Decrement(c.white))
    else c.(black := Decrement(c.black))
  }

  /** A tick touches only the clock of the side to move and never takes it below zero. */
  lemma TickTouchesOneClock(c: Clocks, started: bool, gameOver: bool, turn: Chess.Color)
    requires c.white >= 0 && c.black >= 0
    ensures var d := CountdownTick(c, started, gameOver, turn);
      d.white >= 0 && d.black >= 0 &&
      (!started || gameOver ==> d == c) &&
      (started && !gameOver && turn == Chess.White ==> d.black == c.black && d.white == Decrement(c.white)) &&
      (started && !gameOver && turn == Chess.Black ==> d.white == c.white && d.black == Decrement(c.black))
  {
  }

  /** The clocks after a run of ticks in a started game that is not over, with the side to move at each. */
  function Countdown(c: Clocks, turns: seq<Chess.Color>): Clocks
    decreases |turns|
  {
    if turns == [] then c else Countdown(CountdownTick(c, true, false, turns[0]), turns[1..])
  }

  function Max(a: int, b: int): int
  {
    if a >= b then a else b
  }

  /**
   * Over a run of ticks each clock loses exactly the seconds during which its
   * side was to move, until it reaches zero and stays there.
   */
  lemma {:induction false} CountdownAddsUp(c: Clocks, turns: seq<Chess.Color>)
    requires c.white >= 0 && c.black >= 0
    ensures Countdown(c, turns).white == Max(c.white - Chess.Count(turns, Chess.White), 0)
    ensures Countdown(c, turns).black == Max(c.black - Chess.Count(turns, Chess.Black), 0)
    decreases |turns|
  {
    if turns != [] {
      CountdownAddsUp(CountdownTick(c, true, false, turns[0]), turns[1..]);
    }
  }

  // ----- safeGameMutate -----

  /**
   * The capture lists after `safeGameMutate`: the last move of the history, if
   * it took a piece, adds it to the lost pieces of the side that did not move.
   * Results are `(capturedWhite, capturedBlack)`.
   */
  function RecordLastCapture(capturedWhite: seq<string>, capturedBlack: seq<string>,
                             history: seq<Chess.ChessMove>): (seq<string>, seq<string>)
  {
    if history == [] || history[|history| - 1].captured.None? then (capturedWhite, capturedBlack)
    else
      var last := history[|history| - 1];
      if last.color == Chess.White then (capturedWhite, capturedBlack + [last.captured.value])
      else (capturedWhite + [last.captured.value], capturedBlack)
  }

  /**
   * A capture by White lands on `capturedBlack` and one by Black on
   * `capturedWhite`, the other list unchanged; no last move or a last move
   * without a capture changes neither.
   */
  lemma LastCaptureAttributed(capturedWhite: seq<string>, capturedBlack: seq<string>,
                              history: seq<Chess.ChessMove>)
    ensures var (w, b) := RecordLastCapture(capturedWhite, capturedBlack, history);
      (history == [] || history[|history| - 1].captured.None? ==> w == capturedWhite && b == capturedBlack) &&
      (history != [] && history[|history| - 1].captured.Some? && history[|history| - 1].color == Chess.White ==>
        w == capturedWhite && b == capturedBlack + [history[|history| - 1].captured.value]) &&
      (history != [] && history[|history| - 1].captured.Some? && history[|history| - 1].color == Chess.Black ==>
        b == capturedBlack && w == capturedWhite + [history[|history| - 1].captured.value])
    ensures var (w, b) := RecordLastCapture(capturedWhite, capturedBlack, history);
      |w| + |b| == |capturedWhite| + |capturedBlack| + (if history != [] && history[|history| - 1].captured.Some? then 1 else 0)
  {
  }

  /** `${i % 2 === 0 ? Math.floor(i / 2 + 1) + '.' : ''} ${move.from}-${move.to}`. */
  function MoveLabel(i: nat, m: Chess.ChessMove): string
  {
    (if i % 2 == 0 then Text.NatToString(i / 2 + 1) + "." else "") + " " + m.from + "-" + m.to
  }

  /** `history.map(...)`: one entry per move of the history. */
  function HistoryLabels(history: seq<Chess.ChessMove>): (labels: seq<string>)
    ensures |labels| == |history|
  {
    seq(|history|, i requires 0 <= i < |history| => MoveLabel(i, history[i]))
  }

  /**
   * Entry i of the labels is " from-to" of move i, prefixed with the move
   * number k and a dot exactly when i is even (a White move), where k reads
   * back as i / 2 + 1.
   */
  lemma HistoryLabelsShape(history: seq<Chess.ChessMove>, i: nat)
    requires i < |history|
    ensures var entry := HistoryLabels(history)[i];
      var tail := " " + history[i].from + "-" + history[i].to;
      |entry| >= |tail| && entry[|entry| - |tail|..] == tail &&
      (i % 2 == 1 ==> entry == tail) &&
      (i % 2 == 0 ==>
        var k := entry[..|entry| - |tail|];
        |k| >= 2 && k[|k| - 1] == '.' && Text.AllDigits(k[..|k| - 1]) && Text.ParseNat(k[..|k| - 1]) == i / 2 + 1)
  {
    var entry := HistoryLabels(history)[i];
    var tail := " " + history[i].from + "-" + history[i].to;
    if i % 2 == 0 {
      var number := Text.NatToString(i / 2 + 1);
      assert entry == (number + ".") + tail;
      assert entry[..|entry| - |tail|] == number + ".";
      assert (number + ".")[..|number|] == number;
      Text.ParseNatToString(i / 2 + 1);
    } else {
      assert entry == "" + tail;
    }
  }

  /** White's move and Black's reply carry one move number between them, and it counts the turns. */
  lemma HistoryNumbersTurns(history: seq<Chess.ChessMove>, k: nat)
    requires 2 * k < |history|
    ensures HistoryLabels(history)[2 * k] == Text.NatToString(k + 1) + ". " + history[2 * k].from + "-" + history[2 * k].to
    ensures 2 * k + 1 < |history| ==>
      HistoryLabels(history)[2 * k + 1] == " " + history[2 * k + 1].from + "-" + history[2 * k + 1].to
  {
    assert (2 * k) / 2 + 1 == k + 1;
    assert (2 * k + 1) % 2 == 1;
  }

  /** How a drop handler ends: with a return value, or by throwing. */
  datatype DropOutcome = Returned(accepted: bool) | Threw

  /** The page state this model keeps. */
  class HomeGame {
    var whiteTime: int
    var blackTime: int
    var turn: Chess.Color
    var started: bool
    var moveHistory: seq<string>
    var capturedWhite: seq<string>
    var capturedBlack: seq<string>

    /** Both clocks stay between zero and ten minutes. */
    ghost predicate Valid()
      reads this
    {
      0 <= whiteTime <= TenMinutes && 0 <= blackTime <= TenMinutes
    }

    constructor ()
      ensures Valid()
      ensures whiteTime == TenMinutes && blackTime == TenMinutes && turn == Chess.White && !started
      ensures moveHistory == [] && capturedWhite == [] && capturedBlack == []
    {
      whiteTime := TenMinutes;
      blackTime := TenMinutes;
      turn := Chess.White;
      started := false;
      moveHistory := [];
      capturedWhite := [];
      capturedBlack := [];
    }

    /** "Start Game". */
    method Start()
      requires Valid()
      modifies `started
      ensures Valid() && started
    {
      started := true;
    }

    /** One firing of the one-second interval; `gameOver` is `game.isGameOver()`. */
    method Tick(gameOver: bool)
      requires Valid()
      modifies `whiteTime, `blackTime
      ensures Valid()
      ensures Clocks(whiteTime, blackTime) == CountdownTick(old(Clocks(whiteTime, blackTime)), started, gameOver, turn)
    {
      if !started || gameOver {
        return;
      }
      if turn == Chess.White {
        whiteTime := if whiteTime > 0 then whiteTime - 1 else 0;
      } else {
        blackTime := if blackTime > 0 then blackTime - 1 else 0;
      }
    }

    /**
     * `safeGameMutate` once chess.js has applied the change: `newTurn` is the
     * side to move and `history` the verbose history of the updated game.
     */
    method SafeGameMutate(newTurn: Chess.Color, history: seq<Chess.ChessMove>)
      requires Valid()
      modifies `turn, `capturedWhite, `capturedBlack, `moveHistory
      ensures Valid() && turn == newTurn
      ensures (capturedWhite, capturedBlack) == RecordLastCapture(old(capturedWhite), old(capturedBlack), history)
      ensures moveHistory == HistoryLabels(history)
    {
      turn := newTurn;
      if |history| > 0 {
        var lastMove := history[|history| - 1];
        if lastMove.captured.Some? {
          if lastMove.color == Chess.White {
            capturedBlack := capturedBlack + [lastMove.captured.value];
          } else {
            capturedWhite := capturedWhite + [lastMove.captured.value];
          }
        }
      }
      moveHistory := HistoryLabels(history);
    }

    /**
     * `onDrop` as written: refused before "Start Game"; afterwards its first
     * test reads `superMode`, which the page never declares, so the handler
     * throws a `ReferenceError` before it changes any state.
     */
    method OnDropAsWritten() returns (outcome: DropOutcome)
      requires Valid()
      ensures !started ==> outcome == Returned(false)
      ensures started ==> outcome == Threw
    {
      if !started {
        return Returned(false);
      }
      return Threw;
    }

    /**
     * `onDrop` for an ordinary move, as the page evidently means it once its
     * superposition state is declared and switched off: ignored before
     * "Start Game"; otherwise the state is rebuilt from chess.js, and the
     * answer is whether chess.js accepted the move.
     */
    method OnDrop(moveMade: bool, newTurn: Chess.Color, history: seq<Chess.ChessMove>) returns (accepted: bool)
      requires Valid()
      modifies `turn, `capturedWhite, `capturedBlack, `moveHistory
      ensures Valid()
      ensures !old(started) ==>
        !accepted && turn == old(turn) && moveHistory == old(moveHistory) &&
        capturedWhite == old(capturedWhite) && capturedBlack == old(capturedBlack)
      ensures old(started) ==>
        accepted == moveMade && turn == newTurn && moveHistory == HistoryLabels(history) &&
        (capturedWhite, capturedBlack) == RecordLastCapture(old(capturedWhite), old(capturedBlack), history)
    {
      if !started {
        return false;
      }
      SafeGameMutate(newTurn, history);
      return moveMade;
    }
  }
}
