# Quantum Arcade game rules in Dafny

The Quantum Arcade is a set of small browser games. Each game page keeps its
own state and changes it on a click, a key press or a timer. This project
models the rule logic of those pages and proves what each handler promises:

- **Sudoku** (`sudoku.dfy`): the backtracking solver works in place on a 9×9
  `array2<string>`. The model covers `isValid`, `solve`, `solveSudoku`, the
  static puzzle, cell editing with its input filter, the completion check and
  `isInitial`.
- **Sliding 8-puzzle** (`sliding_puzzle.dfy`): a 3×3 `array2` of tiles with
  `None` as the empty cell. The model covers `findEmptyTile`, `isAdjacent` and
  the in-place swap of `handleTileClick`.
- **Quantum tic-tac-toe** (`tic_tac_toe.dfy`): the two-click move recorder as a
  class over `moves`, `selected`, `isXNext` and `moveId`.
- **Memory match** (`memory.dfy`): the Fisher–Yates shuffle on an array with
  the random index as an arbitrary choice in `[0, i]`, dealing, and the
  flip/lock/match machine. The two 800 ms timeouts are an explicit `Resolve`
  step.
- **Maze** (`maze.dfy`): the constant 8×8 maze and `movePlayer`.
- **Quantum chess page** (`chess_page.dfy`): `formatTime`, the right-click
  marks, the one-second clock tick, and the ordinary (non-superposition)
  branch of the left-click handler, including the capture lists, the move
  history and the result.
- **Home page chess board** (`home_page.dfy`): `formatTime`, the countdown
  tick, and the capture and history bookkeeping of `safeGameMutate`. The
  drop handler `onDrop` reads `superMode` and `setSuperposedPieces`, which
  the page never declares. As written it throws on every drop after the
  start, so `safeGameMutate`, which only `onDrop` calls, never runs. The
  model keeps both halves: `OnDropAsWritten` as the code stands, and `OnDrop`
  as the page evidently means it, with superposition switched off (see
  Findings).

Helper modules: `Wrappers` (`Option`, standing for `null`/`undefined`), `Text`
(decimal rendering as JavaScript prints integers, and a parser for round
trips) and `Grids` (2-D boards as values and as arrays).

Everything chess.js decides is a parameter of the handler that asks for it:
the piece on a square, the side to move, the legal moves, the verbose history
and the game-over verdicts. Random numbers are likewise an arbitrary choice,
and each timer callback is an explicit step. Integers are unbounded.
JavaScript's `%` is modelled as truncating (`Chess.JsRem`), and
`Math.floor(x / 60)` is Dafny's `/` by a positive divisor.

## Model

| member | source | states |
|---|---|---|
| `Sudoku.IsValid` | app/sudoku/page.tsx:40-48 | true exactly when `val` stands in no cell of the row, the column or the 3×3 box of (r, c) |
| `Sudoku.StepsCoverUnits` | app/sudoku/page.tsx:41-46 | the nine loop steps of `isValid` together reach every cell that shares a row, column or box with (r, c) |
| `Sudoku.Solve` | app/sudoku/page.tsx:50-67 | on true no blank cell remains; on false the grid equals its state on entry; every given is kept and only "1".."9" is written into blanks; a grid without duplicates in any row, column or box keeps that property |
| `Sudoku.PlaceKeepsConsistent` | app/sudoku/page.tsx:56-57 | writing a value that `isValid` admits into a blank cell adds no duplicate to any row, column or box |
| `Sudoku.PlaceShrinksBlanks` | app/sudoku/page.tsx:53-57 | a tentative write removes exactly its cell from the set of blanks, so the recursion ends |
| `Sudoku.PlaceUndone` | app/sudoku/page.tsx:57-59 | resetting a tentative write to "" gives back the board it was made on |
| `Sudoku.TentativeWriteSucceeds` | app/sudoku/page.tsx:56-58 | when the recursive call succeeds after a write, the final board keeps the entry board's givens and its freedom from duplicates |
| `Sudoku.ExtendsTransitive` | app/sudoku/page.tsx:53-58 | keeping the givens and writing only digits composes across nested calls |
| `Sudoku.CandidateIsDigit` | app/sudoku/page.tsx:54-55 | `String(n)` for n in 1..9 is one of "1".."9" |
| `Sudoku.ToGrid` | app/sudoku/page.tsx:33 | the copy handed to the solver is a fresh grid holding the puzzle |
| `Sudoku.SolveSudoku` | app/sudoku/page.tsx:39-71 | the returned board keeps the givens, is either the puzzle itself or has no blank, and has no duplicates when the puzzle had none |
| `Sudoku.SudokuPage.constructor` | app/sudoku/page.tsx:5-14 | the page mounts with two empty 9×9 boards and `isComplete` false |
| `Sudoku.SudokuPage.GeneratePuzzle` | app/sudoku/page.tsx:20-37 | the board becomes the static puzzle and the solution the solver's answer for it; `isComplete` is reset |
| `Sudoku.SudokuPage.CheckComplete` | app/sudoku/page.tsx:82-87 | `isComplete` is set true exactly when the board equals the solution in all 81 cells |
| `Sudoku.SudokuPage.HandleCellChange` | app/sudoku/page.tsx:73-80 | an accepted value replaces cell (row, col) only and recomputes `isComplete`; any other value changes nothing; the solution is never touched |
| `Sudoku.InputFilterOnOneChar` | app/sudoku/page.tsx:74 | on one-character input the filter admits exactly "" and "1".."9"; a longer value such as "a5" also passes |
| `Sudoku.IsInitial` | app/sudoku/page.tsx:89 | `isInitial`: the solution has a value at the cell and the board shows it; which cells that locks is stated by `Sudoku.InitialCellsAreGivens` and `Sudoku.TypedAnswerIsInitial` |
| `Sudoku.AcceptsInput` | app/sudoku/page.tsx:74 | the input filter: "" or a value containing a digit 1-9; its meaning on one-character input is stated by `Sudoku.InputFilterOnOneChar` |
| `Sudoku.InitialCellsAreGivens` | app/sudoku/page.tsx:89 | whenever the solution keeps the puzzle's givens (as the solver's answer does), the cells `isInitial` locks on the puzzle are exactly the givens |
| `Sudoku.TypedAnswerIsInitial` | app/sudoku/page.tsx:89 | a blank into which the player types the solution's digit becomes locked as initial |
| `SlidingPuzzle.IsAdjacent` | app/puzzle/page.tsx:33-38 | `isAdjacent`; stated as Manhattan distance one, symmetric and irreflexive by the three lemmas below |
| `SlidingPuzzle.Slide` | app/puzzle/page.tsx:11-20 | the board after a click; what it changes is stated by `SlidingPuzzle.SlideMovesOneTile`, `SlidingPuzzle.SlideKeepsTiles` and `SlidingPuzzle.SlideKeepsOneEmpty` |
| `SlidingPuzzle.AdjacentIsManhattanOne` | app/puzzle/page.tsx:33-38 | `isAdjacent` holds exactly when the two positions are at Manhattan distance 1 |
| `SlidingPuzzle.AdjacentSymmetric` | app/puzzle/page.tsx:33-38 | `isAdjacent` is symmetric |
| `SlidingPuzzle.AdjacentIrreflexive` | app/puzzle/page.tsx:33-38 | no position is adjacent to itself |
| `SlidingPuzzle.EmptyCellIsFirst` | app/puzzle/page.tsx:22-31 | the reference definition of the empty cell is the first `null` in row-major order, or (-1, -1) when there is none |
| `SlidingPuzzle.FirstEmptyUnique` | app/puzzle/page.tsx:22-31 | only one position answers that description |
| `SlidingPuzzle.FindEmptyTile` | app/puzzle/page.tsx:22-31 | the row-major scan returns the first `null`, or (-1, -1) when there is none |
| `SlidingPuzzle.SlideMovesOneTile` | app/puzzle/page.tsx:15-17 | an adjacent click moves the clicked tile into the old empty cell, empties the clicked cell and changes no other cell; any other click changes nothing |
| `SlidingPuzzle.SlideKeepsTiles` | app/puzzle/page.tsx:16-17 | a click keeps the multiset of tiles |
| `SlidingPuzzle.SlideKeepsOneEmpty` | app/puzzle/page.tsx:16-17 | a board with exactly one empty cell still has exactly one after a click |
| `SlidingPuzzle.ClickOnEmptyIsNoop` | app/puzzle/page.tsx:15 | clicking the empty cell itself changes nothing |
| `SlidingPuzzle.StartHasOneEmpty` | app/puzzle/page.tsx:5-9 | the starting layout has exactly one empty cell |
| `SlidingPuzzle.PuzzlePage.constructor` | app/puzzle/page.tsx:5-9 | the page starts on `[[1,2,3],[4,5,6],[7,8,null]]` |
| `SlidingPuzzle.PuzzlePage.HandleTileClick` | app/puzzle/page.tsx:11-20 | the board after the click is `Slide` of the board before, and still has exactly one empty cell |
| `QuantumTicTacToe.Game.constructor` | app/tic-tac-toe/page.tsx:12-15 | no moves, no selection, X to move, next id 1 |
| `QuantumTicTacToe.Game.HandleClick` | app/tic-tac-toe/page.tsx:17-37 | a click on a selected or claimed cell changes nothing; the first valid click only selects; the second appends a move with id `moveId`, player X exactly when `isXNext` and the two selected cells, clears the selection, flips `isXNext` and increments `moveId`; the invariant (ids 1..n, X first and alternating, two distinct cells per move, no cell in two moves, `moveId` = n+1) is kept |
| `QuantumTicTacToe.Claimed` | app/tic-tac-toe/page.tsx:21 | `moves.some(move => move.cells.includes(index))`; tied to the set of claimed cells by `QuantumTicTacToe.CellsOfClaimed` and across a commit by `QuantumTicTacToe.ClaimedAppend` |
| `QuantumTicTacToe.Label` | app/tic-tac-toe/page.tsx:42 | the cell text `${move.player}${move.id}`: the player's letter, then the id's digits; read back by `QuantumTicTacToe.LabelIdentifiesMove` |
| `QuantumTicTacToe.CommitKeepsValid` | app/tic-tac-toe/page.tsx:26-36 | committing two distinct unclaimed cells with the next id and alternating player keeps the moves valid |
| `QuantumTicTacToe.ClaimedAppend` | app/tic-tac-toe/page.tsx:21-32 | after a commit the claimed cells are the old ones plus those of the new move |
| `QuantumTicTacToe.NotClaimedEarlier` | app/tic-tac-toe/page.tsx:21 | no cell of a move was claimed by an earlier one |
| `QuantumTicTacToe.CellsOfClaimed` | app/tic-tac-toe/page.tsx:21 | `moves.some(... includes(index))` agrees with the recursively built set of claimed cells |
| `QuantumTicTacToe.ClaimedCellCount` | app/tic-tac-toe/page.tsx:18-36 | n valid moves claim exactly 2n cells |
| `QuantumTicTacToe.Game.GetCellText` | app/tic-tac-toe/page.tsx:39-49 | a claimed cell shows the first owning move's player and id; otherwise a selected cell shows "X?" or "O?" for the side to move, and any other cell "" |
| `QuantumTicTacToe.LabelIdentifiesMove` | app/tic-tac-toe/page.tsx:42 | the text of move k starts with X for even k and O for odd k, and its digits read back as k+1 |
| `QuantumTicTacToe.Game.Reset` | app/tic-tac-toe/page.tsx:51-56 | no moves, empty selection, X to move, `moveId` 1 |
| `Memory.Shuffle` | app/memory/page.tsx:7-14 | the result has the input's length and is a permutation of it; the input is a value and stays as it was |
| `Memory.PairsEachTwice` | app/memory/page.tsx:34 | any permutation of the doubled emoji list holds each emoji exactly twice and nothing else |
| `Memory.DealCards` | app/memory/page.tsx:35-40 | card i has id i and emoji i and is neither flipped nor matched |
| `Memory.DealtInv` | app/memory/page.tsx:33-45 | a fresh deck of 16 satisfies the invariant, with no card flipped or matched and the game not won |
| `Memory.MemoryPage.constructor` | app/memory/page.tsx:25-31 | the page mounts and deals: the invariant holds and the deck is a shuffle of the pairs |
| `Memory.MemoryPage.Reset` | app/memory/page.tsx:33-45 | 16 cards with ids 0..15 holding each emoji twice, none flipped or matched, `matches` 0, no face-up list, unlocked, and no timeout pending |
| `Memory.MemoryPage.ResetAsWritten` | app/memory/page.tsx:33-45 | as `Reset`, except that a pending timeout stays scheduled |
| `Memory.StaleTimeoutBreaksInv` | app/memory/page.tsx:65-76 | a mismatch timeout that survives a reset brings back the old deck, with its matched cards, while `matches` is 0 |
| `Memory.MemoryPage.HandleCardClick` | app/memory/page.tsx:47-79 | the new state is `Click` of the old one, and the invariant is kept |
| `Memory.Click` | app/memory/page.tsx:47-79 | `handleCardClick` as a transition; its cases are stated by `Memory.IgnoredClickIsNoop`, `Memory.FirstFlipKeepsInv` and `Memory.ClickOnSecond`, its invariant by `Memory.ClickKeepsInv` |
| `Memory.IgnoredClickIsNoop` | app/memory/page.tsx:48 | a click while the board is locked, or on a card already flipped or matched, changes nothing |
| `Memory.ClickKeepsInv` | app/memory/page.tsx:47-79 | every click keeps the invariant: at most two face-up indices, locked exactly while a timeout is pending, `matches` half the matched cards |
| `Memory.FirstFlipKeepsInv` | app/memory/page.tsx:50-55 | the first card of a turn turns up and `flippedIndices` becomes `[index]`; nothing else changes, so the board stays unlocked and `matches` is kept; the invariant holds |
| `Memory.ClickOnSecond` | app/memory/page.tsx:57-76 | the second card locks the board; equal emojis mark both matched and add one to `matches`, different ones schedule turning both back |
| `Memory.MatchKeepsInv` | app/memory/page.tsx:57-64 | a matched pair keeps the invariant |
| `Memory.MismatchKeepsInv` | app/memory/page.tsx:65-76 | a mismatched pair keeps the invariant until its timeout |
| `Memory.MarkMatchedSet` | app/memory/page.tsx:59-61 | marking an unmatched pair adds exactly those two cards to the matched ones |
| `Memory.MemoryPage.Resolve` | app/memory/page.tsx:65-76 | the timeout clears the face-up list and unlocks; after a mismatch the two cards turn back down |
| `Memory.Resolved` | app/memory/page.tsx:65-76 | the 800 ms timeout as a transition; what it does to the deck and the turn is stated by `Memory.ResolveKeepsInv` |
| `Memory.ResolveKeepsInv` | app/memory/page.tsx:65-76 | the timeout keeps the invariant, unlocks, empties the face-up list and keeps `matches`; after a match the deck is unchanged, after a mismatch the two cards of the turn are face down and every other card is as it was |
| `Memory.DeckIsOnlyTurned` | app/memory/page.tsx:47-79 | clicks and timeouts never move an emoji |
| `Memory.MatchesBounded` | app/memory/page.tsx:61 | `matches` stays between 0 and the number of emojis |
| `Memory.WonIffAllMatched` | app/memory/page.tsx:118 | the win banner (`matches === emojiList.length`) shows exactly when every card is matched |
| `Memory.MatchedSetBound` | app/memory/page.tsx:118 | at most all cards are matched, and all exactly when the matched count equals the deck size |
| `Maze.CellAt` | app/maze/page.tsx:34-38 | a cell is read exactly when the position is on the grid, `undefined` otherwise |
| `Maze.StepMovesOneCoordinate` | app/maze/page.tsx:29-32 | an arrow key changes exactly one coordinate by 1; any other key keeps the position |
| `Maze.Move` | app/maze/page.tsx:22-44 | `movePlayer` as a transition; stated by `Maze.MoveProperties` and, over any key sequence, `Maze.RunKeepsInv` |
| `Maze.MoveProperties` | app/maze/page.tsx:22-44 | a won game ignores the key; a wall or off-grid target keeps the state; otherwise the player is on the target and the game is won exactly when it is the exit; the invariant is kept |
| `Maze.StartInv` | app/maze/page.tsx:7 | the player starts on the `S` cell at (1, 1), playing |
| `Maze.RunKeepsInv` | app/maze/page.tsx:22-44 | after any keys the player stands on a non-wall cell, is won exactly on `E`, and a won game never returns to playing |
| `Maze.ExitReachable` | app/maze/page.tsx:5-14 | eleven arrow presses lead from the start to the exit |
| `Maze.MazePage.constructor` | app/maze/page.tsx:19-20 | position (1, 1), playing |
| `Maze.MazePage.MovePlayer` | app/maze/page.tsx:22-44 | the new state is `Move` of the old one and the invariant is kept |
| `Chess.JsRem` | app/chess/page.tsx:234 | JavaScript's remainder: below the divisor in size; the mathematical remainder for a non-negative dividend, and its negation of the remainder of `-a` for a negative one |
| `Chess.FormatTime` | app/chess/page.tsx:232-236 | `formatTime`; its form for s ≥ 0 is stated by `Chess.FormatTimeDigits` and its inverse by `Chess.FormatTimeRoundTrip` |
| `Chess.PadStart` | app/chess/page.tsx:235 | `padStart`: the string at the end, pad characters in front, length at least n |
| `Chess.PaddedSeconds` | app/chess/page.tsx:234-235 | seconds below 60 are shown as exactly two digits |
| `Chess.FormatTimeDigits` | app/chess/page.tsx:232-236 | for s ≥ 0 the clock is s div 60, ":", and s mod 60 as two digits |
| `Chess.FormatTimeRoundTrip` | app/chess/page.tsx:232-236 | for s ≥ 0 reading the clock back gives s |
| `Chess.ToggleMark` | app/chess/page.tsx:220-230 | the right-click update of the marks; stated by `Chess.ToggleFlipsOneSquare` and `Chess.ToggleTwiceRestores` |
| `Chess.ToggleFlipsOneSquare` | app/chess/page.tsx:220-230 | a right click flips that square's mark and changes no other entry |
| `Chess.ToggleTwiceRestores` | app/chess/page.tsx:220-230 | right-clicking a square twice leaves every mark as before |
| `Chess.InitialInv` | app/chess/page.tsx:14-25 | the initial state is valid and not running |
| `Chess.ClockTick` | app/chess/page.tsx:40-52 | the one-second tick as a transition; stated by `Chess.TickInv` and, over a run of ticks, `Chess.TicksAddUp` |
| `Chess.TickInv` | app/chess/page.tsx:40-52 | a tick keeps the invariant and does nothing unless the game is started and undecided |
| `Chess.TicksAddUp` | app/chess/page.tsx:43-49 | over a run of ticks each clock gains exactly the seconds its side was to move, and nothing else changes |
| `Chess.CountSplits` | app/chess/page.tsx:43-49 | every second is charged to exactly one side |
| `Chess.FirstMatch` | app/chess/page.tsx:189-191 | `moves.find` gives the first move from `moveFrom` to the square, or none |
| `Chess.Click` | app/chess/page.tsx:141-218 | the ordinary left click as a transition; stated by `Chess.ClickGuard`, `Chess.ClickSelects`, `Chess.ClickMoves`, `Chess.ClickRecordsCapture` and `Chess.ClickInv` |
| `Chess.RecordCapture` | app/chess/page.tsx:193-200 | the capture bookkeeping; stated by `Chess.ClickRecordsCapture` |
| `Chess.ClickGuard` | app/chess/page.tsx:141-144 | a click outside a running game changes nothing; inside one it clears all right-click marks; clocks never change |
| `Chess.ClickSelects` | app/chess/page.tsx:176-184 | with nothing selected a click selects the square exactly when it holds a piece of the side to move |
| `Chess.ClickMoves` | app/chess/page.tsx:186-217 | with a piece selected a click drops the selection; a legal target records "from-to" and the result |
| `Chess.ClickRecordsCapture` | app/chess/page.tsx:193-200 | a capture by white goes to `capturedBlackPieces` and one by black to `capturedWhitePieces`, the other list unchanged |
| `Chess.OutcomeNames` | app/chess/page.tsx:206-212 | checkmate names the side that delivered it, a draw says so, otherwise no result |
| `Chess.ClickInv` | app/chess/page.tsx:141-218 | a click keeps the invariant |
| `Chess.StartInv` | app/chess/page.tsx:272 | starting keeps the invariant and makes an undecided game run |
| `Chess.ChessPage.constructor` | app/chess/page.tsx:13-25 | the initial page state |
| `Chess.ChessPage.Tick` | app/chess/page.tsx:40-52 | the clock tick as `ClockTick` |
| `Chess.ChessPage.OnSquareRightClick` | app/chess/page.tsx:220-230 | only that square's entry changes, as `ToggleMark` |
| `Chess.ChessPage.OnSquareClick` | app/chess/page.tsx:141-218 | the left click as `Click`, keeping the invariant |
| `Chess.ChessPage.SelectFrom` | app/chess/page.tsx:177-184 | the "from square" branch: the new page state is `Chess.Select` of the old one |
| `Chess.ChessPage.MoveSelectedTo` | app/chess/page.tsx:187-217 | the "to square" branch: the new page state is `Chess.MoveTo` of the old one |
| `Chess.ChessPage.RecordCaptureOf` | app/chess/page.tsx:194-200 | the capture bookkeeping: the new page state is `Chess.RecordCapture` of the old one |
| `Chess.ChessPage.StartGame` | app/chess/page.tsx:272 | "Start Quantum Game" starts the game |
| `Chess.ChessPage.ResetGame` | app/chess/page.tsx:343-358 | "Reset Game" restores the initial state |
| `HomePage.FormatTime` | app/page.tsx:42-46 | `formatTime`; stated by `HomePage.FormatTimeAgrees`, `HomePage.FormatTimeRoundTrip` and `HomePage.NegativeClocksDiffer` |
| `HomePage.ZeroPaddedSeconds` | app/page.tsx:45 | a "0" in front of one digit and two digits as they are give the same two-digit form |
| `HomePage.FormatTimeAgrees` | app/page.tsx:42-46 | for s ≥ 0 the clock is s div 60, ":", s mod 60 with a leading zero below 10, the same string as the chess page's |
| `HomePage.FormatTimeRoundTrip` | app/page.tsx:42-46 | for s ≥ 0 reading the clock back gives s |
| `HomePage.NegativeClocksDiffer` | app/page.tsx:42-46 | below zero the two pages' clocks differ |
| `HomePage.Decrement` | app/page.tsx:33 | one second less, never below 0 |
| `HomePage.CountdownTick` | app/page.tsx:23-36 | the countdown tick as a transition; stated by `HomePage.TickTouchesOneClock` and `HomePage.CountdownAddsUp` |
| `HomePage.TickTouchesOneClock` | app/page.tsx:23-36 | a tick decrements only the side to move, never below 0, and does nothing before the start or after game over |
| `HomePage.CountdownAddsUp` | app/page.tsx:26-37 | over a run of ticks each clock loses exactly its side's seconds, stopping at 0 |
| `HomePage.RecordLastCapture` | app/page.tsx:56-65 | the capture bookkeeping of `safeGameMutate`; stated by `HomePage.LastCaptureAttributed` |
| `HomePage.LastCaptureAttributed` | app/page.tsx:56-65 | a last move that captured as white appends to `capturedBlack`, as black to `capturedWhite`; no capture changes neither |
| `HomePage.MoveLabel` | app/page.tsx:67-71 | the label of one history entry; stated by `HomePage.HistoryLabelsShape` and `HomePage.HistoryNumbersTurns` |
| `HomePage.HistoryLabels` | app/page.tsx:67-71 | one label per move of the history |
| `HomePage.HistoryLabelsShape` | app/page.tsx:67-71 | entry i ends in " from-to" and starts with "k." exactly when i is even, where k reads back as i/2+1 |
| `HomePage.HistoryNumbersTurns` | app/page.tsx:67-71 | White's move and Black's reply share the move number k+1 |
| `HomePage.HomeGame.constructor` | app/page.tsx:12-20 | ten minutes on both clocks, White to move, not started, empty lists |
| `HomePage.HomeGame.Start` | app/page.tsx:154 | "Start Game" starts the clocks |
| `HomePage.HomeGame.Tick` | app/page.tsx:22-40 | the countdown tick as `CountdownTick`, clocks staying in 0..600 |
| `HomePage.HomeGame.SafeGameMutate` | app/page.tsx:48-72 | the side to move from chess.js, the last capture recorded, and the history labels rebuilt |
| `HomePage.HomeGame.OnDropAsWritten` | app/page.tsx:74-77 | as written: before the start the drop is refused; afterwards the handler throws at the undeclared `superMode` and changes nothing |
| `HomePage.HomeGame.OnDrop` | app/page.tsx:74-121 | as intended, with superposition off: before the start nothing changes and the drop is refused; afterwards the state is rebuilt and the answer is whether chess.js took the move |

## Findings

| source | as written | input that shows it | evidently intended | confidence | as-written member | corrected member |
|---|---|---|---|---|---|---|
| app/page.tsx:74-77 | `onDrop` tests `superMode` (and later calls `setSuperposedPieces`), neither of which the page declares | any drop after "Start Game": the handler throws a `ReferenceError`, no move is made and `safeGameMutate` never runs | a declared superposition flag, off by default, so that an ordinary drop plays the move and updates the turn, captures and history | not executed; high | `HomePage.HomeGame.OnDropAsWritten` | `HomePage.HomeGame.OnDrop` |
| app/memory/page.tsx:33-45 | `resetGame` does not cancel the 800 ms mismatch timeout, which later calls `setCards` with the old deck | match a pair, flip two different cards, press "New Game" within 800 ms: the old deck returns with its matched pair while `matches` is 0 | a new game cancels the pending timeout | not executed; high | `Memory.StaleTimeoutBreaksInv` | `Memory.MemoryPage.Reset` |

## Left out

- Chess rules (legality, check, checkmate, draws, FEN): chess.js is not part of this model. Its answers are parameters.
- The superposition and collapse logic of the chess page (`getMoveOptions`, `collapseQuantumState` and the two superposition branches of `onSquareClick`) is built on chess.js calls and `Math.random()`. The model covers the ordinary branch with no superposition pending and quantum mode off.
- The home page never declares its superposition state (`superMode`, `selectedSquare`, `setSelectedSquare`, `setSuperposedPieces`). Its guard at app/page.tsx:77 is the first thing `onDrop` evaluates after the start, and the ordinary branch calls `setSuperposedPieces` at app/page.tsx:116. `HomePage.HomeGame.OnDropAsWritten` models the resulting throw. `HomePage.HomeGame.OnDrop` models the ordinary branch with those identifiers taken as declared and superposition off. The superposition branch itself is not modelled, because with its state undeclared it has no meaning to model.
- `HomePage.HomeGame.SafeGameMutate`: chess.js is rebuilt from a FEN there, so its history holds at most the move just made. The model takes the history as an arbitrary parameter.
- `Math.random`: the shuffle's index is an arbitrary choice in `[0, i]`. The model does not capture the distribution.
- Timers: `setInterval`/`setTimeout` become explicit `Tick` and `Resolve` steps. React's batching of state updates, stale closures and effect re-subscription are not modelled.
- `Memory.MemoryPage.HandleCardClick`: the source mutates card objects that the old and new arrays share. The model treats cards as values. Cards change only while the board is unlocked or inside the timeout, so that is the same thing here.
- Rendering, styling, piece images, board sizing and the leaderboards are left out. So are `app/layout.tsx`, `app/QuantumArcade.jsx` and `app/chess.js`, which hold no game logic.
- The sudoku `selectedCell` focus state is never read, so it is not modelled.
- `Sudoku.SolveSudoku` does not prove that the static puzzle is solved. That would mean running the search; the contract covers every input.
