# Tic-tac-toe game state, modelled in Dafny

This project models the game-state core of a browser tic-tac-toe game with
move history and time travel (`src/App.jsx`). The model has two modules.

- `TicTacToe` (tictactoe.dfy) is the board evaluator. A board is a sequence
  of nine cells in row-major order. Each cell is empty (`None`, null in the
  game) or holds the mark `X` or `O`. `CalculateWinner` scans the fixed
  table of eight lines: rows top to bottom, columns left to right, then the
  0-4-8 and 2-4-6 diagonals. It reports the first line whose three cells
  hold the same mark, together with that mark. `ScanWinner` is the same
  search written as the game writes it, a loop with an early return.
  `Status` derives what the game shows above the board: a winner, a draw,
  or the next player.
- `GameHistory` (game.dfy) is the session. The class `Game` holds
  `history`, the board snapshots, and `currentMove`, the cursor selecting
  the displayed one. `PlaySquare` is the click handler: it ignores a click
  on an occupied square or on a won board. Otherwise it copies the
  displayed board into a fresh array and writes the mark of the player to
  move into the copy. X moves when the cursor is even. `HandlePlay` then
  keeps snapshots `0..currentMove`, appends the new board and moves the
  cursor to it. `JumpTo` moves only the cursor.

The object invariant `Game.Valid` has three parts: the history is
non-empty, the cursor is inside it, and every snapshot has nine cells.
`WellPlayed` is a stronger property of a history that only clicks have
built. It says the history starts at the empty board and that each
snapshot adds one mark to the one before, X and O taking turns, on a board
nobody had won. The constructor establishes it and `PlaySquare` preserves
it. The lemmas about it count the marks: after move `k`, X has made
`(k + 1) / 2` moves and O has made `k / 2`. They also show that a history
holds at most ten snapshots, and that a full board appears only after
move 9.

The three methods `TopRowGame`, `DrawnGame` and `JumpBackAndBranch` are
worked games that use the contracts above:

- X wins along the top row, and a later click is ignored.
- Nine moves fill the board without a line, and the game is a draw.
- A jump back to the start keeps every snapshot, and a move made from
  there discards all of them but the first.

The game writes the player to move as `'X'` or as the digit `'0'`
(src/App.jsx:34), while O's squares and the winner line show the letter
`'O'` (src/App.jsx:20, 29). The model follows the code in `StatusTextAsWritten` and records the difference under
Findings. The corrected `StatusText` uses the letter, and `Game.StatusLine` shows it.

## Model

| member | source | states |
|---|---|---|
| `TicTacToe.PlayerToMove` | src/App.jsx:63 | the mark that moves after a given number of moves: X on an even count, O on an odd one; `MarksAfterMoves` ties it to the marks on the board |
| `TicTacToe.Complete` | src/App.jsx:137-138 | the test applied to one line: its first cell is non-null and the other two equal it; `WinnerHoldsLine` shows such a line is held by one mark |
| `TicTacToe.Full` | src/App.jsx:31 | every cell is non-null; `MarksFillBoard` ties it to the mark counts |
| `TicTacToe.ScanFrom` | src/App.jsx:136-142 | the search over the table from a given position, returning the first complete line with its mark; its properties are stated by `ScanFromSound`, `ScanFromReportsFirst` and `ScanFromFindsFirst` |
| `TicTacToe.CalculateWinner` | src/App.jsx:125-143 | the winner of a board with its line, or none; its properties are stated by `WinnerHoldsLine`, `NoWinnerIffNoCompleteLine`, `WinnerIsFirstInTableOrder`, `WinnerHasNoEarlierLine` and `FilledLineWins`, and `ScanWinner` is proved to compute it |
| `TicTacToe.CanPlay` | src/App.jsx:13 | a click on a square is accepted exactly when the square is null and the board has no winner; `NextIffSomeMoveAccepted` relates it to the status |
| `TicTacToe.ScanWinner` | src/App.jsx:125-143 | the loop over the eight lines, which returns at the first line whose cells are equal and non-null, gives exactly `CalculateWinner` of the board |
| `TicTacToe.ScanFromSound` | src/App.jsx:136-142 | the search from table position k reports a line of the table at or after k that the reported mark holds in all three cells; it reports nothing exactly when no line from k on is complete |
| `TicTacToe.WinnerHoldsLine` | src/App.jsx:126-139 | a reported line is one of the eight listed triples, and all three of its cells equal the reported, non-null mark |
| `TicTacToe.NoWinnerIffNoCompleteLine` | src/App.jsx:136-142 | the result is null exactly when none of the eight triples has three equal non-null cells |
| `TicTacToe.WinnerIsFirstInTableOrder` | src/App.jsx:126-139 | when line j is complete and no earlier line is, the result is line j and its mark, so of several complete lines the first in table order is returned |
| `TicTacToe.WinnerHasNoEarlierLine` | src/App.jsx:126-139 | a reported line is complete and every line listed before it is not |
| `TicTacToe.FilledLineWins` | src/App.jsx:126-139 | a board on which one mark fills any listed line has a winner, reported on that line or on an earlier one |
| `TicTacToe.Status` | src/App.jsx:25-35 | Winner exactly when `CalculateWinner` reports one, naming its mark, so the first complete line in table order decides; the winner holds a full line; Draw exactly when no line is complete and every cell is non-null; otherwise Next, naming X when X is next and O otherwise |
| `TicTacToe.NextIffSomeMoveAccepted` | src/App.jsx:12-35 | the status asks for a next player exactly when a click on some square would be accepted, so after a win or a draw every click is ignored |
| `TicTacToe.StatusTextAsWritten` | src/App.jsx:28-35 | the status line as formatted, with O named by the digit '0'; the line reads "Draw" exactly for a draw |
| `TicTacToe.StatusTextAsWrittenMisnamesO` | src/App.jsx:34 | the formatted line for O to move is "Next player: 0", whose last character is not the 'O' that O's squares show |
| `TicTacToe.StatusText` | src/App.jsx:28-35 | the corrected status line reads "Draw" exactly for a draw, and otherwise ends with the character that the named player's squares show |
| `TicTacToe.StatusTextInjective` | src/App.jsx:28-35 | distinct statuses are shown as distinct corrected lines |
| `GameHistory.PlaceMark` | src/App.jsx:101-106 | the copied board has nine cells, holds the mark at the clicked index and equals the original at every other index |
| `GameHistory.CountAfterMark` | src/App.jsx:101-106 | writing a mark into an empty cell adds one to that mark's count and leaves the other mark's count alone |
| `GameHistory.MarksFillBoard` | src/App.jsx:31 | the marks on a board never outnumber its cells, and they equal the cell count exactly when every cell is non-null |
| `GameHistory.StepAddsOneMark` | src/App.jsx:63-106 | each recorded move adds one mark of the player selected by cursor parity and none of the other player's |
| `GameHistory.MarksAfterMoves` | src/App.jsx:63-106 | after k moves of a played history X has made (k + 1) / 2 moves and O k / 2, so X is next exactly when the two counts are equal |
| `GameHistory.HistoryAtMostTenBoards` | src/App.jsx:66-70 | a played history holds at most ten snapshots, and a full board can only be snapshot 9 |
| `GameHistory.NoMoveAfterWin` | src/App.jsx:98-100 | every snapshot of a played history except the last has no winner, since no move is accepted on a won board |
| `GameHistory.BranchKeepsWellPlayed` | src/App.jsx:66-70 | keeping snapshots 0..n of a played history and appending a move made from snapshot n gives a played history again |
| `GameHistory.Game.constructor` | src/App.jsx:60-61 | the game starts with a single all-null board and cursor 0; the invariants hold and the history is a played one |
| `GameHistory.Game.CurrentSquares` | src/App.jsx:64 | the displayed board is a snapshot of the history and has nine cells |
| `GameHistory.Game.CurrentStatus` | src/App.jsx:25-35 | the status of the displayed board asks for a next player exactly when some click would be accepted; that player is X on an even cursor and O on an odd one; the status is Winner exactly when some line is complete, and then names the mark `CalculateWinner` reports for the displayed board |
| `GameHistory.Game.StatusLine` | src/App.jsx:28-35 | the line shown above the board reads "Draw" exactly for a draw; while a player is to move it ends with that player's board character, X on an even cursor and O on an odd one (the corrected form of line 34) |
| `GameHistory.Game.HandlePlay` | src/App.jsx:66-70 | the history becomes `history[..currentMove+1] + [nextSquares]` and the cursor its last index; snapshots 0..currentMove are kept and later ones discarded |
| `GameHistory.Game.JumpTo` | src/App.jsx:72-74 | the cursor becomes the target and the history is unchanged |
| `GameHistory.Game.PlaySquare` | src/App.jsx:12-23 | a click on an occupied square or a won board leaves history and cursor unchanged; otherwise the history becomes the kept prefix plus the displayed board with the clicked cell set to X on an even cursor and O on an odd one, and the cursor moves to it; the invariants and a played history are preserved |
| `GameHistory.TopRowGame` | src/App.jsx:12-35 | after clicks on 0, 4, 1, 5, 2 the status is Winner X on line 0-1-2, and a further click on 6 changes nothing |
| `GameHistory.DrawnGame` | src/App.jsx:25-35 | after clicks on 0, 1, 2, 4, 3, 5, 7, 6, 8 there is no winner and the status is Draw |
| `GameHistory.JumpBackAndBranch` | src/App.jsx:66-74 | after three moves, a jump to move 0 keeps all four snapshots and shows the empty board; a move from there leaves exactly the empty board and the new one |

## Left out

- The `Square` component, the board-row layout and the move-list markup (src/App.jsx:3-9, 37-56, 76-92) are rendering only.
- The sort-order toggle (`sortAscending`, `sortedMoves`) is left out. It only reorders the rendered move list and never touches the history or the cursor.
- The move-list labels ("Go to move #", "You are at move #") are display formatting and are left out.
- The React state hooks and the `onClick`/`onPlay` wiring are modelled as plain field assignments and method calls.
- `Board.handleClick` (src/App.jsx:12-23) is the handler the squares call (src/App.jsx:39). `Game.handleSquareClick` (src/App.jsx:96-108) is the same code but is never called: the board is given `handlePlay` directly (src/App.jsx:113). `Board` receives the displayed snapshot and the cursor parity as props, so both are modelled once, as `Game.PlaySquare`. The unused `location` argument is dropped.
- Game.PlaySquare: the square index is limited to 0..8. Only nine squares are rendered, so no other index reaches the handler. JavaScript would instead grow the copied array.
- Game.HandlePlay: requires a nine-cell board. Its only callers pass a copy of a displayed board.
- Game.JumpTo: requires a target inside the history. The move list only offers existing moves.
- Status: the status is modelled as a datatype. The strings are produced separately by `StatusTextAsWritten` and `StatusText`.

## Findings

| source | as written | input that shows it | evidently intended | confidence | as-written member | corrected member |
|---|---|---|---|---|---|---|
| src/App.jsx:34 | the player to move is named `'0'` (digit zero) when it is O | any unwon, unfilled board at an odd move, e.g. after X's first click: the line reads "Next player: 0" | "Next player: O", the letter shown on O's squares and in "Winner: O" | high; not executed | `TicTacToe.StatusTextAsWritten` (with `TicTacToe.StatusTextAsWrittenMisnamesO`) | `TicTacToe.StatusText` |
