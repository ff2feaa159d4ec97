# Tic-tac-toe with move history, in Dafny

This project models the game engine of the tic-tac-toe exercise in
`src/exercise/04.js`. It has two parts.

- **The rules** (module `TicTacToe`, file `tictactoe.dfy`) are pure.
  - A board is nine squares. Each square is empty or holds X or O.
  - `calculateWinner` scans the eight fixed lines (three rows, three
    columns, two diagonals) in table order. It returns the marker of the
    first line whose three squares hold the same marker. This is modelled
    as a loop method, `CalculateWinner`. Its specification is the recursive
    function `Winner`.
  - `calculateNextValue` gives X when an even number of squares are filled
    and O otherwise.
  - `calculateStatus` picks one of three status lines.
- **The move history** (module `History`, file `move_history.dfy`) is the
  state kept by `useMoveHistory`. It holds the board snapshots (`moves`) and
  the index of the board on screen (`currentMoveIndex`).
  - The transitions are pure functions on a `State` value:
    `AfterSelectSquare`, `AfterRestart` and `AfterGoToMove`.
  - The class `MoveHistory` holds the two state cells as fields. Its methods
    `SelectSquare`, `Restart` and `GoToMove` update them in place and are
    proved against those functions. `SelectSquare` copies the board into a
    fresh array and writes the square in place, as the source does.

The main invariant is `IsPlayed`. It says the history starts from the empty
board and that every later board is one allowed move after the one before
it. An allowed move needs no winner yet and an empty square, and it places
the next player's marker there. `IsPlayed` is kept by every operation. From
it the model proves these facts about board `k`:

- exactly `k` squares are filled;
- X and O take turns, starting with X;
- at most one player holds a line, so the order of the line table never
  changes who wins;
- a board with a winner is the last one in the history;
- the winner is the player who made the last move;
- a game has at most nine moves;
- a draw is shown only after the ninth move.

## Model

| member | source | states |
|---|---|---|
| `TicTacToe.CalculateWinner` | src/exercise/04.js:141-159 | The loop over the line table returns exactly `Winner(squares)`: the marker of the first line, in table order, whose three squares match and are not empty, and `None` (null) if there is no such line |
| `TicTacToe.WinnerFromIsFirstOwned` | src/exercise/04.js:152-157 | Scanning from line `k` returns `p` iff some line at or after `k` is held by `p` and no line between `k` and it is held by anyone |
| `TicTacToe.WinnerFromNone` | src/exercise/04.js:152-158 | Scanning from line `k` returns null iff nobody holds any line at or after `k` |
| `TicTacToe.WinnerIsFirstOwnedLine` | src/exercise/04.js:142-156 | The winner is `p` iff `p` holds the first held line in table order; when several lines are held, the earliest decides |
| `TicTacToe.WinnerIffSomeLine` | src/exercise/04.js:141-159 | There is a winner iff some player holds all three squares of some line, and the winner always holds a line |
| `TicTacToe.WinnerOfSingleOwner` | src/exercise/04.js:152-158 | When only one player holds lines, the winner is `p` iff `p` holds a line, whatever the table order |
| `TicTacToe.MoveCompletesOnlyOwnLines` | src/exercise/04.js:69-77 | A move by `p` into an empty square of a board with no winner leaves the other player holding no line |
| `TicTacToe.CalculateNextValue` | src/exercise/04.js:137-139 | On a board where X and O took turns, X is next iff the two markers are level, and O is next iff X is one ahead |
| `TicTacToe.NextValueAlternates` | src/exercise/04.js:137-139 | Putting the next marker into an empty square passes the turn to the other player and keeps the turns balanced |
| `TicTacToe.FilledIsXPlusO` | src/exercise/04.js:138 | The number of filled squares is the number of X squares plus the number of O squares |
| `TicTacToe.MarkCountAfterMove` | src/exercise/04.js:76-77 | Writing `p` into an empty square adds one `p` marker and leaves the other marker's count unchanged |
| `TicTacToe.FilledCountAfterMove` | src/exercise/04.js:76-77 | Writing a marker into an empty square fills exactly one more square |
| `TicTacToe.FullIffAllFilled` | src/exercise/04.js:132 | A board is full (every square non-empty) iff its filled count equals its length |
| `TicTacToe.CalculateStatus` | src/exercise/04.js:129-135 | The status starts with `Winner: ` iff there is a winner, even on a full board. It is `Scratch: Cat's game` iff there is no winner and the board is full. It starts with `Next player: ` iff neither holds. After the prefix comes the winner's marker or the next player's marker |
| `TicTacToe.StatusIdentifiesOutcome` | src/exercise/04.js:129-135 | Equal status lines mean the same winner, the same full-or-not answer when there is no winner, and the same next player while the game goes on |
| `History.AfterRestart` | src/exercise/04.js:82-85 | The state after restart is a single all-empty board at index 0. It is in bounds and is a played history |
| `History.AfterSelectSquare` | src/exercise/04.js:69-80 | With a winner or an occupied square, nothing changes. Otherwise the new history is the boards up to the current index plus one new board, so its length is index+2. The new index is index+1, its last position. The new board is one allowed move from the current board and has one more filled square |
| `History.AfterGoToMove` | src/exercise/04.js:119-122 | Jumping to any recorded index `i` keeps every board and sets the current index to exactly `i` |
| `History.SelectSquarePreservesPlayed` | src/exercise/04.js:74-79 | Truncating and then appending an allowed move keeps the history a played history |
| `History.EmptyBoardFacts` | src/exercise/04.js:7 | The empty board has no markers, no filled square and no winner |
| `History.PlayedBoardFacts` | src/exercise/04.js:60-85 | On board `k` of a played history: `k` squares are filled; turns are balanced; at most one player holds a line; only the last board can have a winner; the winner is the player who moved last |
| `History.PlayedHistoryLength` | src/exercise/04.js:69-79 | A played history holds at most ten boards |
| `History.PlayedOutcome` | src/exercise/04.js:129-159 | On a played board the winner is `p` iff `p` holds a line. The board is full iff it is board 9 |
| `History.MoveHistory.constructor` | src/exercise/04.js:60-62 | A new game starts as `[EMPTY_BOARD]` at index 0 and satisfies the invariant |
| `History.MoveHistory.Status` | src/exercise/04.js:64-67 | Returns the status of the current board, with its winner and next player. A draw is reported iff the index is 9 and the board there has no winner |
| `History.MoveHistory.SelectSquare` | src/exercise/04.js:69-80 | Updates the fields to exactly `AfterSelectSquare` of the old state and keeps the invariant |
| `History.MoveHistory.Restart` | src/exercise/04.js:82-85 | Updates the fields to exactly `AfterRestart()` and keeps the invariant |
| `History.MoveHistory.GoToMove` | src/exercise/04.js:119-122 | Sets the index to `i`, leaves the boards unchanged and keeps the invariant |

## Left out

- Persistence: the two state cells live in browser storage, under the keys
  `tic-tac-toe:history` and `tic-tac-toe:step`. The hook in
  `src/exercise/02.js` reads and writes them as JSON. Here they are plain
  in-memory fields. A history restored from storage is not checked by the
  source, so the invariant `IsPlayed` covers only histories built by the
  operations modelled here.
- Rendering: the `Board`, `MoveHistory`, `Game` and `App` components, the
  move-list labels, and the disabled state of the current move's button.
- The data-fetch lifecycle and the error boundary in `src/exercise/06.js`.
  They are asynchronous framework code around a fetch client that is not
  part of this model.
- Render timing: in the source, `selectSquare` reads `winner` and
  `nextValue` from the render that created the handler. The model computes
  them from the current state when the handler runs. The two agree when
  each click is handled against the latest render.
- History.MoveHistory.GoToMove requires `i < |moves|`. The source setter
  accepts any number, but its only caller, the move list, passes indices of
  recorded boards.
- History.MoveHistory.SelectSquare takes a `Square` (0 to 8). The source's
  only caller, the board's buttons, passes exactly these values.
- JavaScript values: a square holds only `null`, `'X'` or `'O'`, and a
  board always has nine squares. These are the only values the game
  creates, so the model uses the types `Cell` and `Board`.
