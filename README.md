# Tic-tac-toe rules and move history, in Dafny

This project models the game logic of a React tic-tac-toe app (`tic-tac-toe/src/App.jsx`) and proves properties of it. The model covers three things:

- **The win check** (`calculateWinner`). It scans the eight lines (three rows, three columns, two diagonals) in a fixed order and returns the mark of the first line whose three squares are occupied and equal. Otherwise it returns null.
- **The `Board` component's logic.** `handleClick` ignores a click on an occupied square or on a won board. Otherwise it writes the mover's mark into a copy of the board and passes the copy on. The status line shows a win first, then a draw on a full board, then whose turn it is.
- **The `App` component's state.** It holds a list of boards, `history`, and a cursor, `currentMove`. The player to move comes from the cursor's parity. `handlePlay` keeps the entries up to the cursor, appends the new board and moves the cursor onto it. `jumpTo` moves only the cursor. New Game goes back to one empty board.

Files:

- `rules.dfy` (module `Rules`): squares and marks, the lines, the win check and its characterisation, and mark counting.
- `board.dfy` (module `Board`): `handleClick`, the status classification, and lemmas on what a move changes.
- `app.dfy` (module `App`): the history store as the class `GameHistory`, the pure parts of `App` (`xIsNext`, the new-history expression), the invariant `WellPlayed` that every reachable history satisfies, and its consequences.

Each square is `Empty` (null in the app), `Filled(X)` or `Filled(O)`. A board is a sequence of exactly nine squares in row-major order. Boards are values: a move produces a new board and cannot change one already stored. `calculateWinner` keeps its loop with an early return (`Rules.CalculateWinner`), proved equal to the recursive scan `Rules.Winner`. The `App` state is a class with plain fields; its methods state the new history and cursor exactly.

`WellPlayed(h)` says that `h` starts with the empty board and that each entry `k+1` comes from entry `k` by a click the app accepts, made by the player `xIsNext(k)` names. Every way the app changes its state keeps this invariant. From it the model proves:

- entry `k` holds `k` marks, `(k+1)/2` X's and `k/2` O's;
- cursor parity therefore agrees with the mark count;
- a history never has more than ten entries;
- a board is full only at move 9;
- only the last entry can be decided;
- at most one player ever holds a line, so the order in which lines are scanned does not change the winner.

Three modelling choices follow the code as written:

- The code's win check reports only a winner or null. The draw is decided by the status logic, not by the win check.
- The code takes the player to move from `currentMove % 2`, not from counting marks. `App.ParityAgreesWithMarks` proves the two agree on every reachable history.
- The code's `jumpTo` does no range check and has no error path. The bound is a precondition.

## Model

| member | source | states |
|---|---|---|
| `Rules.CalculateWinner` | tic-tac-toe/src/App.jsx:130-147 | The loop over the eight lines with its early return computes exactly the scan result `Winner`: the mark of the first complete line, or None. |
| `Rules.WinnerIsFirstCompleteLine` | tic-tac-toe/src/App.jsx:131-145 | The win check returns `p` if and only if some listed line is all `p` and every line listed before it is incomplete. When several lines match, the first in the listed order decides. |
| `Rules.NoWinnerIffNoCompleteLine` | tic-tac-toe/src/App.jsx:141-146 | The win check returns None if and only if no line has three equal, occupied squares. |
| `Rules.WinnerHasLine` | tic-tac-toe/src/App.jsx:142-143 | A reported mark owns a line: all three of that line's squares hold it. |
| `Rules.NoWinnerNoLine` | tic-tac-toe/src/App.jsx:141-146 | On a board the win check reports no winner for, no player holds any line. |
| `Rules.LineMeansWinner` | tic-tac-toe/src/App.jsx:141-144 | If any player holds a line, the win check reports some winner. |
| `Rules.Mover` | tic-tac-toe/src/App.jsx:25 | The mark written is X exactly when `xIsNext`, and O otherwise. |
| `Rules.Winner` | tic-tac-toe/src/App.jsx:130-147 | The function form of the win check. A reported mark holds some line, and None is returned exactly when no line has three equal, occupied squares. |
| `Rules.EmptyBoardHasNoWinner` | tic-tac-toe/src/App.jsx:59 | The starting board `Array(9).fill(null)` has no winner. |
| `Rules.EmptyBoardCounts` | tic-tac-toe/src/App.jsx:59 | The starting board holds no X, no O and nine empty squares. |
| `Board.HandleClick` | tic-tac-toe/src/App.jsx:20-27 | No board is produced exactly when square `i` is occupied or the board already has a winner. An accepted click returns a board equal to the old one everywhere except `i`, which holds X if `xIsNext` and O otherwise; the input stays as it was. |
| `Board.Move` | tic-tac-toe/src/App.jsx:20-27 | The function form of `handleClick`. It gives None exactly when square `i` is occupied or the board has a winner. Otherwise the board is the old one with only square `i` changed, to the mover's mark. |
| `Board.MoveAddsOneMark` | tic-tac-toe/src/App.jsx:24-25 | An accepted click fills a square that was empty. It raises the mover's count by one, leaves the other player's count alone, and lowers the empty count by one. |
| `Board.MoveOnlyHelpsMover` | tic-tac-toe/src/App.jsx:24-25 | After an accepted click, every line the non-moving player holds was already theirs before. |
| `Board.Full` | tic-tac-toe/src/App.jsx:36 | `squares.every(square => square)`: every square is occupied, which holds exactly when no square is counted empty. |
| `Board.GameStatus` | tic-tac-toe/src/App.jsx:29-44 | The status is Wins(p) exactly when the win check names `p`, and `p` then holds a line. Otherwise it is Draw exactly when the board is full. Otherwise it is Turn(Mover(xIsNext)), with at least one empty square left. |
| `Board.MoveIffTurn` | tic-tac-toe/src/App.jsx:21-40 | A click is accepted if and only if the status is a turn (neither a win nor a draw) and the clicked square is empty. |
| `Board.TurnHasMove` | tic-tac-toe/src/App.jsx:39-40 | When the status is a turn, it names the player `xIsNext` selects, and some square accepts that player's click. |
| `Board.DrawnBoardRejectsClicks` | tic-tac-toe/src/App.jsx:36-38 | A specific full board with no line has status Draw, and every click on it is ignored. |
| `Board.WonBoardRejectsClicks` | tic-tac-toe/src/App.jsx:21-34 | A specific board where X holds the middle column has winner X and status Wins(X), and every click on it is ignored, even on an empty square. |
| `App.XIsNext` | tic-tac-toe/src/App.jsx:61 | X moves at move 0, and each later move's turn belongs to the other player than the move before. |
| `App.NextHistory` | tic-tac-toe/src/App.jsx:65 | The new history has `currentMove + 2` entries. Entries `0..currentMove` are the old ones, the last entry is the new board, and everything after the old cursor is gone. |
| `App.DisplayedMarks` | tic-tac-toe/src/App.jsx:21-26 | In a well-played history, entry `k` holds exactly `k` marks. |
| `App.PlayKeepsWellPlayed` | tic-tac-toe/src/App.jsx:64-68 | Appending, at the cursor, a board that an accepted click produced keeps the history well played. |
| `App.MarksMatchMoveNumber` | tic-tac-toe/src/App.jsx:21-26 | In a well-played history, entry `k` holds `(k+1)/2` X's and `k/2` O's. |
| `App.ParityAgreesWithMarks` | tic-tac-toe/src/App.jsx:61 | In a well-played history, entry `k` holds `k` marks. `xIsNext` (`k % 2 == 0`) holds exactly when X and O have placed equally many marks. |
| `App.HistoryAtMostTen` | tic-tac-toe/src/App.jsx:65 | A well-played history has at most ten entries. |
| `App.FullOnlyAtMoveNine` | tic-tac-toe/src/App.jsx:36 | In a well-played history, entry `k` is full if and only if `k == 9`. |
| `App.OnlyLastEntryDecided` | tic-tac-toe/src/App.jsx:21-23 | Every entry of a well-played history except the last has status Turn: no move was ever accepted after a win or a draw. |
| `App.AtMostOnePlayerHasLine` | tic-tac-toe/src/App.jsx:141-145 | No well-played board has a line for X and a line for O at once. |
| `App.WinnerIsLineHolder` | tic-tac-toe/src/App.jsx:141-145 | On a well-played board the scan order does not matter: the win check names `p` if and only if `p` holds some line. |
| `App.GameHistory.constructor` | tic-tac-toe/src/App.jsx:59-60 | The initial state is one empty board with the cursor at 0, and it is well played. |
| `App.GameHistory.CurrentSquares` | tic-tac-toe/src/App.jsx:62 | The displayed board `history[currentMove]` is an entry of the history. In a well-played history it holds exactly `currentMove` marks. |
| `App.GameHistory.HandlePlay` | tic-tac-toe/src/App.jsx:64-68 | The history becomes `old[0..currentMove]` followed by the new board. The cursor moves onto the new board, which is now the one on display. A well-played history stays well played when the board comes from an accepted click. |
| `App.GameHistory.JumpTo` | tic-tac-toe/src/App.jsx:70-72 | The cursor becomes `nextMove` and the history is unchanged. |
| `App.GameHistory.NewGame` | tic-tac-toe/src/App.jsx:113 | In one step: the history is a single empty board, the cursor is 0, and the state is well played. |
| `App.GameHistory.Click` | tic-tac-toe/src/App.jsx:102 | The `Board`/`App` wiring: `handleClick` on the displayed board with `xIsNext` from the cursor, its result passed to `handlePlay`. An ignored click changes nothing. An accepted one appends and advances the cursor by one. Well-playedness is preserved. |
| `App.TimeTravel` | tic-tac-toe/src/App.jsx:64-72 | The sequence play 4, 0, 8, jump to move 1, play 2 leaves three entries. The displayed board has X at 4 and O at 2: the abandoned moves are gone. |

## Left out

- The `Square` component, the CSS class strings, the JSX layout, the rendering of the moves list, and the footer's current year (lines 3-17, 46-55, 74-92, 94-126). These are presentation only.
- The status line's text (`X Wins!`, `Draw!`, `X's Turn`) and its colours. The model has the three-way `Status` classification and not the strings.
- React's `useState` and re-rendering. The state is the two fields of `GameHistory`. The New Game handler's two consecutive state updates (line 113) are one atomic `NewGame`.
- `Board.HandleClick`: the square index is the type `Index` (0..8), because the board renders and wires only squares 0 to 8 (lines 50-51). What JavaScript would do with an index outside that range is not modelled.
- `App.GameHistory.JumpTo`: the bound `nextMove < |history|` is a precondition. The source does no check; the moves list offers only existing indices (lines 74-80).
- `App.GameHistory.HandlePlay` accepts any nine-square board, as the source does. Keeping the history well played is promised only when the board comes from an accepted click, as it does through `Click`.
- `squares.slice()` copies the array before the write. Boards are values in this model, so the model does not represent the aliasing that the copy avoids.
- A seven-move win, followed by a rejected eighth click, is not replayed through `GameHistory` as a method. The won position is checked as a board value in `Board.WonBoardRejectsClicks`.
