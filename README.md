# Tic-tac-toe game state, modelled in Dafny

This project models the logic of a single-page tic-tac-toe game written as
three React components in `src/App.jsx`. The model has three parts.

- **The win evaluator** (`calculateWinner`). It scans the eight winning lines
  in a fixed order: three rows, three columns, two diagonals. It returns the
  mark of the first line whose three cells hold the same non-empty mark, and
  null when no line does.
- **The move rule** (`Board.handleClick`). A click is ignored when its cell is
  taken or the board already has a winner. Otherwise the board is copied, the
  mover's mark is written into the copy, and the copy is handed to `handlePlay`.
- **The game** (`Game`). It holds two state values: `history`, the list of
  boards since the empty one, and the flag `xIsNext`. `handlePlay` appends a
  board and flips the flag. `jumpTo(move)` cuts the history back to
  `move + 1` boards and sets the flag from the parity of `move`. The status
  line shows a winner first, then "draw" on a full board, then the next player.

Files and modules:

- `squares.dfy` (`Squares`): players, cells, the 9-cell `Board`, mark counts,
  the count of differing cells, and relabelling X as O.
- `win_evaluator.dfy` (`WinEvaluator`): the line table, the scan as a
  recursive function `Winner`, its loop form `CalculateWinner`, and a
  reference definition of a filled line (`OwnedBy`, `HasLine`) that the
  lemmas tie the scan to.
- `moves.dfy` (`Moves`): the click rule `Click`, the status `StatusOf`, and
  `LegalHistory`, the histories that accepted clicks build from a new game,
  with what holds of every board in them.
- `game.dfy` (`GameState`): the class `Game` with the fields `history` and
  `xIsNext`, and the methods `HandlePlay`, `HandleClick` and `JumpTo`. Two
  client methods replay concrete games: one won by X on the top row, and one
  drawn.

The class keeps three invariants, each a predicate:

- `Valid`: the history is never empty. Every method keeps it, without
  conditions.
- `TurnMatchesHistory`: the flag says X exactly when the history length is
  odd. `JumpTo` establishes it, whatever the state before.
- `Reachable`: the history is legal and the flag matches it. `HandleClick`
  and `JumpTo` preserve it. `HandlePlay` checks nothing in the source, so it
  keeps `Reachable` only when it is handed the result of an accepted click.

Three facts about the code that the model makes explicit:

- The turn is stored in its own flag, `xIsNext` (src/App.jsx:55, 62, 67-68),
  not computed from the history. The predicate `TurnMatchesHistory` states
  that X is to move exactly when the history length is odd. The constructor's
  ensures establish it, the ensures of `HandlePlay` and `HandleClick` keep it,
  and `JumpTo` re-establishes it whatever the state before.
- `jumpTo(2)` sets the flag from `2 % 2 === 0`, so after the jump X is to
  move, with two marks on the board. `TopRowScenario` proves this.
- One move can fill two lines at once, for example a row and a diagonal
  through the same corner. But no reached board has lines for both players
  (`AtMostOneWinner`), so on reached boards the scan order never changes the
  winner (`WinnerOfReachableBoard`).

## Model

| member | source | states |
|---|---|---|
| `WinEvaluator.CalculateWinner` | src/App.jsx:95-114 | The loop with early return yields the scan result. It is null exactly when no line is filled by one mark. Otherwise the result's mark fills the first filled line in table order. |
| `WinEvaluator.WinnerFrom` | src/App.jsx:108-113 | The scan from line k, one line at a time in table order, returning the first matching line's mark and null past the last line. It has no contract of its own: `WinnerFromNone` and `WinnerFromSome` describe it. |
| `WinEvaluator.Winner` | src/App.jsx:95-114 | `calculateWinner` as a function: the scan from line 0, which `Click` and `StatusOf` call. It has no contract of its own: `WinnerIsFirstLine`, `WinnerNoneIffNoLine` and `WinnerSwap` describe it, and `CalculateWinner` is proved equal to it. |
| `WinEvaluator.MatchesIffOwned` | src/App.jsx:109 | The code's test (first cell non-empty, other two equal to it) holds exactly when all three cells hold the same player's mark, and that mark is the first cell's. |
| `WinEvaluator.WinnerFromNone` | src/App.jsx:108-113 | A scan from line k finds nothing exactly when no line from k on is filled. |
| `WinEvaluator.WinnerFromSome` | src/App.jsx:108-111 | A scan from line k that returns p has a line at or after k filled by p, with no filled line between k and it. |
| `WinEvaluator.FirstLineUnique` | src/App.jsx:108-111 | The first filled line and the mark filling it are unique. |
| `WinEvaluator.WinnerIsFirstLine` | src/App.jsx:108-111 | The winner is p exactly when p fills the first filled line in the listed order. This covers both directions, and the case where several lines match. |
| `WinEvaluator.WinnerNoneIffNoLine` | src/App.jsx:108-113 | The result is null exactly when neither player fills any of the eight lines. |
| `WinEvaluator.WinnerHasLine` | src/App.jsx:109-110 | A reported winner fills at least one line. |
| `WinEvaluator.WinnerFromSwap` | src/App.jsx:108-113 | Relabelling X and O on the board relabels the result of a scan from any line. |
| `WinEvaluator.WinnerSwap` | src/App.jsx:95-114 | The result is symmetric under swapping X and O: the winner swaps, and null stays null. |
| `Squares.IsFull` | src/App.jsx:29 | `isDraw`'s test that every square is non-null. It has no contract of its own: `StatusOf` uses it for the draw case and `ClickIgnoredWhenDecided` shows that no click on a full board is accepted. |
| `Moves.Mark` | src/App.jsx:22 | The mark written is X exactly when `xIsNext` is set. |
| `Moves.Click` | src/App.jsx:15-25 | A click is ignored exactly when the cell is taken or some player fills a line. An accepted click writes the mover's mark into the previously empty cell i, and leaves every other cell as it was. |
| `Moves.ClickChangesOneCell` | src/App.jsx:20-22 | The board after an accepted click differs from the one before in exactly one cell. |
| `Moves.ClickIgnoredWhenDecided` | src/App.jsx:17 | Every click on a won board, or on a full board, is ignored. |
| `Moves.StatusOf` | src/App.jsx:28-34 | The status is a win exactly when a line is filled, even on a full board. The winner shown is the mark of the first filled line in table order, the mark `calculateWinner` returns. It is a draw exactly when no line is filled and every cell is taken. Otherwise it names the player the flag gives. |
| `Moves.InProgressIffPlayable` | src/App.jsx:28-34 | The status names a next player exactly when some click on the board would be accepted. So a drawn board accepts no move. |
| `Moves.LegalPrefix` | src/App.jsx:69 | Cutting a legal history back to a non-empty prefix leaves it legal. |
| `Moves.LegalExtend` | src/App.jsx:61 | Appending the result of an accepted click, made by the player the length gives, leaves a history legal. |
| `Moves.MoveCounts` | src/App.jsx:17-22 | After k legal moves X has (k+1)/2 marks and O has k/2 marks. |
| `Moves.MarkBalance` | src/App.jsx:55-56 | On every reached board, X's count minus O's count is 0 or 1. It is 0 exactly when X is to move. |
| `Moves.StepChangesOneCell` | src/App.jsx:20-22 | Each history entry differs from the one before in exactly one cell, and that cell was empty before. |
| `Moves.MoveKeepsOpponentLines` | src/App.jsx:22 | Writing m's mark into a cell cannot complete a line for m's opponent. |
| `Moves.AtMostOneWinner` | src/App.jsx:17 | No reached board has lines for both players. Only the last board of a legal history can have a line at all. |
| `Moves.WinnerOfReachableBoard` | src/App.jsx:108-111 | On a reached board the scan returns p exactly when p fills some line, so the scan order does not matter there. |
| `Squares.CountAfterWrite` | src/App.jsx:22 | Writing p's mark into an empty cell adds one to p's count and leaves the opponent's count unchanged. |
| `Squares.DiffCountSingleWrite` | src/App.jsx:20-22 | Changing one cell of a copy to a new value makes the copy differ from the original in exactly one place. |
| `GameState.Game.CurrentSquares` | src/App.jsx:57 | `currentSquares`, the last board of the history. It has no contract of its own: `JumpTo` states that after a jump it is the old entry at `move`, and `ReachableCurrentBoard` states what holds of it in a reachable game. |
| `GameState.Game.constructor` | src/App.jsx:55-56 | A new game has one empty board and X to move, and is reachable. |
| `GameState.Game.HandlePlay` | src/App.jsx:60-63 | The history becomes the old history plus the one new board, so earlier entries are unchanged, and the flag is negated. The flag invariant is kept. Reachability is kept when the board is an accepted click on the current board. |
| `GameState.Game.HandleClick` | src/App.jsx:15-25 | A click is accepted exactly when `Click` accepts it on the current board. An accepted click appends `Click`'s board and flips the flag. An ignored click leaves the history and the flag unchanged, so repeating it changes nothing. The flag invariant and reachability are kept. |
| `GameState.Game.JumpTo` | src/App.jsx:66-70 | The history becomes the old prefix of length move+1, so the current board is the old entry at move. The flag is set to `move` being even, which re-establishes the flag invariant. Reachability is kept. From a reached state, jumping to 0 restores the single empty board with X to move. |
| `GameState.Game.ReachableCurrentBoard` | src/App.jsx:55-57 | In a reachable game the current board has X's count minus O's count in {0, 1}. The flag says X exactly when the counts are equal. At most one player fills a line. |
| `GameState.TopRowScenario` | src/App.jsx:28-34 | Clicks 0, 4, 1, 3, 2 give "winner X". A further click on 5 is ignored. Jumping to move 2 restores the board with X in cell 0 and O in cell 4, and gives "next player X". |
| `GameState.DrawScenario` | src/App.jsx:28-34 | Clicks 0, 2, 1, 3, 5, 4, 6, 7, 8 are all accepted and end in a draw. |

## Left out

- Rendering: the `Square` component, the board markup, the move list with its
  "Go to game start" / "Go to move #N" buttons, CSS class names, and the
  status text with its emoji. `Status` stands for the three status forms.
- React `useState` mechanics, re-render scheduling and list keys. The two
  state values are ordinary fields updated at once, in a single thread.
- The click handler belongs to the `Board` component, which receives
  `xIsNext`, the current squares and `onPlay` as props. The model places it
  on `Game` as `HandleClick`, reading those values from the fields and
  calling `HandlePlay` directly.
- Out-of-range indices are preconditions: `i < 9` for a click and
  `move < |history|` for `JumpTo`. The code has no guard; JavaScript's slice
  would keep the whole history while still resetting the flag.
- JavaScript truthiness: a cell counts as filled when it is not null. Cells
  only ever hold null, "X" or "O", which the `Cell` datatype captures exactly.
