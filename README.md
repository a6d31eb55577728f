# Tic-tac-toe rules engine

A Dafny model of the rules behind the local two-player tic-tac-toe page in
`frontend/src/main.js`. The page keeps three variables (`board`, a 9-cell
array of `'X' | 'O' | null`; `xIsNext`; `isGameOver`), decides the outcome of
a board with `calculateWinner`, handles cell clicks and restarts, and sets
`isGameOver` from the outcome each time it re-renders.

- `rules.dfy`, module `TicTacToeRules`: cells, players, the eight lines in
  scan order (rows, columns, diagonals; the constant `Lines`, the table at
  `frontend/src/main.js:64-73`), and `CalculateWinner`, a pure
  function giving `Win(player, a, b, c)`, `Draw` or `InProgress`. Its contract
  says exactly which outcome comes out: a win is the first complete line in
  table order, a draw is a full board with no complete line, and anything else
  is in progress. Mark counting supports the alternation invariant.
- `game.dfy`, module `TicTacToeGame`: the class `Game` with fields `board:
  array<Cell>`, `xIsNext` and `isGameOver`. Its methods are the start-up
  state, `Play` (the click handler plus the status update that `render` runs
  afterwards), `Restart` and `Evaluate`. `Evaluate` is the loop that scans the
  lines and then checks that every cell is filled. Each state-changing method
  is proved equal to a pure transition on `GameState` values: `Play` to
  `Click`, and start-up and restart to `Initial` (the values set at
  `frontend/src/main.js:52-54` and `164-166`). `Run` folds `Click` over a
  sequence of clicks; `RunSnoc` shows that one more click extends the run,
  and `PlayClicks` in `scenarios.dfy` uses it to prove that any sequence of
  `Play` calls leaves the `Game` object in the state `Run` gives. The lemmas
  about those functions state the rules' promises for every input and every
  sequence of clicks.
- `scenarios.dfy`, module `TicTacToeScenarios`: `PlayClicks`, a player
  delivering a sequence of clicks to a `Game` object one at a time, and whole
  games worked through the same functions. They cover a top-row win, a nine-move draw, a repeated
  click on a taken cell, and a `Game` object that wins, ignores a later
  click, and is restarted twice.

Behaviour kept as the code has it:
- A rejected click (game over, or cell taken) is a silent no-op. There are no
  error results.
- The turn flips on every accepted click, including the one that wins or
  fills the board. That is why `xIsNext` is false after X's winning move.
- `isGameOver` is only ever set to true by the status update. Restart is the
  only thing that clears it.
- Restart puts a fresh array in `board` rather than clearing the old one.

## Model

| member | source | states |
|---|---|---|
| TicTacToeRules.FirstLine | frontend/src/main.js:74-78 | the index it returns is a complete line and every earlier line from the start position is incomplete; with no result, no line from the start position is complete |
| TicTacToeRules.CalculateWinner | frontend/src/main.js:63-83 | a win is returned exactly when some line is complete, and it is the first complete line of the table with its owner's mark; a draw exactly when no line is complete and every cell is filled; in progress exactly when no line is complete and some cell is empty |
| TicTacToeRules.WinLineHoldsWinner | frontend/src/main.js:74-77 | a reported win names one of the eight lines, and all three of its cells hold the winner's mark |
| TicTacToeRules.EarliestLineWins | frontend/src/main.js:74-78 | when several lines are complete, the one earliest in the table (rows, then columns, then diagonals) is the one reported |
| TicTacToeRules.NewWinIsMovers | frontend/src/main.js:144-146 | a move onto an empty cell of an undecided board can only win through that cell and for the player who moved |
| TicTacToeRules.TurnParity | frontend/src/main.js:53 | on a board where marks alternate, equal X and O counts is the same as an even number of moves |
| TicTacToeRules.DrawCounts | frontend/src/main.js:79-81 | a draw on an alternating board always has five X's and four O's |
| TicTacToeGame.Click | frontend/src/main.js:142-148 | one click, including the status update that `render` runs after it; it keeps the board at nine cells, and its behaviour is stated by `ClickIgnored` (over or taken: no change) and `ClickAccepted` (the mover's mark in that cell only, turn negated, game over exactly on a win or draw) |
| TicTacToeGame.InitialConsistent | frontend/src/main.js:52-54 | the start-up state (empty board, X to move, not over) satisfies the alternation, turn and game-over invariant |
| TicTacToeGame.RunSnoc | frontend/src/main.js:142-148 | the state after a sequence of clicks followed by one more click is that click applied to the state after the sequence |
| TicTacToeGame.ClickIgnored | frontend/src/main.js:144 | a click when the game is over or on a taken cell leaves board, turn and game-over flag unchanged |
| TicTacToeGame.ClickAccepted | frontend/src/main.js:142-148 | an accepted click writes the mover's mark into that cell only, negates the turn even on a game-ending move, and ends the game exactly when the new board is a win or a draw |
| TicTacToeGame.ClickMonotone | frontend/src/main.js:144-146 | no click empties or overwrites a cell, and no click clears the game-over flag |
| TicTacToeGame.ClickConsistent | frontend/src/main.js:144-146 | a click keeps marks alternating, keeps `xIsNext` equal to "X and O counts are equal", and keeps the game-over flag equal to "the board is decided" |
| TicTacToeGame.ClickWinIsMovers | frontend/src/main.js:142-148 | in a consistent state, a click that produces a win produces it for the player who clicked, along a line through the clicked cell |
| TicTacToeGame.RunConsistent | frontend/src/main.js:142-148 | any sequence of clicks from a consistent state ends in a consistent state |
| TicTacToeGame.RunKeepsMarks | frontend/src/main.js:144-145 | over any sequence of clicks, a filled cell keeps its mark |
| TicTacToeGame.RunAfterGameOver | frontend/src/main.js:144 | once the game is over, no sequence of clicks changes anything |
| TicTacToeGame.ReachableConsistent | frontend/src/main.js:52-54 | every state reached by clicks from the start-up state has count(X) equal to count(O) or count(O) + 1, has `xIsNext` exactly when the counts are equal, and is over exactly when the board is decided |
| TicTacToeGame.TurnFollowsMoveCount | frontend/src/main.js:145-146 | from the start-up state, it is X's turn exactly after an even number of moves |
| TicTacToeGame.Game.constructor | frontend/src/main.js:52-54 | the game starts with an all-empty board, X to move and the game not over, a state that satisfies the invariant `Play` preserves |
| TicTacToeGame.Game.Evaluate | frontend/src/main.js:63-83 | the loop over the line table and the fullness check compute exactly `CalculateWinner` of the current board |
| TicTacToeGame.Game.UpdateStatus | frontend/src/main.js:91-113 | the game-over flag becomes true on a win or a draw and is otherwise left as it was |
| TicTacToeGame.Game.Play | frontend/src/main.js:142-148 | the new board, turn and game-over flag are those of `Click` applied to the old ones, and a consistent state stays consistent |
| TicTacToeGame.Game.Restart | frontend/src/main.js:163-169 | whatever the prior state: a fresh all-empty board, X to move, game not over, which satisfies the invariant `Play` preserves; so restarting twice leaves the same state as once |
| TicTacToeScenarios.PlayClicks | frontend/src/main.js:142-153 | clicking the cells of a sequence in order, one `Play` each, leaves the game in the state `Run` gives for that sequence, and a consistent game stays consistent |

## Left out

- The page markup, the CSS import and the element lookups (`frontend/src/main.js:1-49, 56-60`): DOM construction with no effect on the rules.
- Status text, turn-chip highlighting, winning-cell highlighting, aria labels, and each button's `disabled`/`tabindex` (`frontend/src/main.js:88-89, 94-101, 108-110, 115-138`): presentation only. `render` computes `disabled` as `isGameOver || board[idx]` (line 136) before it calls the status update (line 139). On a move that wins or draws, `disabled` therefore uses the flag's value from before the move. The empty cells left after a win stay enabled, and nothing re-renders until restart, because the early return at line 144 skips `render`. The lock after the game ends comes from that early return alone, and `Click` models it.
- Event-listener wiring and the Enter/Space keyboard emulation of a click (`frontend/src/main.js:150-161`), and the module-level `initTicTacToe()` call: browser event plumbing. Each click is modelled as one call of `Play`, and a sequence of clicks as `PlayClicks`.
- Reading the index from `data-index`: the index is a parameter of type `Index` (0..8). The page only creates cells 0 to 8 and does no range check of its own.
- Removing the `win` class on restart (`frontend/src/main.js:167`): presentation only.
