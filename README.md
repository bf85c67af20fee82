# Tic-tac-toe game engine

A Dafny model of the game logic of a React tic-tac-toe app. Two components,
`App` in `src/App.jsx` and `TicTacToc` in `src/components/Tic-Tac-toc.jsx`,
each keep three pieces of state: a board of nine cells (`null`, `'X'` or
`'O'`), a flag `isXNext`, and `winner`. A click on a cell writes the current
player's mark into a copy of the board and passes the turn. An effect then
runs `calculateWinner` on the new board and records a winner if it finds one.
`resetGame` puts everything back to the start.

The two files hold the same engine line for line. One model covers both:

| piece | src/App.jsx | src/components/Tic-Tac-toc.jsx |
|---|---|---|
| initial state | 8-10 | 5-7 |
| winner effect | 16-19 | 9-12 |
| `handleClick` | 32-38 | 22-28 |
| `resetGame` | 40-44 | 41-45 |
| `calculateWinner` | 101-119 | 68-86 |

The model has three modules:

- `Board` (`board.dfy`): marks, cells, the eight winning lines in source
  order, the line search `CalculateWinner` as a loop, and the function
  `Winner` that specifies it. It also holds mark counting.
- `Engine` (`engine.dfy`): the component state as a value `GameState`, one
  click plus the winner effect as `Next`, a run of clicks as `Run`, and the
  invariant `Valid` that every reachable state keeps. Its lemmas are about
  sequences of clicks.
- `Component` (`component.dfy`): the class `Game`. Its fields are the three
  state variables. `Click` and `Reset` update them in place and are proved
  against `Engine.Next` and `Engine.Initial`.

The invariant `Valid` says three things. The board has nine cells. X has made
as many moves as O when X is next, and one more when O is next. The recorded
winner is exactly `Winner(board)`. Because of the third part, a board with a
complete line always has its winner recorded, and the guard then refuses
every click until a reset.

The model follows the code, not an idealised game engine, in three places:

- There is no draw outcome. `calculateWinner` returns a mark or `null`. A
  full board without a line leaves `winner` empty, and clicks are refused
  only because every cell is taken (`Engine.FullBoardWithoutWinner`).
- The turn flips on every accepted click, including the one that wins. After
  X completes a line, `isXNext` is false (`Engine.TopRowWin`).
- An index outside 0..8 is not reported as an error. The components only
  ever pass the nine cell indices, so `index < 9` is a precondition and the
  moves of a run have type `Index`.

## Model

| member | source | states |
|---|---|---|
| Board.EmptyBoard | src/App.jsx:8 | the starting board has exactly nine cells and every one is empty |
| Board.CalculateWinner | src/App.jsx:101-119 | the loop returns `Winner(squares)`; it returns `None` exactly when none of the eight lines is filled with one mark, and otherwise the mark of the first such line in list order |
| Board.WinnerFromMeaning | src/App.jsx:112-117 | searching from line `k` on finds `None` exactly when lines `k..7` are all incomplete, and otherwise the mark of the first complete one of them |
| Board.WinnerIsFirstCompleteLine | src/components/Tic-Tac-toc.jsx:68-86 | `Winner` is `None` iff no line is complete; when line `k` is the first complete line, `Winner` is the mark in it, and a non-`None` result always comes from such a line |
| Board.CountWrite | src/App.jsx:34-35 | writing a mark into an empty cell of the copied board adds exactly one of that mark and leaves the other mark's count as it was |
| Board.CountNone | src/App.jsx:41 | a board of empty cells holds no mark of either player |
| Board.EmptyBoardHasNoWinner | src/App.jsx:8-10 | the starting board has no winner and no marks |
| Engine.Next | src/App.jsx:32-38 | a click, taken or refused, keeps the board's length |
| Engine.InitialValid | src/components/Tic-Tac-toc.jsx:5-7 | the starting state (nine empty cells, X to move, no winner) satisfies the game invariant |
| Engine.AcceptedMove | src/App.jsx:34-37 | a taken click puts the current player's mark in the clicked cell, leaves every other cell as it was, flips the turn even when the click wins, and the recorded winner is the winner of the new board |
| Engine.RefusedMove | src/App.jsx:33 | a click on a filled cell, or any click once a winner is recorded, leaves board, turn and winner unchanged |
| Engine.NextPreservesValid | src/App.jsx:16-38 | every click followed by the winner effect keeps the invariant: nine cells, the X/O count balance that matches the turn, and winner equal to the board's winner |
| Engine.RunPreservesValid | src/components/Tic-Tac-toc.jsx:9-28 | every state reached by any sequence of clicks from a valid state is valid |
| Engine.FrozenAfterWin | src/components/Tic-Tac-toc.jsx:22-28 | once a winner is recorded, no sequence of clicks changes board, turn or winner |
| Engine.RunSplit | src/App.jsx:32-38 | clicking `p` and then `q` is the same as clicking `p + q`, and the board keeps nine cells |
| Engine.FrozenFromFirstWin | src/App.jsx:16-33 | the game's state stops changing at the click that records a winner: the whole run ends in the state reached at that click |
| Engine.TopRowWin | src/App.jsx:32-38 | clicks 0, 3, 1, 4, 2 from the start give X the top row; X is recorded and the turn has passed to O |
| Engine.FullBoardWithoutWinner | src/App.jsx:112-118 | on a valid full board with no complete line no winner is recorded, and every click leaves the state unchanged |
| Component.Game.constructor | src/App.jsx:8-10 | a new component has nine empty cells, X to move, no winner, and satisfies the invariant |
| Component.Game.Click | src/components/Tic-Tac-toc.jsx:22-28 | the state after a click (and the winner effect) is `Next` of the state before; refused when the cell is filled or a winner exists; otherwise writes the current mark at `index` only, flips the turn, and records `Winner(board)`; keeps the invariant |
| Component.Game.Reset | src/components/Tic-Tac-toc.jsx:41-45 | from any state, back to nine empty cells, X to move, no winner, with the invariant restored |
| Component.PlayTopRow | src/App.jsx:40-44 | a client plays the top-row game on a `Game`; the click after the win changes nothing, and reset returns the starting state |

## Left out

- Rendering (`renderSquare`, the grid, the banners, the reset and language buttons) is not modelled, because it is view markup with no logic.
- The `Swal.fire` congratulation pop-up is not modelled. It is a call into a UI library.
- `document.title`, `console.log` and the language switcher are not modelled. They are I/O and calls into the i18n library.
- `src/components/i18n.jsx` is not part of this model. It holds translation tables and a library set-up call.
- React's effect timing is not modelled. The winner effect runs after a render; here it runs at the end of the accepted click, before any other click.
- The effect also re-runs when the language changes (`[board, t]`). It then finds the same winner on the same board, so the state does not change; the model leaves this re-run out.
- Engine.Next: an out-of-range index is excluded by a precondition rather than modelled as JavaScript's `undefined` cell, because the components only pass indices 0 to 8.
- Component.Game.Click: the board is a value (`seq`), so the copy made with `slice()` and the write into it are one sequence update; aliasing of the old array is not modelled.
