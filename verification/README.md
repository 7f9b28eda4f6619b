# Tic-tac-toe engine and turn controller

This project models the single-player tic-tac-toe game of the `girls-ttt` mini-app. The human plays `X` and the computer plays `O`. Two parts are modelled, and properties are proved about both:

- **The engine** (`tic-tac-toe/src/lib/gameLogic.ts`). This covers the 9-cell board in row-major order and the eight winning lines. It also covers `calculateWinner`, `isBoardFull`, `isValidMove`, the threat finder `findWinningMove` and the computer's policy `getComputerMove`.
- **The `useGame` hook** (`tic-tac-toe/src/hooks/useGame.ts`). `handleCellClick` and `resetGame` become pure step functions over a `Session` record. The record holds the board, the status (active, won, lost, draw), the last promo code, the "computer is thinking" flag and the last move index.

Files:

| file | module | contents |
|---|---|---|
| `options.dfy` | `Options` | `Option`, the model of `T \| null` |
| `game_logic.dfy` | `GameLogic` | cells, board, lines, and every operation of `gameLogic.ts` |
| `game_logic_facts.dfy` | `GameLogicFacts` | what the scans mean, the policy's priority order, placement facts |
| `use_game.dfy` | `UseGame` | `Click`, `ComputerTurn`, `ResetGame`, the reachable-state invariant |
| `scenarios.dfy` | `Scenarios` | the documentation examples of `gameLogic.ts` as lemmas |

How the source is modelled:

- **Cells.** `null | 'X' | 'O'` becomes `Cell = Empty | Taken(Player)`. The `Board` type is a `seq<Cell>` of length exactly 9.
- **Randomness.** `Math.random()` becomes explicit parameters in `Coins`:
  - `explore` is the outcome of `Math.random() < 0.4`.
  - `sample` is a rational `num/den` with `num < den`. It stands for the value that `Math.floor(Math.random() * availableMoves.length)` scales. Every double in [0, 1) is such a rational.
  - One call of `getComputerMove` draws an index at most once, so one `sample` covers both of its draw sites.
  - Every lemma about the policy holds for every choice of coins.
- **The promo-code request.** It becomes the input `fetched`. `Some(code)` means the request delivered a code. `None` means it threw.
- **Atomic clicks.** A whole `handleCellClick` is one step, from the guard to the final `setIsComputerThinking(false)`. This includes the computer's reply, which is split out as `ComputerTurn`.

Some behaviours of the code are easy to miss. The model follows the code in each of them:

- **`getComputerMove` explore branch.** When no cell is free, the explore branch falls through to the heuristic branch instead of returning. The result is still -1.
- **`getComputerMove` on a full board.** It returns -1. It does not require a free cell.
- **Failed promo request.** It leaves `lastPromoCode` as it was. It does not clear it or set it to an empty code. In every reachable state that value is already `None` (`Invariant`).
- **`findWinningMove` fall-through.** If a line passes the "two of `p`, one empty" test but none of its cells is `null`, the source goes on to the next line. That cannot happen, since the test requires one empty cell. The model's `Gap` returns the third cell in that case.

## Model

| member | source | states |
|---|---|---|
| GameLogic.InitializeBoard | tic-tac-toe/src/lib/gameLogic.ts:71-73 | the new board has nine cells, all empty, and neither player holds a line |
| GameLogicFacts.WinningLinesAreRowsColumnsDiagonals | tic-tac-toe/src/lib/gameLogic.ts:47-59 | there are exactly eight lines, listed as rows, then columns, then diagonals; every line has three distinct cells; a line is winning iff it is a row, a column or a diagonal |
| GameLogicFacts.LineCellsDistinct | tic-tac-toe/src/lib/gameLogic.ts:47-59 | the three positions of each winning line are pairwise different |
| GameLogic.WinnerFrom | tic-tac-toe/src/lib/gameLogic.ts:98-110 | the scan from line k finds nobody iff no later line is monochrome; otherwise it names the owner of the first monochrome line from k |
| GameLogic.CalculateWinner | tic-tac-toe/src/lib/gameLogic.ts:97-111 | null iff no winning line has three equal non-empty cells; otherwise the owner of the first such line in declaration order |
| GameLogicFacts.WinnerDetection | tic-tac-toe/src/lib/gameLogic.ts:97-111 | a reported player holds a line; nobody is reported iff neither player holds a line; a player who is the only one holding a line is reported |
| GameLogic.AllTaken | tic-tac-toe/src/lib/gameLogic.ts:129 | `every(cell => cell !== null)` is true iff no cell is empty |
| GameLogic.IsBoardFull | tic-tac-toe/src/lib/gameLogic.ts:128-130 | the board is full iff none of its nine cells is empty |
| GameLogic.FullIffNoMoves | tic-tac-toe/src/lib/gameLogic.ts:185-191 | the board is full iff the list of available moves is empty |
| GameLogic.EmptyFrom | tic-tac-toe/src/lib/gameLogic.ts:185-187 | the empty positions from k on, strictly ascending, and all of them |
| GameLogic.AvailableMoves | tic-tac-toe/src/lib/gameLogic.ts:208-210 | `availableMoves` holds exactly the empty positions, in strictly ascending order |
| GameLogic.ValidIffAvailable | tic-tac-toe/src/lib/gameLogic.ts:146-154 | a move is valid iff its index is one of the available moves, so negative and too-large indices are rejected |
| GameLogic.Gap | tic-tac-toe/src/lib/gameLogic.ts:248-250 | on a line with two cells of one player and one empty cell, the cell returned is that empty cell of the line |
| GameLogic.WinningMoveFrom | tic-tac-toe/src/lib/gameLogic.ts:235-254 | the scan from line k returns -1 iff no later line has two of `p` and one empty; otherwise it returns the empty cell of the first such line |
| GameLogic.FindWinningMove | tic-tac-toe/src/lib/gameLogic.ts:234-255 | -1 iff no line has two of `p` and one empty; otherwise a valid move, namely the empty cell of the first such line |
| GameLogicFacts.ThreatIffCompletes | tic-tac-toe/src/lib/gameLogic.ts:241-250 | "two of `p` and one empty" on a line holds iff some single move of `p` completes that line; the cell found is such a move |
| GameLogicFacts.FindWinningMoveMeaning | tic-tac-toe/src/lib/gameLogic.ts:234-255 | `findWinningMove` finds a move iff some single move of `p` completes a line; playing the move found gives `p` a line |
| GameLogic.ScaleBounds | tic-tac-toe/src/lib/gameLogic.ts:190 | for r = num/den in [0, 1), floor(r·n) is the k with k·den ≤ num·n < (k+1)·den, and k < n when n > 0 |
| GameLogic.Scale | tic-tac-toe/src/lib/gameLogic.ts:213 | `Math.floor(r * length)` is the floor of r·length and lands inside a non-empty list |
| GameLogic.RandomMove | tic-tac-toe/src/lib/gameLogic.ts:189-191 | the randomly indexed element of `availableMoves` is always a valid move |
| GameLogic.GetComputerMove | tic-tac-toe/src/lib/gameLogic.ts:182-218 | -1 iff the board is full; otherwise a valid move, for every outcome of the random choices |
| GameLogicFacts.HeuristicPriority | tic-tac-toe/src/lib/gameLogic.ts:184-214 | without exploration: win first (a line for `O`), else block a line the human could complete, else the random empty cell; with exploration, the random empty cell |
| GameLogicFacts.PlaceKeepsOpponentLines | tic-tac-toe/src/hooks/useGame.ts:45-46 | writing a mark into an empty cell neither gives the other player a line nor takes one away |
| GameLogicFacts.PlaceWinner | tic-tac-toe/src/hooks/useGame.ts:50-51 | after a move on an undecided board, only the mover can be the winner, and `calculateWinner` reports the mover iff the mover holds a line |
| GameLogicFacts.CountAfterPlace | tic-tac-toe/src/hooks/useGame.ts:45-46 | writing `p` into an empty cell adds one mark of `p` and leaves the other player's count unchanged |
| GameLogicFacts.CountOfAllEmpty | tic-tac-toe/src/lib/gameLogic.ts:71-73 | an all-empty board holds no marks |
| UseGame.ResetGame | tic-tac-toe/src/hooks/useGame.ts:106-112 | from any state: empty board, active, no promo code, not thinking, no last move, and the invariant holds |
| UseGame.ComputerTurn | tic-tac-toe/src/hooks/useGame.ts:76-100 | only one cell changes, from empty to `O`, and it becomes the last move; when a cell was free something is written; thinking ends; the promo code is untouched |
| UseGame.Click | tic-tac-toe/src/hooks/useGame.ts:36-101 | a no-op unless active, not thinking and the move is valid; taken cells keep their marks; otherwise `X` is at the index, thinking is off, and any other changed cell went from empty to `O` and is the last move |
| UseGame.StatusAgreesWithBoard | tic-tac-toe/src/hooks/useGame.ts:50-98 | in a reachable state: active iff no winner and not full, won iff the winner is `X`, lost iff the winner is `O`, draw iff no winner and full |
| UseGame.ComputerTurnRestoresInvariant | tic-tac-toe/src/hooks/useGame.ts:79-98 | after the human's move left the game open, the computer's turn reaches a state satisfying the invariant |
| UseGame.ClickPreservesInvariant | tic-tac-toe/src/hooks/useGame.ts:36-101 | every click keeps the invariant: X is ahead of O by 0 or 1 mark, status matches the board, a promo code only after a win, the last move is a taken cell |
| UseGame.HumanWinEndsGame | tic-tac-toe/src/hooks/useGame.ts:50-69 | when `X` completes a line: won, only the human's mark written, last move is the click, promo code is the fetched one or none when the request failed |
| UseGame.HumanFillIsDraw | tic-tac-toe/src/hooks/useGame.ts:71-74 | when the human's move fills the board with no line: draw, and the computer does not move |
| UseGame.ComputerReplies | tic-tac-toe/src/hooks/useGame.ts:76-100 | otherwise `O` goes on the policy's move, a previously empty cell, which becomes the last move; lost iff `O` holds a line, draw iff not and full, active otherwise |
| UseGame.ClickIdempotent | tic-tac-toe/src/hooks/useGame.ts:37-43 | repeating a click on the same index changes nothing, whatever the random choices and the fetch outcome |
| UseGame.StepPreservesInvariant | tic-tac-toe/src/hooks/useGame.ts:36-112 | a click or a reset keeps the invariant |
| UseGame.RunPreservesInvariant | tic-tac-toe/src/hooks/useGame.ts:36-112 | any sequence of clicks and resets from a state satisfying the invariant ends in one |
| UseGame.ReachableStatesSatisfyInvariant | tic-tac-toe/src/hooks/useGame.ts:27-31 | every state reachable from the hook's initial state satisfies the invariant |
| UseGame.CellsNeverOverwritten | tic-tac-toe/src/hooks/useGame.ts:41-46 | without a reset, a taken cell keeps its mark through any sequence of clicks |
| Scenarios.TopRowWins | tic-tac-toe/src/lib/gameLogic.ts:82-85 | a completed top row of `X` wins for `X` |
| Scenarios.DiagonalWins | tic-tac-toe/src/lib/gameLogic.ts:87-90 | a completed main diagonal of `O` wins for `O` |
| Scenarios.NoWinnerYet | tic-tac-toe/src/lib/gameLogic.ts:92-95 | the documented open position has no winner |
| Scenarios.FullBoardWithoutLine | tic-tac-toe/src/lib/gameLogic.ts:120-126 | the documented full board is full, has no winner, and leaves the computer no move; with one cell freed it is not full |
| Scenarios.MoveValidation | tic-tac-toe/src/lib/gameLogic.ts:140-144 | cell 1 is valid; the taken cell 0 and the indices 9 and -1 are not |
| Scenarios.HeuristicWins | tic-tac-toe/src/lib/gameLogic.ts:172-175 | in the heuristic branch the computer completes its top row at 2 |
| Scenarios.HeuristicBlocks | tic-tac-toe/src/lib/gameLogic.ts:177-180 | in the heuristic branch the computer blocks the human's top row at 2 |

## Left out

- The 0.4 probability of exploring and the uniform distribution of `Math.random()` are not modelled. The random outcomes are inputs, and nothing is said about probabilities. Floating-point rounding of `Math.random() * length` is not modelled either.
- The `isValidMove` index is modelled as an integer. A fractional JavaScript index is not modelled; the source rejects it as well, because `board[1.5]` is `undefined`, not `null`.
- React state plumbing, closures, batching and the 900 ms `setTimeout` are not modelled. A click is one atomic step.
- The window while `handleCellClick` awaits the promo-code request is not modelled. In that window the source's guard would admit a second click, since the game is still active and the computer is not thinking.
- The `fetch('/api/promo-code')` call, the JSON decoding and the `onGameEnd` callback are not modelled. A response that decodes but has no `promoCode` field stores `undefined` in the source; the model has no such value. They affect only the stored code, which is the input `fetched`, and they never change the status.
- `tic-tac-toe/src/app/page.tsx` is not part of this model. It is an older inline copy of the hook's logic mixed with UI code.
- Promo-code generation, the Telegram notification and webhook routes, the `useTelegram` hook and all UI components are not modelled. They are random string sampling, HTTP I/O and presentation, and they have no game logic.
