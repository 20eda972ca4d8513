# Tic-tac-toe game service, modelled in Dafny

This project models the game engine of an Angular tic-tac-toe front end: the
`TicTacToeService` class in `tic_tac_toe_frontend/src/app/tic-tac-toe.service.ts`.
The service holds a nine-cell board, the player to move, the mode (two players
or against the computer), the winner, the winning line, a game-over flag and an
"AI thinking" flag. It accepts or refuses human moves and detects wins and ties
by scanning eight fixed lines in a fixed order. The computer plays O using a
fixed-priority heuristic: win now, else block X, else take the centre, else a
random free corner, else the first free side, else the first free cell.

The project has four modules, one per file:

- `rules.dfy` (module `Rules`) defines cells, players, the eight winning lines
  in scan order, and `Evaluate`, the pure specification of the end-of-game
  check. It also proves lemmas about win detection and about the hypothetical
  placements the computer player tries.
- `heuristic.dfy` (module `Heuristic`) defines `AIMove`, the pure
  specification of the computer player's choice. Lemmas state its five
  priority steps, and that the last fallback is reached only on a full board.
  Further lemmas check the choice on a few concrete boards.
- `service.dfy` (module `Service`) holds the class `TicTacToeService`, with
  the board as an `array<Cell>` of length 9 and the source's fields. Its
  methods update the fields in place. The end-of-game check and the computer
  player's search are loops with invariants, proved against `Evaluate` and
  `AIMove`. The class invariant `Valid()` says the outcome fields are what the
  check computes from the board. The constructor, `Reset`, `SetMode`,
  `MakeMove`, `AiStep`, `SwitchPlayer`, `CheckGameOver` and `AiPlay` state
  that they keep it. The search helpers `FindAIMove`, `ScanTrials` and
  `TryCell` need not keep it: on a finished game with a free cell they reset
  the outcome fields, and `AiStep` restores it by checking the board again.
- `scenarios.dfy` (module `Scenarios`) plays short games through the
  methods' contracts alone.

Modelling choices:

- `null` in a cell is `Empty`, and a player is a non-empty cell.
- `winner` and `winningCombo` are `Option` values, and a winning combination
  is a `Line` of three indices.
- `Math.random()` becomes a parameter `rnd` with `0 <= rnd < 1`. The corner
  is `corners[floor(rnd * |corners|)]`, with the product taken over the
  reals rather than in floating point (see "## Left out").
- `aiPlay` is split in two. `AiPlay` sets `aiThinking`. `AiStep` is the body of
  the delayed callback, run as one synchronous step.
- The source never cancels a pending callback on `reset` or `setMode`, so
  `AiStep` has no precondition on the mode, the turn or `aiThinking`.
  `Scenarios.StaleMoveAfterReset` shows the result. A callback scheduled
  before a reset plays O on the new game's empty board and hands the turn to
  O. The model follows the code here, not a design where a reset cancels the
  pending move.
- When the board is full, `findIndex` returns -1 and the source writes
  `board[-1]`. In JavaScript that sets a property outside the nine cells. The
  model keeps the -1 and writes no cell.
- The trial loop of `findAIMove` places a mark, runs the check, then clears
  the cell and resets `winner`, `winningCombo` and `gameOver` to null/false.
  It does not restore their entry values. The model keeps that: the fields
  are as on entry when the game was not over or the board is full
  (`FindAIMove`'s last two `ensures`). Only a finished game with a free
  cell, which a stale callback can meet, leaves them reset.
- The loop appears twice in the source (for O, then for X). Here it is one
  method, `ScanTrials`, called twice. Its place/check/rollback body is
  `TryCell`. The source returns from inside the body after the same rollback,
  so the resulting state is the same.

## Model

| member | source | states |
|---|---|---|
| Rules.Other | tic_tac_toe_frontend/src/app/tic-tac-toe.service.ts:69-71 | the player a switch hands the turn to differs from the current one |
| Rules.FirstWinFrom | tic_tac_toe_frontend/src/app/tic-tac-toe.service.ts:74-86 | the scan over the winning lines stops at the first one, in declared order, whose three cells are equal and non-empty; when it finds none, no line from the start index wins |
| Rules.EvaluateOutcome | tic_tac_toe_frontend/src/app/tic-tac-toe.service.ts:73-92 | if some line wins, the game is over, the reported line is the first winning line in scan order and the winner is the mark in all three of its cells; with no winning line, a full board is a tie (no winner, no line, over) and otherwise nothing changes |
| Rules.FullBoardDecided | tic_tac_toe_frontend/src/app/tic-tac-toe.service.ts:87-91 | on a full board the check ends the game and its result does not depend on what the outcome fields held before |
| Rules.NotOverIsUndecided | tic_tac_toe_frontend/src/app/tic-tac-toe.service.ts:73-92 | if the check does not end the game, it reports no winner and no line, no line wins and the board has a free cell |
| Rules.WinnerHasLine | tic_tac_toe_frontend/src/app/tic-tac-toe.service.ts:76-83 | the check names a winner only when some line wins |
| Rules.NewLineRunsThrough | tic_tac_toe_frontend/src/app/tic-tac-toe.service.ts:58-59 | a line that wins only after a mark is placed on a free cell runs through that cell and holds that mark |
| Rules.WinPersists | tic_tac_toe_frontend/src/app/tic-tac-toe.service.ts:58-59 | placing a mark on a free cell never undoes a winning line |
| Rules.CompletesIffLine | tic_tac_toe_frontend/src/app/tic-tac-toe.service.ts:112-127 | on a board nobody has won, a trial of p at i reports p as the winner exactly when i is free and some winning line through i holds p in its two other cells (both directions) |
| Rules.ThirdMarkWins | tic_tac_toe_frontend/src/app/tic-tac-toe.service.ts:58-59 | on a board nobody has won, placing the third matching mark on any of the eight lines ends the game with that mark as winner and a winning line through the cell just played |
| Rules.EvaluateSettled | tic_tac_toe_frontend/src/app/tic-tac-toe.service.ts:73-92 | running the end-of-game check twice on the same board gives the same outcome as running it once |
| Rules.TrialReportsCompletion | tic_tac_toe_frontend/src/app/tic-tac-toe.service.ts:114-116 | when the outcome fields name a winner only if some line already wins, reading `winner` after a trial placement tells exactly whether that placement completes a line for the mark |
| Heuristic.LowestCompleting | tic_tac_toe_frontend/src/app/tic-tac-toe.service.ts:112-128 | the search returns the lowest index, from the start index on, where the mark wins at once; when it returns nothing, no such index exists |
| Heuristic.FreeAmong | tic_tac_toe_frontend/src/app/tic-tac-toe.service.ts:150 | the filter keeps exactly the listed indices whose cells are free, and keeps them in increasing order when the list is increasing |
| Heuristic.FirstFreeFrom | tic_tac_toe_frontend/src/app/tic-tac-toe.service.ts:154 | `findIndex` of a free cell: the lowest free index, or -1 exactly when no cell is free |
| Heuristic.Pick | tic_tac_toe_frontend/src/app/tic-tac-toe.service.ts:151 | the random pick selects a valid position among the candidates, namely the floor of rnd times their number |
| Heuristic.PickInRange | tic_tac_toe_frontend/src/app/tic-tac-toe.service.ts:151 | the floor of rnd times n lies in 0..n-1 for every rnd in [0, 1) |
| Heuristic.AIMove | tic_tac_toe_frontend/src/app/tic-tac-toe.service.ts:110-155 | the computer player's choice is a free cell whenever one exists, and -1 exactly when the board is full |
| Heuristic.Positional | tic_tac_toe_frontend/src/app/tic-tac-toe.service.ts:147-154 | the centre/corner/side steps pick a free cell whenever one exists, and -1 exactly on a full board |
| Heuristic.NoThreatIsPositional | tic_tac_toe_frontend/src/app/tic-tac-toe.service.ts:112-148 | when neither O nor X can win at once, only the centre/corner/side steps decide |
| Heuristic.AIMoveWinsFirst | tic_tac_toe_frontend/src/app/tic-tac-toe.service.ts:111-128 | step 1: when O can win at once, the choice is the lowest such cell |
| Heuristic.AIMoveBlocks | tic_tac_toe_frontend/src/app/tic-tac-toe.service.ts:129-146 | step 2: otherwise, when X could win at once, the choice is the lowest such cell |
| Heuristic.AIMoveCenter | tic_tac_toe_frontend/src/app/tic-tac-toe.service.ts:147-148 | step 3: otherwise the centre, when it is free |
| Heuristic.AIMoveCorner | tic_tac_toe_frontend/src/app/tic-tac-toe.service.ts:149-151 | step 4: otherwise some free corner, whatever the random number |
| Heuristic.PositionalCorner | tic_tac_toe_frontend/src/app/tic-tac-toe.service.ts:149-151 | with the centre taken and a corner free, the positional steps return a free corner |
| Heuristic.AIMoveSide | tic_tac_toe_frontend/src/app/tic-tac-toe.service.ts:152-154 | step 5: otherwise the lowest free side |
| Heuristic.PositionalSide | tic_tac_toe_frontend/src/app/tic-tac-toe.service.ts:152-154 | with the centre and every corner taken and a side free, the positional steps return the lowest free side |
| Heuristic.FirstFreeIsLowest | tic_tac_toe_frontend/src/app/tic-tac-toe.service.ts:153-154 | `sides[0]` is the lowest free index of the increasing candidate list |
| Heuristic.AIMoveFallback | tic_tac_toe_frontend/src/app/tic-tac-toe.service.ts:154 | the last fallback (the first free cell overall) is reached only on a full board, where the choice is -1 |
| Heuristic.WinNowExample | tic_tac_toe_frontend/src/app/tic-tac-toe.service.ts:111-128 | with X on 0 and 1 and O on 3 and 4, the computer takes 5 and wins rather than blocking at 2 |
| Heuristic.BlockExample | tic_tac_toe_frontend/src/app/tic-tac-toe.service.ts:129-146 | with X on 0 and 1 and O on 4, the computer blocks at 2 |
| Heuristic.EmptyBoardExample | tic_tac_toe_frontend/src/app/tic-tac-toe.service.ts:147-148 | on the empty board the computer takes the centre |
| Heuristic.CornerOpeningExample | tic_tac_toe_frontend/src/app/tic-tac-toe.service.ts:147-148 | after X opens in corner 0, the computer takes the centre |
| Service.TicTacToeService.constructor | tic_tac_toe_frontend/src/app/tic-tac-toe.service.ts:31-34 | a new service is in two-player mode with a fresh empty board, X to move, no winner, no line, game not over, no pending computer move |
| Service.TicTacToeService.SetMode | tic_tac_toe_frontend/src/app/tic-tac-toe.service.ts:37-41 | the mode becomes the given one and every other field is as after a reset |
| Service.TicTacToeService.Reset | tic_tac_toe_frontend/src/app/tic-tac-toe.service.ts:44-52 | whatever the prior state: a fresh board of nine empty cells, X to move, no winner, no line, not over, nothing pending, mode kept |
| Service.TicTacToeService.MakeMove | tic_tac_toe_frontend/src/app/tic-tac-toe.service.ts:55-67 | refused exactly when the game is over or the cell is taken, and then nothing changes; otherwise only that cell changes, to the mover's mark; the outcome fields follow the check; the turn passes exactly when the game goes on; the computer's move becomes pending when the turn passes to O in computer mode; the class invariant is kept |
| Service.TicTacToeService.SwitchPlayer | tic_tac_toe_frontend/src/app/tic-tac-toe.service.ts:69-71 | the turn passes to the other player, and the class invariant is kept |
| Service.TicTacToeService.CheckGameOver | tic_tac_toe_frontend/src/app/tic-tac-toe.service.ts:73-92 | the loop over the lines leaves the outcome fields equal to `Evaluate` of the board from their previous values; run on a consistent state it keeps the state consistent, since a second check of the same board changes nothing |
| Service.TicTacToeService.AiPlay | tic_tac_toe_frontend/src/app/tic-tac-toe.service.ts:96-98 | the computer's move is marked as pending, and the class invariant is kept |
| Service.TicTacToeService.AiStep | tic_tac_toe_frontend/src/app/tic-tac-toe.service.ts:99-105 | the callback plays O on the cell `AIMove` chooses, which was free; no other cell changes; it clears the pending flag; it passes the turn exactly when the game goes on; it keeps the class invariant |
| Service.TicTacToeService.TryCell | tic_tac_toe_frontend/src/app/tic-tac-toe.service.ts:113-126 | one trial reports whether the mark completes a line at that cell, and leaves the board as it was and the outcome fields reset to a game in progress |
| Service.TicTacToeService.ScanTrials | tic_tac_toe_frontend/src/app/tic-tac-toe.service.ts:112-128 | the trial loop finds the lowest cell where the mark wins at once; the board is unchanged; the outcome fields are reset if any cell was tried and unchanged on a full board |
| Service.TicTacToeService.FindAIMove | tic_tac_toe_frontend/src/app/tic-tac-toe.service.ts:110-155 | the choice equals `AIMove` of the entry board; the board is as on entry; the outcome fields are as on entry when the game was not over |
| Scenarios.OpenInCorner | tic_tac_toe_frontend/src/app/tic-tac-toe.service.ts:55-67 | in computer mode, X's opening in corner 0 is accepted, the turn passes to O and the computer's move becomes pending |
| Scenarios.CornerOpeningAnswered | tic_tac_toe_frontend/src/app/tic-tac-toe.service.ts:99-105 | the callback answers the corner opening in the centre and hands the turn back to X, with nothing pending |
| Scenarios.StaleMoveAfterReset | tic_tac_toe_frontend/src/app/tic-tac-toe.service.ts:44-52 | a reset does not cancel a pending computer move: the old callback plays O in the centre of the new board and the turn goes to O |

## Left out

- The `setTimeout` scheduling and the 550 ms delay in `aiPlay`. The callback body is `AiStep`, and when it runs is up to the caller.
- `Math.random`: the random number is the parameter `rnd`.
- Angular dependency injection and decorators.
- `app.component.ts` is not part of this model. Its status text is display only, and its click guard is presentation code in front of `makeMove`.
- `tic-tac-toe-board.component.ts` is not part of this model. It only emits clicks and highlights the winning cells.
- Heuristic.Pick: takes the floor of `rnd * n` over the reals, not of the IEEE double product. Near a boundary the two can differ: for `rnd` = 0.3333333333333333 and three free corners, the double product rounds to 1 and the source takes `corners[1]`, while `Pick` gives 0. Because `rnd` ranges over all of [0, 1), every free corner is still reachable.
- Service.TicTacToeService.MakeMove: requires `0 <= idx < 9`. The source does not check the index, and out-of-range indices are outside the model.
- Service.TicTacToeService.AiStep: on a full board the source writes a non-index property `board[-1]`. The model writes no cell and does not represent that property.
- The identity of the winning-line array: `winningCombo` is a `Line` value. The source stores a reference to the pattern array.
