# Tic-tac-toe against a minimax opponent, in Dafny

This project models the game logic of a browser tic-tac-toe. A human plays X
against a computer that plays O. The computer picks its move by exhaustive
minimax search with alpha-beta pruning. The model covers three parts:

- **Board** (`board.dfy`): the three cell values (`Empty`, `X`, `O`), the eight
  winning index triples and the win test (`checkWin` without its
  highlighting). It also holds a geometric description of the same lines and
  the counting facts used elsewhere.
- **Search** (`search.dfy`): plain minimax as a specification
  (`MinimaxValue`), and the source's pruned search as an imperative method.
  `Minimax` works on the one shared 9-cell `array<Cell>`: it places a trial
  mark, recurses and undoes the mark, and the win tests read that same array.
  `ChooseMove` is the root loop of `aiMove`.
- **Turns** (`turns.dfy`): the three globals `board`, `currentPlayer` and
  `gameActive`. They appear twice. First as a `GameState` value with pure step
  functions `HumanStep` (`handleCellClick`) and `AiStep` (`aiMove`). Then as
  the class `Game`, whose methods `HandleMove`, `AiMove` and `Restart` update
  the fields in place and are proved to follow the step functions.

What is proved:

- The win test holds exactly when some triple of the table is filled by the
  mark, and the eight triples are exactly the rows, columns and diagonals.
- `Minimax` returns `10 - depth` on an O win, `depth - 10` on an X win and
  `0` on a full board, tested in that order.
- Every score `Minimax` returns, and every minimax value, lies in
  `[depth - 10, 10 - depth]` when `depth` is at least 0 and `depth` plus the
  empty cells is at most 10. That covers every call the program makes: the
  root passes depth 0 on a 9-cell board, and each level adds one to the depth
  and fills one cell. At the root the range is `[-10, 10]`, so the ±1000
  sentinels that stand for ±Infinity never come out of the search.
- `Minimax` hands back the array exactly as it found it.
- Alpha-beta is fail-soft correct against the unpruned value v. If r ≤ alpha
  then v ≤ r; if r ≥ beta then v ≥ r; otherwise r = v. With the root's full
  window the answer is exactly v, so pruning never changes the computer's
  choice.
- The computer's move goes to an empty cell. It is the lowest-numbered cell
  among those of maximal score, because a later probe only replaces the
  choice when it scores strictly higher.
- A click on a finished game or a taken cell changes nothing.
- `Game` keeps its fields playable across clicks and restarts: never a line
  for both marks, and while the game is on no line and a free cell. When X
  was to move with level counts, that stays so after the click.
- Across any sequence of clicks from a fresh game, three things hold. At most
  one mark ever has a line. While the game is on nobody has won and a cell is
  free. X is to move at every click, and X's count equals O's or is one more.

Behaviour kept as the program has it:

- An illegal click is ignored and no error is reported (script.js:42).
- The computer always plays O; its mark is not a parameter (script.js:87, 98, 121).
- The search places and removes trial marks on one shared array, the same
  array the win tests read. It never copies the board for a branch
  (script.js:112-144).
- When `aiMove` finds no empty cell, `move` stays undefined (script.js:83).
  The write `board[undefined] = "O"` (script.js:98) then touches no cell. The
  model represents this as `None` and leaves the board unchanged.

## Model

| member | source | states |
|---|---|---|
| Board.WinConditions | TicTacToe/script.js:12-16 | the eight index triples: three rows, three columns, two diagonals, in the source's order |
| Board.Wins | TicTacToe/script.js:67-78 | checkWin(p): the table scanned in order, true at the first triple whose three cells hold p |
| Board.WinsIffSomeCondition | TicTacToe/script.js:67-78 | the win check holds iff some triple of the table has all three cells equal to the mark |
| Board.AnyLineFilledIff | TicTacToe/script.js:68-77 | the in-order scan with early return is true iff some scanned line is filled, for any list of lines |
| Board.WinsIffGrid | TicTacToe/script.js:12-16 | the eight triples are exactly the three rows, three columns and two diagonals of the 3x3 grid |
| Board.PlacingOtherMarkKeepsNoWin | TicTacToe/script.js:44 | writing some other mark into a cell never creates a line for the mark |
| Board.AbsentMarkHasNoLine | TicTacToe/script.js:2 | a mark that is on no cell has no line, as on the empty starting board |
| Board.CountZeroIff | TicTacToe/script.js:53 | the board has no empty cell (`!board.includes("")`) iff the empty count is zero |
| Board.CountUpdate | TicTacToe/script.js:44 | writing one cell changes each count by exactly the value leaving and the value entering |
| Board.PlacingUsesEmptyCell | TicTacToe/script.js:121 | a mark placed on an empty cell leaves one empty cell fewer, the search's termination measure |
| Search.MinimaxValue | TicTacToe/script.js:112-144 | the unpruned minimax value: the terminal scores in the source's order, otherwise the best child for O and the best reply for X |
| Search.ValueBounds | TicTacToe/script.js:113-143 | with depth + empty cells <= 10 the minimax value lies in [depth - 10, 10 - depth] |
| Search.MaxPrefixIsUpperBound | TicTacToe/script.js:119-128 | the maximizer's running best is at least the value of any child it has covered |
| Search.MaxPrefixIsAttained | TicTacToe/script.js:118-128 | the maximizer's best is -1000 only with no empty cell covered, and otherwise is a covered child's value inside the score range |
| Search.MinPrefixIsLowerBound | TicTacToe/script.js:132-141 | the minimizer's running best is at most the value of any child it has covered |
| Search.MinPrefixIsAttained | TicTacToe/script.js:131-141 | the minimizer's best is 1000 only with no empty cell covered, and otherwise is a covered child's value inside the score range |
| Search.MinimaxIsBestMove | TicTacToe/script.js:117-143 | on a board not over, the maximizer's value is that of its best child and the minimizer's that of its best reply, both attained |
| Search.MaxStep | TicTacToe/script.js:122-126 | one probe of the maximizer: a cutoff leaves an answer fail-soft for the whole node, otherwise the loop's knowledge extends to the next cell |
| Search.MinStep | TicTacToe/script.js:135-139 | one probe of the minimizer: a cutoff leaves an answer fail-soft for the whole node, otherwise the loop's knowledge extends to the next cell |
| Search.FullWindowExact | TicTacToe/script.js:88 | with the window (-1000, 1000) at depth 0 the pruned answer equals the unpruned value and lies in [-10, 10] |
| Search.Minimax | TicTacToe/script.js:112-144 | 10 - depth on an O win, else depth - 10 on an X win, else 0 on a full board; within [depth - 10, 10 - depth] when depth + empty cells <= 10; the array restored exactly; the answer fail-soft against the unpruned minimax value for the window |
| Search.Probe | TicTacToe/script.js:121-136 | one trial mark placed, searched one level deeper with the other side to move, and removed: array restored, answer fail-soft against that child's value and in [depth - 9, 9 - depth] |
| Search.Maximize | TicTacToe/script.js:117-129 | O tried in each empty cell and undone, alpha raised, loop left once beta <= alpha; array restored, answer fail-soft against the best child value, and in [depth - 9, 9 - depth] when a cell is empty |
| Search.Minimize | TicTacToe/script.js:130-143 | X tried in each empty cell and undone, beta lowered, loop left once beta <= alpha; array restored, answer fail-soft against the best reply value, and in [depth - 9, 9 - depth] when a cell is empty |
| Search.BestMove | TicTacToe/script.js:85-96 | the cell aiMove picks, when there is one, is an empty cell of the board |
| Search.ChooseMove | TicTacToe/script.js:85-96 | each probe leaves the board unchanged, and the chosen cell is the one plain minimax designates |
| Search.BestPrefix | TicTacToe/script.js:91-94 | the kept move is None with score -1000, or an empty cell already passed whose score is the kept score |
| Search.BestPrefixIsFirstMaximum | TicTacToe/script.js:85-96 | the kept move is None iff no cell passed is empty, and otherwise the first cell of maximal score |
| Search.ProbeScoreBounds | TicTacToe/script.js:88 | a root probe of an empty cell scores in [-10, 10], so it always beats the -1000 start |
| Search.BestMoveIsFirstMaximum | TicTacToe/script.js:85-99 | the computer's cell is empty, has maximal probe score and is the lowest such index; there is none iff the board is full |
| Turns.Initial | TicTacToe/script.js:2-4 | the load-time state: nine empty cells, X to move, game on |
| Turns.HumanStep | TicTacToe/script.js:39-64 | handleCellClick as a function of the state; the board keeps its nine cells |
| Turns.AiStep | TicTacToe/script.js:81-109 | aiMove as a function of the state; the board keeps its nine cells |
| Turns.RejectedClickChangesNothing | TicTacToe/script.js:42 | a click on a finished game or on a taken cell leaves the whole state unchanged |
| Turns.AcceptedClickOutcome | TicTacToe/script.js:44-63 | an accepted click writes the mover's mark into that cell, ends the game on a line or a full board, and otherwise passes the turn, the computer replying for O |
| Turns.AiStepPlaysBestCell | TicTacToe/script.js:81-109 | the reply writes O into exactly one empty cell, the first of maximal score, gives X the turn and ends the game iff O has a line or no cell is free |
| Turns.FreshGameIsPlayableAndBalanced | TicTacToe/script.js:2-4 | the fresh state has no winner, a free cell, X to move and level counts |
| Turns.AiStepKeepsPlayable | TicTacToe/script.js:81-109 | the computer's reply on a playable game that is still on leaves it playable: O's mark gives X no line |
| Turns.HumanStepKeepsPlayable | TicTacToe/script.js:39-64 | a click keeps at most one mark with a line, and keeps no line and a free cell while the game is on |
| Turns.HumanStepKeepsBalanced | TicTacToe/script.js:39-64 | a click keeps X to move and X's count equal to O's or one more, equal while the game is on |
| Turns.PlayIsPlayableAndBalanced | TicTacToe/script.js:39-64 | every state reached by clicks from a fresh game is playable and balanced |
| Turns.Game.constructor | TicTacToe/script.js:2-4 | a fresh empty 9-cell board, X to move, game on; playable and balanced |
| Turns.Game.Restart | TicTacToe/script.js:148-150 | a new empty board, X to move, game on; playable and balanced |
| Turns.Game.AiMove | TicTacToe/script.js:81-109 | called on a playable game that is still on; the fields after the call are AiStep of the fields before, on the same array, and still playable |
| Turns.Game.HandleMove | TicTacToe/script.js:39-64 | the fields after the call are HumanStep of the fields before, on the same array; the fields stay playable, and balanced when they were |

## Left out

- Rendering is not modelled: `renderBoard`, building the cells, the first render and the `filled` class (script.js:19-36, 162) are presentation.
- Listener wiring and reading the index from `e.target.dataset` (script.js:33, 40, 147) are left out. `HandleMove` takes the index as an integer in 0..8, the only values a rendered cell carries.
- The winning-cell highlight inside `checkWin` (script.js:71-73) and its removal on restart (script.js:154-156) are visual side effects. They are left out.
- The status text updates (script.js:48, 54, 103, 106, 151) are left out. The outcome is read from `gameActive` and `Wins`.
- Floating-point `Infinity`, `Math.max` and `Math.min` become the integers ±1000 with integer max and min. `ValueBounds` shows that no real score comes near them for every call the program makes (depth from 0, and depth plus empty cells at most 10). A depth beyond 1010, which the program never passes, would make an integer score meet the sentinel where the script's `Infinity` would not.
- Search.Minimax: requires -1000 <= alpha < beta <= 1000. Every call in the source satisfies this: the root passes the full window, and a child is searched only while beta > alpha. With alpha >= beta the fail-soft relation would not hold.
- Pruning counts and running time are not behaviour and are not modelled.
