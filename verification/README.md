# Tic-tac-toe game logic in Dafny

This project models the game logic of a browser tic-tac-toe game. It covers
two parts, separated from the page that displays them:

- **The game-state machine.** The state is the nine-cell board, the player to
  move, the game-over flag, the move history and the win/draw tallies. Its
  operations are the winner check, a move with its score update, undo, and
  the restart performed by the reset button and by a change of game mode.
- **The computer player.** This is the exhaustive minimax search and the
  decision built on it. The decision plays the centre on an empty board and
  otherwise the lowest-numbered best cell. Easy mode picks a random empty
  cell instead.

The modules follow the structure of `script.js`:

- `Options` is the optional value that the JavaScript signals with `null`.
- `Boards` holds cells, marks, the eight winning lines in scan order, the
  empty-cell list and `CheckWinner`.
- `Game` holds the state record, `MakeMove`, `Undo`, `Reset` and
  `ChangeMode`, with the state invariant and the turn alternation.
- `Engine` holds `Minimax`, the decision, the random pick, and a version of
  the search that works in place on an array.
- `Ai` is the computer's turn: the chosen cell played for O.
- `Scenarios` holds worked games.

The JavaScript keeps the state in module globals and mutates it. Here the
state is one immutable record: each operation takes it and returns the next
one.

Scores are from O's point of view: +1 means O wins, -1 means X wins, 0 is a
draw. The search's `-Infinity` and `Infinity` starting values are -2 and 2.
They lie outside the score range, so they play the same role. The
`Minimax` result on a board in play is characterised by three lemmas:

- `MinimaxUpper`: no empty cell is worth more to O.
- `MinimaxLower`: no empty cell is worth less to X.
- `MinimaxAttained`: some empty cell reaches the value.

All three start from `MinimaxUnfold`, which unfolds the value into the fold
over the empty cells.

Undo hands the turn to the player of the undone move. While the moves
alternate from X (`TurnOrder`), that is exactly the player who was to move
before that move, and `UndoKeepsTurnOrder` proves that undo keeps the
alternation. A move out of turn breaks this, as `OutOfTurnBreaksOrder`
shows.
`UndoAfterMove` proves that undoing a move that did not end the game restores
the previous board, history, flag and scores, with the undone move's player to
move. `UndoInverse` specialises it to a move by the player to move: undo then
gives back exactly the previous state.

On X X _ / O O _ / _ _ _ with O to move, both cell 2 and cell 5 score +1:

- cell 5 completes O's middle row at once;
- cell 2 makes a fork that wins one move later.

Because the comparison is a strict `>`, the decision keeps the lower cell 2.
`TwoForcedWins` proves that 2 is the only lowest best cell. The search does
not weight wins by depth, so it does not prefer the immediate win.

## Model

| member | source | states |
|---|---|---|
| Boards.Opponent | script.js:90 | the opponent of a mark is the other mark |
| Boards.Empties | script.js:122 | the list of empty cells holds exactly the empty cells, in ascending order, and is empty exactly when the board is full |
| Boards.AllEmptyIff | script.js:122-123 | nine empty cells means the board is the empty board, and conversely, which is the test for the centre opening |
| Boards.FillCount | script.js:84-85 | marking an empty cell raises the count of marked cells by exactly one |
| Boards.OverwriteCount | script.js:84 | writing a mark over a marked cell leaves the count of marked cells unchanged |
| Boards.ClearCount | script.js:101 | clearing a marked cell lowers the count of marked cells by exactly one |
| Boards.Place | script.js:126-127 | placing a mark on an empty cell sets that cell only and leaves one empty cell fewer, which is the search's termination measure |
| Boards.FirstWin | script.js:57-60 | the scan returns the first uniform line at or after its start, and nothing exactly when no later line is uniform |
| Boards.CheckWinner | script.js:56-63 | over the eight lines `WinLines`, which are the triples of `WIN_LINES` (script.js:40-44) in the same order, a win is reported exactly when some line is uniform, on the first uniform line in scan order and with that line's mark; a draw exactly when no line is uniform and all nine cells are marked; otherwise the game is still in play |
| Boards.ClearKeepsInPlay | script.js:98-103 | emptying a cell of a board that is in play leaves it in play |
| Game.Credit | script.js:66-73 | a finished game raises exactly one tally by one: X's for an X win, O's for an O win, the draw tally for a draw |
| Game.MakeMove | script.js:82-95 | a move is rejected exactly when the game is over or the cell is marked, and then nothing changes; an accepted move sets only its cell, appends itself to the history, and ends the game exactly when the winner check is no longer in play; an ending move credits the result, any other move passes the turn to the opponent with the scores unchanged |
| Game.Undo | script.js:98-105 | with an empty history or a finished game nothing changes; otherwise the last history entry is popped, its cell is emptied, the other cells and the scores are unchanged, the game is running and the popped move's player is to move |
| Game.Reset | script.js:160-166 | reset empties the board and the history, clears the game-over flag, gives X the move and keeps the scores |
| Game.ChangeMode | script.js:170-176 | changing the game mode leaves exactly the state a reset leaves |
| Game.EmptyBoardCount | script.js:23-27 | the initial board has no marks and is in play |
| Game.InitialInv | script.js:23-27 | the page-load state is a running game with no scores that keeps the invariant and the alternation from X |
| Game.ResetInv | script.js:160-166 | reset yields a state whose history accounts for the board and whose game-over flag matches the winner check, whatever state it is applied to |
| Game.ResetTurnOrder | script.js:160-166 | reset restarts the alternation with X to move |
| Game.ReplayCount | script.js:84-85 | replaying a history marks at most one cell per move, and exactly one per move precisely when every move went onto an empty cell |
| Game.MakeMovePreservesInv | script.js:82-95 | every move keeps the invariant: history length equals the number of marks, replaying the history rebuilds the board, and the game-over flag holds exactly when the winner check is not in play |
| Game.UndoPreservesInv | script.js:98-105 | undo keeps the same invariant |
| Game.UndoAfterMove | script.js:98-103 | undoing an accepted move that did not end the game gives back the earlier state with the turn given to the undone move's player |
| Game.UndoInverse | script.js:98-103 | undo is the inverse of an accepted move by the player to move that did not end the game: it gives back exactly the earlier state |
| Game.SecondMoveRejected | script.js:83 | repeating an accepted move on the same cell is rejected and leaves the state unchanged |
| Game.MakeMoveKeepsTurnOrder | script.js:90 | a move by the player to move keeps the alternation from X and the turn of whoever moves next |
| Game.OutOfTurnBreaksOrder | script.js:91-103 | an accepted O move on X's turn leaves a history that no longer alternates from X, and undoing it, when it did not end the game, gives the earlier state with O to move instead of X |
| Game.UndoKeepsTurnOrder | script.js:103 | undo keeps the alternation: the popped move's player is the one whose turn it was before that move |
| Engine.Minimax | script.js:134-151 | the value is -1, 0 or +1; a won board scores +1 exactly when O won and -1 exactly when X won, and a drawn board scores 0 |
| Engine.MoveValue | script.js:126-128 | the value of a candidate move, the minimax value of the board after it with the other side to move, is -1, 0 or +1 |
| Engine.Best | script.js:142-149 | folding the move values with max for O never lowers the start and with min for X never raises it; once a move is folded in the result is in the score range on the side the fold moves |
| Engine.BestBoundsMax | script.js:143-145 | the max fold is at least every move value it visits |
| Engine.BestBoundsMin | script.js:147-149 | the min fold is at most every move value it visits |
| Engine.BestAttained | script.js:142-149 | the fold ends on its start value or on one of the move values it visits |
| Engine.MinimaxUnfold | script.js:141-149 | the unfolding step for the bound lemmas below: on a board in play the value is the fold over the empty cells from the sentinel, each of which is a legal move |
| Engine.MinimaxUpper | script.js:142-145 | on a board in play no empty cell is worth more to O than the minimax value with O to move |
| Engine.MinimaxLower | script.js:146-149 | on a board in play no empty cell is worth less to X than the minimax value with X to move |
| Engine.MinimaxAttained | script.js:134-151 | on a board in play some empty cell attains the minimax value for the side to move |
| Engine.WinningMove | script.js:135-145 | when O can complete a line at once that move scores +1 and so does the board |
| Engine.LosingMove | script.js:135-149 | when X can complete a line at once that move scores -1 and so does the board |
| Engine.MinimaxDecision | script.js:121-132 | a move is returned exactly when the board has an empty cell, and it is always an empty cell; the empty board gets the centre; any other board gets an empty cell of maximal value for O that beats every lower empty cell, and on a board in play that value is the board's minimax value |
| Engine.MoveValues | script.js:125-128 | the scores the decision computes are, position by position, the values of the listed cells |
| Engine.FirstMax | script.js:124-131 | the strict-greater scan from minus infinity returns nothing for no scores and otherwise the first position of a maximal score |
| Engine.ScanBest | script.js:122-131 | the scan over the empty cells returns nothing exactly on a full board and otherwise the lowest best cell |
| Engine.DecisionBoundsCell | script.js:124-131 | a cell found first at the maximal score bounds every empty cell's value, strictly for the lower ones |
| Engine.DecisionLowestBest | script.js:124-131 | the cell the scan keeps is the lowest best cell |
| Engine.LowestBestUnique | script.js:129 | at most one cell is the lowest best cell, so the strict comparison determines the decision |
| Engine.LowestBestAttainsMinimax | script.js:121-131 | on a board in play the lowest best cell is worth the board's minimax value for O |
| Engine.RandomMove | script.js:111-112 | the easy-mode pick is an empty cell, and there is none exactly when the board is full |
| Engine.RandomMoveUniform | script.js:111-112 | each empty cell is chosen by exactly one draw, so a uniform draw picks every empty cell with the same chance |
| Engine.MinimaxInPlace | script.js:134-151 | the in-place search with place and erase leaves the board exactly as it found it and returns the pure search's value |
| Ai.AiMove | script.js:108-118 | nothing happens once the game is over; otherwise easy mode plays the random pick and the other level plays the minimax decision, always as an accepted move for O; from a state that keeps the invariant and is still running a move is always played and the invariant is kept, and a move on O's turn keeps the alternation |
| Ai.RunningHasEmpty | script.js:109-113 | a running game that keeps the invariant has an empty cell and is in play, so the random pick always finds a cell |
| Scenarios.WonBy | script.js:56-60 | a board on which every uniform line holds the same mark is won by that mark |
| Scenarios.OpenBoard | script.js:56-62 | a board with an empty cell and no uniform line is in play |
| Scenarios.TopLineWin | script.js:57-59 | a uniform top row is always the reported line |
| Scenarios.TopRowWin | script.js:82-95 | X on 0, O on 4, X on 1, O on 7, X on 2 ends the game with X winning on line 0-1-2 and X's tally going from 0 to 1 |
| Scenarios.FullBoardDraw | script.js:61 | the full board X O X / X O O / O X X is a draw |
| Scenarios.UndoOpening | script.js:98-103 | undoing X's opening move on cell 0 gives back the empty board with X to move |
| Scenarios.ImmediateWinAtFive | script.js:125-129 | on X X _ / O O _ / _ _ _ cell 5 scores +1 for O |
| Scenarios.ForcedWinAtTwo | script.js:125-129 | on the same board cell 2 also scores +1, since every reply of X to the fork loses |
| Scenarios.TwoForcedWins | script.js:124-131 | on that board the lowest best cell is 2 and no other, so the decision plays 2 although 5 wins at once |

## Left out

- Theme switching and its colour tables (script.js:1-20) are presentation only.
- Rendering, DOM lookups, winning-line highlighting and `alert` calls are user-interface side effects (script.js:29-38, 47-53, 70-77). Only the tally and game-over updates of `setStatusWinner` are modelled. The winning line is kept in the `Won` outcome.
- The export button (script.js:179-188) writes a JSON file with a timestamp. This is I/O.
- Two pieces of event-loop plumbing are left out because they are scheduling, not game logic:
  - scheduling the computer's move with `setTimeout` after a human move in player-versus-computer mode (script.js:91);
  - the click handler's refusal of clicks while it is O's turn in that mode (script.js:154-158).

  `AiMove` is the move that the scheduled call makes.
- AiMove: keeps the alternation only when called on O's turn. The scheduled call is never cancelled. If X presses undo or reset, or changes the mode, within the 150 ms delay, the call still runs on X's turn, and `aiMove` (script.js:108-118) does not check whose turn it is. O then moves out of turn: `OutOfTurnBreaksOrder` shows that this breaks the alternation and that a later undo hands the turn to O.
- `Math.random` is not modelled. The random draw is the parameter `k` of `RandomMove` and `AiMove`, and `RandomMoveUniform` states that each empty cell has exactly one draw.
- The `depth` argument of `minimax` is never read, so it is dropped.
- The decision always places O, its only caller's player (script.js:115). Its scores are from O's side whatever the player argument is (script.js:128).
- Cell indices are 0 to 8, the only values that clicks and the empty-cell lists produce.
- AiMove: easy mode on a full board whose game is not over makes no move. The JavaScript passes `undefined` to `makeMove` there. `RunningHasEmpty` shows that the invariant rules this state out.
- The search in `Minimax` runs on an immutable board. `MinimaxInPlace` covers the in-place place-and-erase version on an array.
