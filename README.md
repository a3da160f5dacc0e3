# Naughts and crosses: the match engine

This project models the match engine of a Unity noughts-and-crosses game. That engine is the
`MatchManager` controller and the nine clickable `XOGridNode` cells. The model then proves
properties of it.

The board is a sequence of nine cells, numbered row by row from the top left. A cell holds
0 (empty), 1 (player 1) or 2 (player 2).

- The match controller keeps the board and an undo stack of the cells played. It also
  keeps a turn counter (1 before the first move), the player to move, the player holding
  the cross, the match phase (`Start`, `InProgress`, `End`), the match type (local,
  against the computer, or computer against computer), the computer's level, a per-turn
  timer and the computer's move delay.
- A move counts the turn and places the mover's mark. It then evaluates the outcome from
  the cell just played: the row, the column, the anti-diagonal, the main diagonal, and
  then a draw on turn 10 or a full board. An outcome ends the match; otherwise the players
  swap.
- The computer player picks a random empty cell on the first turn. Later it plays the
  best move of a depth-discounted minimax search, unless a random draw falls under its
  level's random share. The hint button runs the same selector at the impossible level
  for the human player. The undo button takes back one round (two moves).

The project has four modules:

- `Grid` (`grid.dfy`): cells, boards, the eight lines and the outcome evaluator
  `GameEnd`, with its characterisation by complete lines.
- `Search` (`search.dfy`): the minimax value, the best-move scan and the move selector,
  all as pure functions, with lemmas. The lemmas say the best move is the first cell of
  maximal score. It takes an immediate win, and otherwise blocks the opponent's single
  threat.
- `Match` (`match.dfy`): the whole controller state as a `Snapshot` value and every
  operation as a transition function. Lemmas cover the counter invariant `Consistent`:
  one stacked move per turn, distinct cells, and exactly the occupied cells. Others
  cover what a move, an undo, a frame and a timeout do.
- `Controller` (`controller.dfy`): the classes `GridNode` and `MatchManager` with the
  fields the source updates in place. Each method states its new `State()` as the
  matching transition of `Match` applied to the old state, and keeps `Valid()`: the
  cells mirror the grid, and once a match has started the state is `Consistent`. The
  loops of the source are loops with invariants here: the empty-cell scans, the
  best-move scan and the two minimax scans. Each is proved to compute the pure function
  of `Search` or `Grid`.

Randomness is a parameter. `roll` is the value in [0, 100] that `Random.Range(0f, 100f)`
would return. `k` is the index that `Random.Range(0, count)` would return, so it is below
the number of empty cells. The frame time is a parameter `elapsed`. Time is counted in
whole milliseconds: the default per-turn limit is 5000 and the computer's delay is 750.

## Model

| member | source | states |
|---|---|---|
| Grid.Winner | Assets/Scripts/XOGameScripts/MatchManager.cs:371-378 | a win converts the winning cell value to that player's EndingType (1 to Player1Win, 2 to Player2Win), never None or Draw |
| Grid.Other | Assets/Scripts/XOGameScripts/MatchManager.cs:675 | the opposite player: 1 becomes 2 and 2 becomes 1 |
| Grid.GameEnd | Assets/Scripts/XOGameScripts/MatchManager.cs:291-381 | the outcome is None, Draw or a win for the mark at `last`, never a win for the other mark; None only when the turn counter is not 10 and some cell is empty; Draw only on turn 10 or a full board |
| Grid.GameEndCharacterized | Assets/Scripts/XOGameScripts/MatchManager.cs:291-381 | the outcome after a move at `last` is a win for the mark at `last` exactly when some line through `last` (of all eight) is complete; otherwise Draw exactly when the turn counter is 10 or no cell is empty, and None otherwise |
| Grid.EmptyFrom | Assets/Scripts/XOGameScripts/MatchManager.cs:539-548 | the collected list holds exactly the empty cells, in increasing order |
| Grid.EmptyCellsEmptyIffFull | Assets/Scripts/XOGameScripts/MatchManager.cs:550-553 | the list of empty cells is empty exactly when the board is full |
| Grid.PlaceShrinksEmpties | Assets/Scripts/XOGameScripts/MatchManager.cs:627-637 | placing a mark on an empty cell of a copy removes exactly one cell from the set of empty cells (leaving at most eight), so the recursive search ends and each level is one cell fuller |
| Search.WinnerNumber | Assets/Scripts/XOGameScripts/MatchManager.cs:615 | a winning EndingType read as a number is the winning player: Player1Win is 1 and Player2Win is 2, the inverse of the cell-to-ending conversion |
| Search.WinScore | Assets/Scripts/XOGameScripts/MatchManager.cs:599-615 | a terminal win scores exactly 10/depth or -(10/depth) (division truncating toward zero); up to depth 10 it is never 0, positive exactly when the winner is the player the search is for and negative exactly otherwise |
| Search.DiscountShrinks | Assets/Scripts/XOGameScripts/MatchManager.cs:615 | with integer division truncating toward zero, the discounted score 10/(depth+1) is non-negative and at most 10/depth |
| Search.Minimax | Assets/Scripts/XOGameScripts/MatchManager.cs:599-666 | the minimax value of a position at `depth` lies within plus or minus 10/depth, and within plus or minus 10/(depth+1) when the move at `last` did not end the game; a drawn position scores exactly 0, and a position the move at `last` won scores exactly 10/depth or -(10/depth), never 0, positive exactly when the mark at `last` is the searching player's. The search only ever runs with the depth plus the empty cells at most nine, which every caller in the controller meets |
| Search.ChildrenBest | Assets/Scripts/XOGameScripts/MatchManager.cs:620-665 | the scan over the children gives its start value (-999 when maximizing, 999 when minimizing) exactly when no cell is empty, and otherwise a score within the next depth's bound |
| Search.Child | Assets/Scripts/XOGameScripts/MatchManager.cs:627-637 | the score of a child position lies within the bound of the next depth |
| Search.MinimizingAtMostEachChild | Assets/Scripts/XOGameScripts/MatchManager.cs:643-665 | the minimizing scan is at most the score of every empty cell |
| Search.MinimizingAtLeastBound | Assets/Scripts/XOGameScripts/MatchManager.cs:643-665 | the minimizing scan is at least every bound that all children's scores meet |
| Search.MaximizingAtLeastEachChild | Assets/Scripts/XOGameScripts/MatchManager.cs:620-642 | the maximizing scan is at least the score of every empty cell |
| Search.MaximizingAtMostBound | Assets/Scripts/XOGameScripts/MatchManager.cs:620-642 | the maximizing scan is at most every bound that all children's scores stay under |
| Search.Score | Assets/Scripts/XOGameScripts/MatchManager.cs:572-578 | the score of a first move lies in [-10, 10] |
| Search.Scores | Assets/Scripts/XOGameScripts/MatchManager.cs:567-578 | the scan sees one score per cell, and every score lies in [-10, 10], the range between the initial -999 and any real score |
| Search.ScanBest | Assets/Scripts/XOGameScripts/MatchManager.cs:567-585 | the scan either keeps the move it started with, or ends on a later empty cell whose score beats the starting best score |
| Search.BestMove | Assets/Scripts/XOGameScripts/MatchManager.cs:561-588 | the best move is -1 or an empty cell |
| Search.BestMoveIsFirstMaximum | Assets/Scripts/XOGameScripts/MatchManager.cs:561-588 | the best-move scan returns -1 exactly on a full board; otherwise it returns an empty cell of maximal score, and no lower-index empty cell scores as high |
| Search.WinningMoveScore | Assets/Scripts/XOGameScripts/MatchManager.cs:602-616 | a first move that completes the mover's line scores exactly 10, and any other first move scores at most 5 |
| Search.BestMoveTakesWin | Assets/Scripts/XOGameScripts/MatchManager.cs:561-588 | when the player can win at once, the best move is the lowest cell that completes a line |
| Search.BestMoveBlocks | Assets/Scripts/XOGameScripts/MatchManager.cs:561-666 | when the player cannot win at once and the opponent has exactly one winning cell, the best move is that cell (turn counter other than 10) |
| Search.RandomProbability | Assets/Scripts/XOGameScripts/MatchManager.cs:501-516 | the random share is a percentage, 100 exactly for Easy and 0 exactly for Impossible |
| Search.AIChoice | Assets/Scripts/XOGameScripts/MatchManager.cs:487-530 | the selector returns -1 or an empty cell |
| Search.RandomEmpty | Assets/Scripts/XOGameScripts/MatchManager.cs:536-554 | the random pick is -1 exactly on a full board, and otherwise an empty cell |
| Search.AIChoiceIsLegal | Assets/Scripts/XOGameScripts/MatchManager.cs:487-530 | the selector never returns an occupied cell, and returns -1 exactly when the board is full |
| Search.AIChoiceBranches | Assets/Scripts/XOGameScripts/MatchManager.cs:487-530 | the selector picks a random empty cell on turn 1 or when the roll is at most the level's random share (100, 50, 10, 0), and the best move otherwise |
| Search.HintIsBestMove | Assets/Scripts/XOGameScripts/MatchManager.cs:201-215 | after the first turn the hint is the best move for the player to move, for every positive roll |
| Match.Initialized | Assets/Scripts/XOGameScripts/MatchManager.cs:399-431 | a freshly initialised match keeps the counter invariant, waits in Start, and its first player holds the cross (player 1 without random players); the match type and level are kept |
| Match.Started | Assets/Scripts/XOGameScripts/MatchManager.cs:127-139 | a started match keeps the counter invariant, is on turn 1 with the cross player to move, and is InProgress exactly when the intro is skipped |
| Match.IntroFinished | Assets/Scripts/XOGameScripts/MatchManager.cs:387-393 | the end of the intro puts the match in progress and keeps the counter invariant, the board and the player |
| Match.DefaultStart | Assets/Scripts/XOGameScripts/MatchManager.cs:411-419 | without random players, player 1 moves first with the cross, on turn 1, on an empty board, with both timers reset |
| Match.Swapped | Assets/Scripts/XOGameScripts/MatchManager.cs:672-686 | the player to move becomes the other player; the board, the stack and the phase are kept, and so is the counter invariant |
| Match.Placed | Assets/Scripts/XOGameScripts/MatchManager.cs:150-157 | the occupied cells gain exactly the chosen cell, and the turn counter and the stack each grow by exactly one |
| Match.Moved | Assets/Scripts/XOGameScripts/MatchManager.cs:145-171 | after a click, a match still in progress has a player to move, and the undo stack is unchanged or has gained exactly the clicked cell |
| Match.MoveOutcome | Assets/Scripts/XOGameScripts/MatchManager.cs:145-171 | outside InProgress a click changes nothing. Otherwise the move is counted, placed and stacked. A completed line ends the match as the mover's win, with no swap. Without one, the ninth move ends it as a draw. Every earlier move swaps players, restarts the timer and re-arms the computer's delay unless the match is local |
| Match.MovedConsistent | Assets/Scripts/XOGameScripts/MatchManager.cs:145-171 | a move on an empty cell keeps the counter invariant |
| Match.PlacedConsistent | Assets/Scripts/XOGameScripts/MatchManager.cs:150-157 | counting the turn, placing the mark and stacking the cell keep the counter invariant |
| Match.HistoryCountsFilledCells | Assets/Scripts/XOGameScripts/MatchManager.cs:343-348 | the number of occupied cells equals the number of stacked moves and equals turn - 1, so the board is full exactly when the turn counter is 10 |
| Match.Undone | Assets/Scripts/XOGameScripts/MatchManager.cs:247-273 | with fewer than two moves nothing changes; otherwise the stack loses two moves and the turn counter goes back by two; the player, the phase and the match type are kept |
| Match.UndoneMoves | Assets/Scripts/XOGameScripts/MatchManager.cs:249-272 | undo returns two cells, both from the stack, when at least two are stacked, and none otherwise |
| Match.UndoneConsistent | Assets/Scripts/XOGameScripts/MatchManager.cs:247-273 | undo keeps the counter invariant |
| Match.UndoRound | Assets/Scripts/XOGameScripts/MatchManager.cs:247-273 | with two or more moves, undo returns the two most recent cells (latest first) and pops them. It clears exactly those two cells, takes two off the turn counter and restarts the timer, and the player to move stays the same. With fewer moves it returns nothing and changes nothing |
| Match.UndoInvertsRound | Assets/Scripts/XOGameScripts/MatchManager.cs:247-273 | two moves followed by an undo give back the board, the stack and the turn counter from before the round, and return the two cells latest first |
| Match.TimerUpdated | Assets/Scripts/XOGameScripts/MatchManager.cs:440-453 | the timer never goes up; the board, the stack and the player are kept, the phase stays or becomes End, and the counter invariant is kept |
| Match.TimeoutForfeits | Assets/Scripts/XOGameScripts/MatchManager.cs:440-453 | the timer runs down by the elapsed time; at zero or below the match ends as a win for the player not to move, never a draw |
| Match.TickedConsistent | Assets/Scripts/XOGameScripts/MatchManager.cs:70-91 | a frame keeps the counter invariant |
| Match.EnemyAIUpdatedConsistent | Assets/Scripts/XOGameScripts/MatchManager.cs:458-473 | the computer player's step keeps the counter invariant |
| Match.TickMovesOnlyByComputer | Assets/Scripts/XOGameScripts/MatchManager.cs:70-91 | a frame changes the board only in a match in progress that is not local, on the computer's turn, once its delay has run out and before the timer expires. The only change is the selector's cell, which was empty, taking the mover's mark |
| Match.EnemyAIMovesByChoice | Assets/Scripts/XOGameScripts/MatchManager.cs:458-473 | the computer player's step changes the board only by its selector's move on an empty cell, after its delay has run out |
| Match.EnemyAIUpdated | Assets/Scripts/XOGameScripts/MatchManager.cs:458-473 | the computer's step either leaves the stack alone or pushes exactly the selector's cell; the match type, level and cross player are kept |
| Match.Ticked | Assets/Scripts/XOGameScripts/MatchManager.cs:70-91 | outside InProgress a frame changes nothing; in a local match it never touches the board or the stack; the match type, level and cross player are kept |
| Match.HumanButtonsEnabled | Assets/Scripts/XOGameScripts/MatchManager.cs:190 | whenever the hint and undo buttons work, a click on an empty cell by the player to move would be forwarded too |
| Match.ClickForwarded | Assets/Scripts/XOGameScripts/XOGridNode.cs:110-128 | a forwarded click is always on an empty cell and never in a computer-only match |
| Match.PlacementSound | Assets/Scripts/XOGameScripts/XOGridNode.cs:53-60 | a cell plays a sound exactly when it receives a non-empty value |
| Match.StartedCrossMovesOnOddTurns | Assets/Scripts/XOGameScripts/MatchManager.cs:413-425 | at the start the cross player is to move, on turn 1 |
| Match.MovedCrossMovesOnOddTurns | Assets/Scripts/XOGameScripts/MatchManager.cs:145-171 | moves keep the cross player moving on odd turns while the match is not over |
| Match.UndoneCrossMovesOnOddTurns | Assets/Scripts/XOGameScripts/MatchManager.cs:247-273 | undo keeps the cross player moving on odd turns |
| Match.MoveSoundAsWrittenIsWrong | Assets/Scripts/XOGameScripts/XOGridNode.cs:57-59 | reading the already-incremented turn counter, every move plays the sound of the other mark |
| Match.FirstMoveSoundAsWritten | Assets/Scripts/XOGameScripts/XOGridNode.cs:58 | as written, the first move of a default match places a cross and plays the circle sound |
| Match.MoveSoundMatchesMark | Assets/Scripts/XOGameScripts/XOGridNode.cs:57-58 | with the move's own number, the sound always matches the mark placed |
| Controller.GridNode.constructor | Assets/Scripts/XOGameScripts/XOGridNode.cs:99-105 | a new cell has its index and is empty |
| Controller.GridNode.SetNodeValue | Assets/Scripts/XOGameScripts/XOGridNode.cs:35-61 | the cell takes the value and returns the sound for it: none for 0, the circle on an even counter and the cross on an odd one |
| Controller.GridNode.ResetNode | Assets/Scripts/XOGameScripts/XOGridNode.cs:90-94 | the cell becomes empty |
| Controller.GridNode.FlashHintGraphic | Assets/Scripts/XOGameScripts/XOGridNode.cs:67-85 | the hint flashes exactly on an empty cell |
| Controller.GridNode.NodeSelected | Assets/Scripts/XOGameScripts/XOGridNode.cs:110-128 | a click is forwarded exactly on an empty cell in a local match, or against the computer on player 1's turn (never in a computer match); a forwarded click makes the move |
| Controller.MatchManager.constructor | Assets/Scripts/XOGameScripts/MatchManager.cs:30-48 | the controller starts local, easy, with 5000 per turn, a 750 computer delay, an empty board and nothing stacked |
| Controller.MatchManager.SetMatchTypeAndDifficulty | Assets/Scripts/XOGameScripts/MatchManager.cs:116-120 | only the match type and the level change |
| Controller.MatchManager.InitializeMatch | Assets/Scripts/XOGameScripts/MatchManager.cs:399-431 | the state becomes the initial state of a match: fresh empty grid and cells, empty stack, turn 1, both timers reset, and the first player drawn with the roll holds the cross |
| Controller.MatchManager.ResetTimers | Assets/Scripts/XOGameScripts/MatchManager.cs:402-406 | both timers restart and the phase is Start, nothing else changes |
| Controller.MatchManager.ResetBoard | Assets/Scripts/XOGameScripts/MatchManager.cs:407-409 | a fresh empty grid, an empty stack and turn 1, nothing else changes |
| Controller.MatchManager.ChooseFirstPlayer | Assets/Scripts/XOGameScripts/MatchManager.cs:413-425 | the player chosen by the roll (player 1 when the roll reaches 50, or always without random players) moves first and holds the cross |
| Controller.MatchManager.EmptyGrid | Assets/Scripts/XOGameScripts/MatchManager.cs:407 | a new grid of nine empty cells |
| Controller.MatchManager.ResetGridNodes | Assets/Scripts/XOGameScripts/MatchManager.cs:428-431 | every cell of the scene is empty afterwards |
| Controller.MatchManager.StartMatch | Assets/Scripts/XOGameScripts/MatchManager.cs:127-139 | the match is initialised, and is in progress at once when the intro is skipped; without random players player 1 starts with the cross |
| Controller.MatchManager.FinishIntro | Assets/Scripts/XOGameScripts/MatchManager.cs:387-393 | the end of the intro puts the match in progress |
| Controller.MatchManager.GridNodeSelected | Assets/Scripts/XOGameScripts/MatchManager.cs:145-171 | the state moves exactly as the move transition, and the placement sound matches the mark placed |
| Controller.MatchManager.PlaceMark | Assets/Scripts/XOGameScripts/MatchManager.cs:150-157 | the turn is counted, the cell and the grid take the mover's value and the cell is stacked; the sound uses the move's own number (see Findings) |
| Controller.MatchManager.HintButtonPress | Assets/Scripts/XOGameScripts/MatchManager.cs:187-195 | the hint is shown exactly in a match in progress against the computer on player 1's turn, and is then the impossible-level selector's cell |
| Controller.MatchManager.DisplayHint | Assets/Scripts/XOGameScripts/MatchManager.cs:201-215 | the hint is the impossible-level selector's choice for the player to move: -1 exactly on a full board, otherwise an empty cell |
| Controller.MatchManager.UndoButtonPress | Assets/Scripts/XOGameScripts/MatchManager.cs:220-228 | undo happens exactly under the hint button's gate, and otherwise nothing changes |
| Controller.MatchManager.BackButtonPress | Assets/Scripts/XOGameScripts/MatchManager.cs:233-241 | with a game manager present the match ends (phase End) and nothing else changes; without one nothing changes |
| Controller.MatchManager.UndoLastMoves | Assets/Scripts/XOGameScripts/MatchManager.cs:247-273 | the state moves exactly as the undo transition, and the cells cleared are returned latest first |
| Controller.MatchManager.PopMove | Assets/Scripts/XOGameScripts/MatchManager.cs:258-260 | the top of the stack is popped and returned, and that cell is cleared in the grid and in the scene |
| Controller.MatchManager.CheckGameEnd | Assets/Scripts/XOGameScripts/MatchManager.cs:291-381 | the nested line checks and the empty-cell loop compute the outcome evaluator with the live turn counter |
| Controller.MatchManager.CheckLiveGameEnd | Assets/Scripts/XOGameScripts/MatchManager.cs:280-283 | the outcome is evaluated on the live grid |
| Controller.MatchManager.Update | Assets/Scripts/XOGameScripts/MatchManager.cs:70-91 | a frame moves the state exactly as the frame transition: the timer while in progress, then the computer for player 2 against a human, or for either player in a computer match |
| Controller.MatchManager.UpdateTimer | Assets/Scripts/XOGameScripts/MatchManager.cs:440-453 | the state moves exactly as the timer transition, ending the match as a forfeit at zero |
| Controller.MatchManager.UpdateEnemyAI | Assets/Scripts/XOGameScripts/MatchManager.cs:458-473 | the delay counts down; once it has run out the selector's cell is played as a click |
| Controller.MatchManager.CalculateAITurn | Assets/Scripts/XOGameScripts/MatchManager.cs:487-530 | the loop-free selector computes the selector function for the level, the roll and the random index |
| Controller.MatchManager.GetRandomEmptyGridNode | Assets/Scripts/XOGameScripts/MatchManager.cs:536-554 | the loop collects exactly the empty cells in order and returns the k-th, or -1 on a full board |
| Controller.MatchManager.PlaceOnCopy | Assets/Scripts/XOGameScripts/MatchManager.cs:573-575 | a fresh copy of the board with the player's mark on the cell |
| Controller.MatchManager.GetBestMove | Assets/Scripts/XOGameScripts/MatchManager.cs:561-588 | the scan computes the best move: the first empty cell of strictly greatest score |
| Controller.MatchManager.GetMinimaxValue | Assets/Scripts/XOGameScripts/MatchManager.cs:600-666 | the recursive search computes the minimax value, with scores truncated toward zero |
| Controller.MatchManager.MaximizeChildren | Assets/Scripts/XOGameScripts/MatchManager.cs:620-642 | the maximizing loop computes the greatest child score, -999 with no empty cell |
| Controller.MatchManager.MinimizeChildren | Assets/Scripts/XOGameScripts/MatchManager.cs:643-665 | the minimizing loop computes the least child score, 999 with no empty cell |
| Controller.MatchManager.SwapPlayer | Assets/Scripts/XOGameScripts/MatchManager.cs:672-686 | the other player moves, the timer restarts, and the computer's delay is re-armed unless the match is local |
| Controller.MatchManager.EndMatch | Assets/Scripts/XOGameScripts/MatchManager.cs:692-701 | the match ends with the given ending announced; the defeat fanfare plays exactly when the computer (player 2) beats the human |

## Left out

- Unity plumbing is not modelled: sprites, animators, the HUD, audio playback, scene loading and the graphic bundle loading (`InitializeAssets`). Sounds and fanfares are returned as values instead.
- The intro coroutine (`MatchIntroCutscene`) is modelled only by its effect, `FinishIntro`; its waits are not modelled.
- `RestartMatch` only asks the game manager to start a new game; the game manager is not part of this model. Likewise `BackButtonPress` is modelled only by its effect on the match (the phase becomes End); the scene change it asks for is not modelled, and whether a game manager exists is a parameter.
- Timers are `float` seconds in the source; here they are whole milliseconds, with `elapsed` the frame time. Rounding of floating point is not modelled.
- `UnityEngine.Random` is replaced by parameters: `roll` for `Random.Range(0f, 100f)` and `k` for `Random.Range(0, count)`.
- The sprite choice that goes with the first player is modelled only as `crossPlayer`, the player holding the cross.
- Controller.MatchManager.DisplayHint: requires a valid player to move (1 or 2). Before any match has been initialised the current player is 0, and the source would search for player 0; that case is not modelled.
- Controller.MatchManager.GridNodeSelected: requires the clicked cell to be empty while the match is in progress. The source's callers only forward empty cells; a click on an occupied cell from elsewhere is not modelled.
- Controller.MatchManager.NodeSelected: the click through the mouse event is modelled as a call with the manager as argument; the singleton instance is not modelled.
- Search.HintIsBestMove: on turn 1 the hint is a random empty cell, because the selector checks the first turn before the level. A roll of exactly 0 at the impossible level also gives a random cell. Both follow the source.
- No lemma states that perfect play by both sides always draws. The model proves the search's local properties instead: it takes a win and blocks a single threat.
- The play-mode tests are not replayed on concrete boards. Their expectations are stated as the general lemmas `Search.BestMoveTakesWin` and `Search.BestMoveBlocks` (the hint tests) and `Match.MoveOutcome` (draw on the ninth move).
- Controller.MatchManager.PlaceMark: the cell is given the move's own number (the turn counter before the increment) for its sound, so it plays the corrected sound of Findings. The source's cell reads the already-incremented counter and plays the other mark's sound; `Match.MoveSoundAsWritten` models that sound, and the controller does not play it.
- Controller.MatchManager.GridNodeSelected: returns the corrected sound `Match.MoveSound`, not the source's `Match.MoveSoundAsWritten`, for the same reason as PlaceMark.

## Findings

| source | as written | input that shows it | evidently intended | confidence | as-written member | corrected member |
|---|---|---|---|---|---|---|
| Assets/Scripts/XOGameScripts/XOGridNode.cs:58 | the cell picks the cross sound on an odd `CurrentTurn`, but `GridNodeSelected` increments `CurrentTurn` (MatchManager.cs:150) before calling `SetNodeValue` (MatchManager.cs:153), so the cell reads the next move's number | the first move of any match: the cross is placed with the counter already at 2, and the circle sound plays | the cross sound for a cross and the circle sound for a circle, as the comment at line 57 says (cross always moves on odd turns) | not executed | Match.MoveSoundAsWrittenIsWrong | Match.MoveSoundMatchesMark |
