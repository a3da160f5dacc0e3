/** The match controller's state as a value, and its transitions as functions: starting a
    match, a move, undoing a round, the per-turn timer and the computer player's delay.
    The controller class in module Controller is proved to follow these transitions. */
module Match {
  import opened Grid
  import opened Search

  datatype MatchState = Start | InProgress | End
  datatype MatchType = LocalMultiplayer | VsAI | CpuMatch
  datatype Mark = Cross | Circle
  datatype Sound = Silent | CrossSound | CircleSound
  datatype Fanfare = Victory | Defeat

  /** Everything the controller keeps between calls. `moves` is the undo stack with its top
      at the end; `crossPlayer` is the player whose sprite is the cross (the one who moved
      first); timers are counted in whole time units; `announced` is the ending last handed
      to the display. */
  datatype Snapshot = Snapshot(
    grid: Board,
    moves: seq<int>,
    turn: int,
    player: int,
    crossPlayer: int,
    phase: MatchState,
    mode: MatchType,
    level: AILevel,
    timeLimit: int,
    aiTurnDelay: int,
    timer: int,
    aiDelay: int,
    announced: EndingType)

  /** The snapshot's player is an int (0 before the first match starts); this says
      it currently names one of the two players, as Grid.Player does for values. */
  predicate IsPlayer(p: int) { p == 1 || p == 2 }

  predicate Distinct(xs: seq<int>)
  {
    forall j, j' :: 0 <= j < j' < |xs| ==> xs[j] != xs[j']
  }

  /** The counter invariant: one stacked move per turn taken, the stacked cells are
      distinct and are exactly the occupied cells. */
  ghost predicate Consistent(s: Snapshot)
  {
    && IsPlayer(s.player) && IsPlayer(s.crossPlayer)
    && |s.moves| == s.turn - 1
    && (forall j :: 0 <= j < |s.moves| ==> 0 <= s.moves[j] < 9)
    && Distinct(s.moves)
    && (forall i :: 0 <= i < 9 ==> (s.grid[i] != 0 <==> i in s.moves))
  }

  // ---------------------------------------------------------------- start of a match

  /** InitializeMatch: fresh board, empty stack, turn 1, timers reset, and the first player
      drawn with the random value `roll` in [0, 100]; the first player always gets the cross. */
  function Initialized(s: Snapshot, randomPlayers: bool, roll: real): (r: Snapshot)
    ensures Consistent(r) && r.phase == Start && r.player == r.crossPlayer
    ensures !randomPlayers && roll >= 0.0 ==> r.player == 1
    ensures r.mode == s.mode && r.level == s.level
  {
    var chance := if randomPlayers then 50.0 else 0.0;
    var first := if roll >= chance then 1 else 2;
    s.(grid := EmptyBoard, moves := [], turn := 1, player := first, crossPlayer := first,
       phase := Start, timer := s.timeLimit, aiDelay := s.aiTurnDelay, announced := None)
  }

  /** StartMatch: initialise, then go straight to InProgress when the intro is skipped
      (otherwise the intro's end moves the match on, see IntroFinished). */
  function Started(s: Snapshot, randomPlayers: bool, skipIntro: bool, roll: real): (r: Snapshot)
    ensures Consistent(r) && r.player == r.crossPlayer && r.turn == 1
    ensures r.phase == (if skipIntro then InProgress else Start)
  {
    var t := Initialized(s, randomPlayers, roll);
    if skipIntro then t.(phase := InProgress) else t
  }

  /** The end of the intro sequence. */
  function IntroFinished(s: Snapshot): (r: Snapshot)
    ensures Consistent(s) ==> Consistent(r)
    ensures r.phase == InProgress && r.grid == s.grid && r.player == s.player
  {
    s.(phase := InProgress)
  }

  /** StartMatch(false, true): player 1 starts with the cross and the match is in progress
      on an empty board. */
  lemma DefaultStart(s: Snapshot, roll: real)
    requires 0.0 <= roll <= 100.0
    ensures var t := Started(s, false, true, roll);
      && t.player == 1 && t.crossPlayer == 1 && t.phase == InProgress
      && t.turn == 1 && t.moves == [] && t.grid == EmptyBoard
      && t.timer == s.timeLimit && t.aiDelay == s.aiTurnDelay
  {
  }

  // ---------------------------------------------------------------- a move

  /** SwapPlayer: the other player moves, the per-turn timer restarts, and the computer's
      delay is re-armed unless both players are local humans. */
  function Swapped(s: Snapshot): (r: Snapshot)
    ensures IsPlayer(s.player) ==> IsPlayer(r.player) && r.player != s.player
    ensures Consistent(s) ==> Consistent(r)
    ensures r.grid == s.grid && r.moves == s.moves && r.phase == s.phase
  {
    s.(player := Other(s.player), timer := s.timeLimit,
       aiDelay := if s.mode != LocalMultiplayer then s.aiTurnDelay else s.aiDelay)
  }

  /** GridNodeSelected: only while the match is in progress, count the turn, place the mark,
      stack the move and evaluate it with the new turn counter; end the match on an
      outcome, otherwise swap players. */
  function Moved(s: Snapshot, idx: int): (r: Snapshot)
    requires 0 <= idx < 9
    requires s.phase == InProgress ==> IsPlayer(s.player)
    ensures r.phase == InProgress ==> IsPlayer(r.player)
    ensures r.moves == s.moves || r.moves == s.moves + [idx]
  {
    if s.phase != InProgress then s
    else
      var placed := Placed(s, idx);
      var ending := GameEnd(placed.grid, idx, placed.turn);
      if ending != None then placed.(phase := End, announced := ending)
      else Swapped(placed)
  }

  /** The first half of a move: count the turn, place the mark and stack the move. */
  function Placed(s: Snapshot, idx: int): (r: Snapshot)
    requires 0 <= idx < 9 && IsPlayer(s.player)
    ensures Filled(r.grid) == Filled(s.grid) + {idx}
    ensures |r.moves| == |s.moves| + 1 && r.turn == s.turn + 1
    ensures r.turn - |r.moves| == s.turn - |s.moves|
  {
    s.(turn := s.turn + 1, grid := s.grid[idx := s.player], moves := s.moves + [idx])
  }

  lemma {:induction false} DistinctElements(xs: seq<int>)
    requires Distinct(xs)
    ensures |set x | x in xs| == |xs|
  {
    if xs != [] {
      var ys := xs[..|xs| - 1];
      assert Distinct(ys);
      DistinctElements(ys);
      assert (set x | x in xs) == (set x | x in ys) + {xs[|xs| - 1]};
      assert xs[|xs| - 1] !in ys;
    }
  }

  /** The occupied cells of a board. */
  function Filled(board: Board): set<int>
  {
    set i | 0 <= i < 9 && board[i] != 0
  }

  /** A set of cell indices misses some cell exactly when it has fewer than nine elements. */
  lemma MissesCellIffSmall(cells: set<int>)
    requires forall x :: x in cells ==> 0 <= x < 9
    ensures (exists i :: 0 <= i < 9 && i !in cells) <==> |cells| < 9
  {
    var all: set<int> := {0, 1, 2, 3, 4, 5, 6, 7, 8};
    forall x | x in cells ensures x in all {
      assert x == 0 || x == 1 || x == 2 || x == 3 || x == 4 || x == 5 || x == 6 || x == 7 || x == 8;
    }
    assert |all| == 9;
    if exists i :: 0 <= i < 9 && i !in cells {
      var i :| 0 <= i < 9 && i !in cells;
      SubsetSize(cells, all - {i});
      assert |all - {i}| == |all| - 1;
    } else {
      assert all <= cells;
      SubsetSize(all, cells);
    }
  }

  /** The counter invariant read as counts: stack length == turn - 1 == occupied cells, and
      the board has an empty cell exactly while fewer than nine moves are stacked. */
  lemma HistoryCountsFilledCells(s: Snapshot)
    requires Consistent(s)
    ensures |Filled(s.grid)| == |s.moves| == s.turn - 1
    ensures HasEmpty(s.grid) <==> |s.moves| < 9
  {
    var stacked := set x | x in s.moves;
    DistinctElements(s.moves);
    assert Filled(s.grid) == stacked;
    MissesCellIffSmall(stacked);
    if HasEmpty(s.grid) {
      var i :| 0 <= i < 9 && s.grid[i] == 0;
      assert i !in stacked;
    }
  }

  /** A move keeps the counter invariant (the source relies on callers choosing empty cells). */
  lemma MovedConsistent(s: Snapshot, idx: int)
    requires Consistent(s) && 0 <= idx < 9
    requires s.phase == InProgress ==> s.grid[idx] == 0
    ensures Consistent(Moved(s, idx))
  {
    if s.phase == InProgress {
      PlacedConsistent(s, idx);
    }
  }

  lemma PlacedConsistent(s: Snapshot, idx: int)
    requires Consistent(s) && 0 <= idx < 9 && s.grid[idx] == 0
    ensures Consistent(Placed(s, idx))
  {
    var m := s.moves + [idx];
    assert idx !in s.moves;
    assert Distinct(m);
    forall i | 0 <= i < 9 ensures (s.grid[idx := s.player][i] != 0 <==> i in m) {
      assert i in m <==> i in s.moves || i == idx;
    }
  }

  /** The outcome of a move on an empty cell. Outside InProgress nothing changes. Otherwise
      the turn is counted and the move stacked; a line completed through the cell ends the
      match as a win for the mover, with no swap and no timer reset; without one, the ninth
      move ends it as a draw and every earlier move swaps players and restarts the timer. */
  lemma MoveOutcome(s: Snapshot, idx: int)
    requires Consistent(s) && 0 <= idx < 9
    requires s.phase == InProgress ==> s.grid[idx] == 0
    ensures s.phase != InProgress ==> Moved(s, idx) == s
    ensures s.phase == InProgress ==>
      var r := Moved(s, idx);
      var board := s.grid[idx := s.player];
      && r.grid == board && r.moves == s.moves + [idx] && r.turn == s.turn + 1
      && r.crossPlayer == s.crossPlayer && r.mode == s.mode && r.level == s.level
      && (LineThroughComplete(board, idx) ==>
            r.phase == End && r.announced == Winner(s.player) && r.player == s.player
            && r.timer == s.timer && r.aiDelay == s.aiDelay)
      && (!LineThroughComplete(board, idx) && s.turn == 9 ==>
            r.phase == End && r.announced == Draw && r.player == s.player && r.timer == s.timer)
      && (!LineThroughComplete(board, idx) && s.turn != 9 ==>
            r.phase == InProgress && r.announced == s.announced && r.player == Other(s.player)
            && r.timer == s.timeLimit
            && r.aiDelay == (if s.mode != LocalMultiplayer then s.aiTurnDelay else s.aiDelay))
  {
    if s.phase == InProgress {
      var board := s.grid[idx := s.player];
      HistoryCountsFilledCells(s);
      MovedConsistent(s, idx);
      HistoryCountsFilledCells(Moved(s, idx));
      GameEndCharacterized(board, idx, s.turn + 1);
    }
  }

  // ---------------------------------------------------------------- undo

  /** UndoLastMoves: with at least two stacked moves, pop two, clear both cells, take two
      off the turn counter and restart the timer; otherwise nothing. */
  function Undone(s: Snapshot): (r: Snapshot)
    requires forall j :: 0 <= j < |s.moves| ==> 0 <= s.moves[j] < 9
    ensures |s.moves| < 2 ==> r == s
    ensures |s.moves| >= 2 ==> |r.moves| == |s.moves| - 2 && r.turn == s.turn - 2
    ensures r.player == s.player && r.phase == s.phase && r.mode == s.mode
  {
    var n := |s.moves|;
    if n >= 2 then
      s.(turn := s.turn - 2, grid := s.grid[s.moves[n - 1] := 0][s.moves[n - 2] := 0],
         moves := s.moves[..n - 2], timer := s.timeLimit)
    else s
  }

  /** The list UndoLastMoves returns: the cells undone, most recent first. */
  function UndoneMoves(s: Snapshot): (u: seq<int>)
    ensures |u| == (if |s.moves| >= 2 then 2 else 0)
    ensures forall x :: x in u ==> x in s.moves
  {
    var n := |s.moves|;
    if n >= 2 then [s.moves[n - 1], s.moves[n - 2]] else []
  }

  lemma UndoneConsistent(s: Snapshot)
    requires Consistent(s)
    ensures Consistent(Undone(s))
  {
    var n := |s.moves|;
    if n >= 2 {
      var a, b := s.moves[n - 1], s.moves[n - 2];
      var rest := s.moves[..n - 2];
      assert s.moves == rest + [b, a];
      forall i | 0 <= i < 9 ensures (Undone(s).grid[i] != 0 <==> i in rest) {
        assert i in s.moves <==> i in rest || i == a || i == b;
        if i in rest {
          var j :| 0 <= j < |rest| && rest[j] == i;
          assert s.moves[j] == i && j < n - 2;
        }
      }
    }
  }

  /** Undo removes a whole round: exactly the two most recent cells (returned most recent
      first) are cleared, every other cell is kept, the turn counter goes back by two, the
      timer restarts and the player to move stays the same; with fewer than two stacked
      moves it returns nothing and changes nothing. */
  lemma UndoRound(s: Snapshot)
    requires Consistent(s)
    ensures |s.moves| < 2 ==> UndoneMoves(s) == [] && Undone(s) == s
    ensures |s.moves| >= 2 ==>
      var u := Undone(s);
      var undone := UndoneMoves(s);
      && |undone| == 2 && undone[0] == s.moves[|s.moves| - 1] && undone[1] == s.moves[|s.moves| - 2]
      && s.moves == u.moves + [undone[1], undone[0]]
      && u.grid[undone[0]] == 0 && u.grid[undone[1]] == 0
      && (forall i :: 0 <= i < 9 && i != undone[0] && i != undone[1] ==> u.grid[i] == s.grid[i])
      && u.turn == s.turn - 2 && u.player == s.player && u.timer == s.timeLimit
      && u.phase == s.phase && u.aiDelay == s.aiDelay
  {
    var n := |s.moves|;
    if n >= 2 {
      assert s.moves == s.moves[..n - 2] + [s.moves[n - 2], s.moves[n - 1]];
    }
  }

  /** Undo is a left inverse of a round: two moves on empty cells a then b (the first not
      ending the match), then an undo, give back the board, the stack and the turn counter
      from before a, and return [b, a]. The player to move is back too unless b ended the
      match (an ending move does not swap). */
  lemma UndoInvertsRound(s: Snapshot, a: int, b: int)
    requires Consistent(s) && s.phase == InProgress
    requires 0 <= a < 9 && 0 <= b < 9 && a != b && s.grid[a] == 0 && s.grid[b] == 0
    requires Moved(s, a).phase == InProgress
    ensures var t := Moved(Moved(s, a), b);
      && UndoneMoves(t) == [b, a]
      && Undone(t).grid == s.grid && Undone(t).moves == s.moves && Undone(t).turn == s.turn
      && Undone(t).player == (if t.phase == End then Other(s.player) else s.player)
  {
    var t1 := Moved(s, a);
    MovedShape(s, a);
    MovedConsistent(s, a);
    var t := Moved(t1, b);
    MovedShape(t1, b);
    assert t.moves == s.moves + [a, b];
    assert t.moves[..|t.moves| - 2] == s.moves;
    assert Undone(t).grid == s.grid[a := s.player][b := t1.player][b := 0][a := 0];
    assert Undone(t).grid == s.grid;
  }

  /** What a move in progress does to the board, the stack, the counter and the player. */
  lemma MovedShape(s: Snapshot, idx: int)
    requires 0 <= idx < 9 && s.phase == InProgress && IsPlayer(s.player)
    ensures var r := Moved(s, idx);
      && r.grid == s.grid[idx := s.player] && r.moves == s.moves + [idx] && r.turn == s.turn + 1
      && r.player == (if r.phase == End then s.player else Other(s.player))
  {
  }

  // ---------------------------------------------------------------- timers and the computer player

  /** UpdateTimer: the elapsed time runs the per-turn timer down; at zero or below the match
      ends as a forfeit, won by the player who is not to move. */
  function TimerUpdated(s: Snapshot, elapsed: nat): (r: Snapshot)
    ensures Consistent(s) ==> Consistent(r)
    ensures r.grid == s.grid && r.moves == s.moves && r.player == s.player
    ensures r.timer <= s.timer && (r.phase == s.phase || r.phase == End)
  {
    var t := s.timer - elapsed;
    if t <= 0 then s.(timer := t, phase := End, announced := Winner(Other(s.player)))
    else s.(timer := t)
  }

  /** A timeout is a forfeit, never a draw: the opponent of the player to move wins. */
  lemma TimeoutForfeits(s: Snapshot, elapsed: nat)
    requires IsPlayer(s.player)
    ensures var r := TimerUpdated(s, elapsed);
      && r.timer == s.timer - elapsed && r.grid == s.grid && r.player == s.player
      && (r.timer <= 0 ==> r.phase == End && r.announced != Draw
                           && r.announced == (if s.player == 1 then Player2Win else Player1Win))
      && (r.timer > 0 ==> r.phase == s.phase && r.announced == s.announced)
  {
  }


  /** UpdateEnemyAI: while the delay runs, count it down; once it has run out, select the
      computer's move (when there is one) exactly as a click would. */
  function EnemyAIUpdated(s: Snapshot, elapsed: nat, roll: real, k: nat): (r: Snapshot)
    requires IsPlayer(s.player) && RandomIndexFits(s.grid, k)
    ensures r.moves == s.moves ||
            r.moves == s.moves + [AIChoice(s.grid, s.turn, s.player, s.player, s.level, roll, k)]
    ensures r.mode == s.mode && r.level == s.level && r.crossPlayer == s.crossPlayer
  {
    if s.aiDelay > 0 then s.(aiDelay := s.aiDelay - elapsed)
    else
      var next := AIChoice(s.grid, s.turn, s.player, s.player, s.level, roll, k);
      AIChoiceIsLegal(s.grid, s.turn, s.player, s.player, s.level, roll, k);
      if next != -1 then Moved(s, next) else s
  }

  /** Update, once per frame: only while in progress, run the timer, then the computer
      player when it is its turn (player 2 against a human, either player in a computer
      match). A timeout in the same frame leaves the computer unable to move. */
  function Ticked(s: Snapshot, elapsed: nat, roll: real, k: nat): (r: Snapshot)
    requires s.phase == InProgress ==> IsPlayer(s.player)
    requires RandomIndexFits(s.grid, k)
    ensures s.phase != InProgress ==> r == s
    ensures s.mode == LocalMultiplayer ==> r.grid == s.grid && r.moves == s.moves
    ensures r.mode == s.mode && r.level == s.level && r.crossPlayer == s.crossPlayer
  {
    if s.phase != InProgress then s
    else
      var t := TimerUpdated(s, elapsed);
      match s.mode
      case VsAI => if t.player == 2 then EnemyAIUpdated(t, elapsed, roll, k) else t
      case CpuMatch => EnemyAIUpdated(t, elapsed, roll, k)
      case LocalMultiplayer => t
  }

  lemma TickedConsistent(s: Snapshot, elapsed: nat, roll: real, k: nat)
    requires Consistent(s) && RandomIndexFits(s.grid, k)
    ensures Consistent(Ticked(s, elapsed, roll, k))
  {
    if s.phase == InProgress {
      var t := TimerUpdated(s, elapsed);
      assert Consistent(t);
      if s.mode != LocalMultiplayer {
        EnemyAIUpdatedConsistent(t, elapsed, roll, k);
      }
    }
  }

  lemma EnemyAIUpdatedConsistent(s: Snapshot, elapsed: nat, roll: real, k: nat)
    requires Consistent(s) && RandomIndexFits(s.grid, k)
    ensures Consistent(EnemyAIUpdated(s, elapsed, roll, k))
  {
    if s.aiDelay <= 0 {
      var next := AIChoice(s.grid, s.turn, s.player, s.player, s.level, roll, k);
      AIChoiceIsLegal(s.grid, s.turn, s.player, s.player, s.level, roll, k);
      if next != -1 {
        MovedConsistent(s, next);
      }
    }
  }

  /** A frame never places a mark outside the selector's choice: the board changes only
      by the computer's move on an empty cell, and only when its delay had run out. */
  lemma TickMovesOnlyByComputer(s: Snapshot, elapsed: nat, roll: real, k: nat)
    requires Consistent(s) && RandomIndexFits(s.grid, k)
    ensures var r := Ticked(s, elapsed, roll, k);
      r.grid != s.grid ==>
        && s.phase == InProgress && s.aiDelay <= 0 && s.timer - elapsed > 0
        && s.mode != LocalMultiplayer && (s.mode == VsAI ==> s.player == 2)
        && var next := AIChoice(s.grid, s.turn, s.player, s.player, s.level, roll, k);
           0 <= next < 9 && s.grid[next] == 0 && r.grid == s.grid[next := s.player]
  {
    if s.phase == InProgress && s.mode != LocalMultiplayer && (s.mode == VsAI ==> s.player == 2) {
      EnemyAIMovesByChoice(TimerUpdated(s, elapsed), elapsed, roll, k);
    }
  }

  /** The computer player changes the board only by its selector's move, on an empty
      cell, once its delay has run out and while the match is in progress. */
  lemma EnemyAIMovesByChoice(s: Snapshot, elapsed: nat, roll: real, k: nat)
    requires IsPlayer(s.player) && RandomIndexFits(s.grid, k)
    ensures var r := EnemyAIUpdated(s, elapsed, roll, k);
      r.grid != s.grid ==>
        && s.phase == InProgress && s.aiDelay <= 0
        && var next := AIChoice(s.grid, s.turn, s.player, s.player, s.level, roll, k);
           0 <= next < 9 && s.grid[next] == 0 && r.grid == s.grid[next := s.player]
  {
    if s.aiDelay <= 0 {
      var next := AIChoice(s.grid, s.turn, s.player, s.player, s.level, roll, k);
      AIChoiceIsLegal(s.grid, s.turn, s.player, s.player, s.level, roll, k);
      if next != -1 && s.phase == InProgress {
        MovedShape(s, next);
      }
    }
  }

  // ---------------------------------------------------------------- buttons and clicks

  /** The gate of the hint and undo buttons: a match in progress against the computer, on
      the human's (player 1's) turn. */
  predicate HumanButtonsEnabled(s: Snapshot)
    ensures HumanButtonsEnabled(s) ==> ClickForwarded(0, s.mode, s.player)
  {
    s.phase == InProgress && s.mode == VsAI && s.player == 1
  }

  /** The gate of a click on a cell: only an empty cell; always in a local match, only on
      player 1's turn against the computer, never in a computer match. */
  predicate ClickForwarded(nodeState: int, mode: MatchType, player: int)
    ensures ClickForwarded(nodeState, mode, player) ==> nodeState == 0 && mode != CpuMatch
  {
    nodeState == 0 &&
    match mode
    case LocalMultiplayer => true
    case VsAI => player == 1
    case CpuMatch => false
  }

  // ---------------------------------------------------------------- sound of a placed mark

  /** The mark that `p` places: the cross belongs to the player who moved first. */
  function MarkOf(s: Snapshot, p: int): Mark
  {
    if p == s.crossPlayer then Cross else Circle
  }

  function SoundOf(m: Mark): Sound
  {
    if m == Cross then CrossSound else CircleSound
  }

  /** The sound rule of a cell that receives `value`, given the turn counter it reads:
      nothing for an empty value, the circle sound on an even counter, the cross otherwise. */
  function PlacementSound(value: int, turnCounter: int): (sound: Sound)
    ensures sound == Silent <==> value == 0
  {
    if value == 0 then Silent
    else if turnCounter % 2 == 0 then CircleSound
    else CrossSound
  }

  /** Outside an ended match the cross player is to move exactly on odd turns. */
  ghost predicate CrossMovesOnOddTurns(s: Snapshot)
  {
    s.phase != End ==> (s.player == s.crossPlayer <==> s.turn % 2 == 1)
  }

  lemma StartedCrossMovesOnOddTurns(s: Snapshot, randomPlayers: bool, skipIntro: bool, roll: real)
    ensures CrossMovesOnOddTurns(Started(s, randomPlayers, skipIntro, roll))
  {
  }

  lemma MovedCrossMovesOnOddTurns(s: Snapshot, idx: int)
    requires Consistent(s) && CrossMovesOnOddTurns(s) && 0 <= idx < 9
    requires s.phase == InProgress ==> s.grid[idx] == 0
    ensures CrossMovesOnOddTurns(Moved(s, idx))
  {
    MoveOutcome(s, idx);
    var r := Moved(s, idx);
    if s.phase == InProgress && r.phase != End {
      assert r.player == Other(s.player) && r.turn == s.turn + 1;
    }
  }

  lemma UndoneCrossMovesOnOddTurns(s: Snapshot)
    requires Consistent(s) && CrossMovesOnOddTurns(s)
    ensures CrossMovesOnOddTurns(Undone(s))
  {
  }

  /** The sound a move plays as the controller is written: the cell reads the turn
      counter after it has already been incremented for this move. */
  function MoveSoundAsWritten(s: Snapshot): Sound
  {
    PlacementSound(s.player, s.turn + 1)
  }

  /** As written, every move plays the sound of the other mark: the cross player moves on
      odd turns, but the incremented counter is even then. */
  lemma MoveSoundAsWrittenIsWrong(s: Snapshot)
    requires Consistent(s) && CrossMovesOnOddTurns(s) && s.phase == InProgress
    ensures MoveSoundAsWritten(s) != SoundOf(MarkOf(s, s.player))
  {
  }

  /** The first move of a default match places a cross and plays the circle sound. */
  lemma FirstMoveSoundAsWritten(s: Snapshot, roll: real)
    requires 0.0 <= roll <= 100.0
    ensures var t := Started(s, false, true, roll);
      MarkOf(t, t.player) == Cross && MoveSoundAsWritten(t) == CircleSound
  {
  }

  /** The intended sound: the parity of the move's own number (the counter before the
      increment). */
  function MoveSound(s: Snapshot): Sound
  {
    PlacementSound(s.player, s.turn)
  }

  /** The intended sound always matches the mark placed. */
  lemma MoveSoundMatchesMark(s: Snapshot)
    requires Consistent(s) && CrossMovesOnOddTurns(s) && s.phase == InProgress
    ensures MoveSound(s) == SoundOf(MarkOf(s, s.player))
  {
  }
}
