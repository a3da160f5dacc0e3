/** The match controller and the clickable cells as objects whose fields change in place.
    Each method is proved to move the object's state exactly as the matching transition of
    module Match does; the searches are proved to compute the functions of module Search. */
module Controller {
  import opened Grid
  import opened Search
  import opened Match

  /** One clickable cell of the board. */
  class GridNode {
    const nodeIndex: int
    var nodeState: Cell

    /** A cell as it is after its initialisation: empty. */
    constructor (index: int)
      ensures nodeIndex == index && nodeState == 0
    {
      nodeIndex := index;
      nodeState := 0;
    }

    /** Store a value and return the sound to play; `turnCounter` is the controller's turn
        counter at the time of the call. */
    method SetNodeValue(value: Cell, turnCounter: int) returns (sound: Sound)
      modifies this
      ensures nodeState == value
      ensures sound == PlacementSound(value, turnCounter)
    {
      nodeState := value;
      sound := Silent;
      if value != 0 {
        sound := if turnCounter % 2 == 0 then CircleSound else CrossSound;
      }
    }

    /** Clear the cell (silently). */
    method ResetNode()
      modifies this
      ensures nodeState == 0
    {
      var sound := SetNodeValue(0, 0);
    }

    /** The hint animation plays only on an empty cell. */
    method FlashHintGraphic(player: int) returns (flashed: bool)
      ensures flashed <==> nodeState == 0
    {
      flashed := nodeState == 0;
    }

    /** A click: forwarded to the controller only for an empty cell, in a local match, or
        against the computer on player 1's turn. */
    method NodeSelected(manager: MatchManager) returns (forwarded: bool)
      requires manager.Valid() && 0 <= nodeIndex < 9 && manager.gridNodes[nodeIndex] == this
      modifies manager, manager.grid, manager.nodeObjects
      ensures manager.Valid() && manager.grid == old(manager.grid) && manager.started == old(manager.started)
      ensures forwarded <==> ClickForwarded(old(nodeState), old(manager.matchType), old(manager.currentPlayer))
      ensures manager.State() == if forwarded then Moved(old(manager.State()), nodeIndex) else old(manager.State())
    {
      forwarded := false;
      if nodeState == 0 {
        match manager.matchType
        case LocalMultiplayer =>
          forwarded := true;
        case VsAI =>
          forwarded := manager.currentPlayer == 1;
        case CpuMatch =>
      }
      if forwarded {
        var sound := manager.GridNodeSelected(this);
      }
    }
  }

  /** The match controller. Timers count milliseconds. */
  class MatchManager {
    const gridNodes: array<GridNode>
    ghost const nodeObjects: set<GridNode>

    var grid: array<Cell>
    var moves: seq<int>
    var currentTurn: int
    var currentPlayer: int
    var crossPlayer: int
    var matchState: MatchState
    var matchType: MatchType
    var enemyDifficulty: AILevel
    var timeLimit: int
    var aiTurnDelay: int
    var currentTimer: int
    var currentAIDelay: int

    /** The ending last handed to the display. */
    ghost var announced: EndingType
    /** Whether a match has been initialised since the controller was created. */
    ghost var started: bool

    /** The nine cells of the scene, in index order. */
    ghost predicate NodesWired()
      reads this, gridNodes
    {
      gridNodes.Length == 9 && forall i :: 0 <= i < 9 ==> gridNodes[i] in nodeObjects && gridNodes[i].nodeIndex == i
    }

    /** The cells show the grid; once a match has started its state keeps the counter
        invariant, and before that no match is in progress, the board is empty and nothing
        is stacked. */
    ghost predicate Valid()
      reads this, grid, gridNodes, nodeObjects
    {
      && NodesWired() && grid.Length == 9
      && (forall i :: 0 <= i < 9 ==> gridNodes[i].nodeState == grid[i])
      && (started ==> Consistent(State()))
      && (!started ==> matchState != InProgress && moves == [] && forall i :: 0 <= i < 9 ==> grid[i] == 0)
    }

    ghost function State(): Snapshot
      reads this, grid
      requires grid.Length == 9
    {
      Snapshot(grid[..], moves, currentTurn, currentPlayer, crossPlayer, matchState, matchType,
               enemyDifficulty, timeLimit, aiTurnDelay, currentTimer, currentAIDelay, announced)
    }

    /** The controller as created over the scene's nine (empty) cells, with the default
        configuration: a local match, easy computer, 5 s per turn, 0.75 s computer delay. */
    constructor (nodes: array<GridNode>)
      requires nodes.Length == 9
      requires forall i :: 0 <= i < 9 ==> nodes[i].nodeIndex == i && nodes[i].nodeState == 0
      ensures Valid() && !started && gridNodes == nodes && fresh(grid)
      ensures State() == Snapshot(EmptyBoard, [], 0, 0, 0, Start, LocalMultiplayer, Easy, 5000, 750, 0, 0, None)
    {
      gridNodes := nodes;
      nodeObjects := set i | 0 <= i < 9 :: nodes[i];
      var zeroed := new Cell[9];
      forall j | 0 <= j < 9 {
        zeroed[j] := 0;
      }
      grid := zeroed;
      moves := [];
      currentTurn := 0;
      currentPlayer := 0;
      crossPlayer := 0;
      matchState := Start;
      matchType := LocalMultiplayer;
      enemyDifficulty := Easy;
      timeLimit := 5000;
      aiTurnDelay := 750;
      currentTimer := 0;
      currentAIDelay := 0;
      announced := None;
      started := false;
      new;
      assert grid[..] == EmptyBoard;
    }

    method SetMatchTypeAndDifficulty(mode: MatchType, level: AILevel)
      requires Valid()
      modifies this
      ensures Valid() && grid == old(grid) && started == old(started)
      ensures State() == old(State()).(mode := mode, level := level)
    {
      matchType := mode;
      enemyDifficulty := level;
    }

    /** Reset everything for a new match; `roll` is the random draw in [0, 100] that picks
        the first player. */
    method InitializeMatch(randomPlayers: bool, roll: real)
      requires NodesWired() && grid.Length == 9
      modifies this, nodeObjects
      ensures Valid() && started && fresh(grid)
      ensures State() == Initialized(old(State()), randomPlayers, roll)
    {
      ghost var before := State();
      ResetTimers();
      ResetBoard();
      ChooseFirstPlayer(randomPlayers, roll);
      ResetGridNodes();
    }

    /** Both timers restart and the match waits for its intro. */
    method ResetTimers()
      requires grid.Length == 9
      modifies this
      ensures grid == old(grid) && started == old(started)
      ensures State() == old(State()).(timer := timeLimit, aiDelay := aiTurnDelay, phase := Start)
    {
      currentTimer := timeLimit;
      currentAIDelay := aiTurnDelay;
      matchState := Start;
    }

    /** A fresh empty grid, an empty stack and turn 1; nothing is announced yet. */
    method ResetBoard()
      requires grid.Length == 9
      modifies this
      ensures fresh(grid) && grid.Length == 9 && started
      ensures State() == old(State()).(grid := EmptyBoard, moves := [], turn := 1, announced := None)
    {
      grid := EmptyGrid();
      moves := [];
      currentTurn := 1;
      announced := None;
      started := true;
    }

    /** The first player is drawn with `roll` (always player 1 without random players) and
        gets the cross. */
    method ChooseFirstPlayer(randomPlayers: bool, roll: real)
      requires grid.Length == 9
      modifies this
      ensures grid == old(grid) && started == old(started)
      ensures State() == old(State()).(player := currentPlayer, crossPlayer := currentPlayer)
      ensures currentPlayer == Initialized(old(State()), randomPlayers, roll).player
    {
      var chance := if randomPlayers then 50.0 else 0.0;
      if roll >= chance {
        currentPlayer := 1;
        crossPlayer := 1;
      } else {
        currentPlayer := 2;
        crossPlayer := 2;
      }
    }

    /** A new array of nine empty cells. */
    static method EmptyGrid() returns (zeroed: array<Cell>)
      ensures fresh(zeroed) && zeroed.Length == 9 && zeroed[..] == EmptyBoard
    {
      zeroed := new Cell[9];
      forall j | 0 <= j < 9 {
        zeroed[j] := 0;
      }
      assert zeroed[..] == EmptyBoard;
    }

    /** Clear every cell of the scene. */
    method ResetGridNodes()
      requires NodesWired()
      modifies nodeObjects
      ensures forall i :: 0 <= i < 9 ==> gridNodes[i].nodeState == 0
    {
      for i := 0 to 9
        invariant forall j :: 0 <= j < i ==> gridNodes[j].nodeState == 0
      {
        gridNodes[i].ResetNode();
      }
    }

    /** Start a new match; without the intro it is in progress at once, and without random
        players player 1 moves first with the cross. */
    method StartMatch(randomPlayers: bool, skipIntro: bool, roll: real)
      requires Valid() && 0.0 <= roll <= 100.0
      modifies this, nodeObjects
      ensures Valid() && started && fresh(grid)
      ensures State() == Started(old(State()), randomPlayers, skipIntro, roll)
      ensures !randomPlayers ==> currentPlayer == 1 && crossPlayer == 1
    {
      InitializeMatch(randomPlayers, roll);
      if skipIntro {
        matchState := InProgress;
      }
    }

    /** The end of the intro sequence started by StartMatch. */
    method FinishIntro()
      requires Valid() && started
      modifies this
      ensures Valid() && grid == old(grid) && started
      ensures State() == IntroFinished(old(State()))
    {
      matchState := InProgress;
    }

    /** A selected cell: while in progress, count the turn, place the mark, stack the move,
        evaluate it and end the match or swap players. Returns the placement sound. */
    method GridNodeSelected(node: GridNode) returns (sound: Sound)
      requires Valid() && 0 <= node.nodeIndex < 9 && gridNodes[node.nodeIndex] == node
      requires matchState == InProgress ==> grid[node.nodeIndex] == 0
      modifies this, grid, nodeObjects
      ensures Valid() && grid == old(grid) && started == old(started)
      ensures State() == Moved(old(State()), node.nodeIndex)
      ensures sound == if old(matchState) == InProgress then MoveSound(old(State())) else Silent
    {
      sound := Silent;
      if matchState == InProgress {
        sound := PlaceMark(node);
        var ending := CheckGameEnd(node.nodeIndex, grid);
        if ending != None {
          var fanfare := EndMatch(ending);
        } else {
          SwapPlayer();
        }
      }
    }

    /** The first steps of GridNodeSelected: count the turn, give the cell the player's
        value (which returns its sound), mirror it in the grid and stack the move. The cell
        is given the move's own number (the counter before the increment) for its sound,
        so that the sound matches the mark placed; see MoveSoundAsWrittenIsWrong for the
        sound when the incremented counter is read instead. */
    method PlaceMark(node: GridNode) returns (sound: Sound)
      requires Valid() && 0 <= node.nodeIndex < 9 && gridNodes[node.nodeIndex] == node
      requires matchState == InProgress && grid[node.nodeIndex] == 0
      modifies this, grid, node
      ensures Valid() && grid == old(grid) && started == old(started) && matchState == InProgress
      ensures State() == Placed(old(State()), node.nodeIndex)
      ensures sound == MoveSound(old(State()))
    {
      ghost var before := State();
      PlacedConsistent(before, node.nodeIndex);
      var idx := node.nodeIndex;
      currentTurn := currentTurn + 1;
      sound := node.SetNodeValue(currentPlayer, currentTurn - 1);
      grid[idx] := currentPlayer;
      moves := moves + [idx];
      assert State() == Placed(before, idx);
    }

    /** The hint button: only in a match in progress against the computer on player 1's
        turn. Returns whether the hint was shown and the hinted cell. */
    method HintButtonPress(roll: real, k: nat) returns (pressed: bool, hinted: int)
      requires Valid() && RandomIndexFits(grid[..], k)
      ensures pressed <==> HumanButtonsEnabled(State())
      ensures pressed ==> hinted == AIChoice(grid[..], currentTurn, 1, 1, Impossible, roll, k)
      ensures !pressed ==> hinted == -1
    {
      pressed := matchState == InProgress && matchType == VsAI && currentPlayer == 1;
      hinted := -1;
      if pressed {
        hinted := DisplayHint(roll, k);
      }
    }

    /** The hint for the player to move: the selector at the impossible level (see
        HintIsBestMove), flashed on the board when it names a cell; -1 only on a full board. */
    method DisplayHint(roll: real, k: nat) returns (hinted: int)
      requires gridNodes.Length == 9 && grid.Length == 9 && IsPlayer(currentPlayer) && RandomIndexFits(grid[..], k)
      ensures hinted == AIChoice(grid[..], currentTurn, currentPlayer, currentPlayer, Impossible, roll, k)
      ensures hinted == -1 <==> !HasEmpty(grid[..])
      ensures hinted != -1 ==> 0 <= hinted < 9 && grid[hinted] == 0
    {
      hinted := CalculateAITurn(currentPlayer, Impossible, roll, k);
      AIChoiceIsLegal(grid[..], currentTurn, currentPlayer, currentPlayer, Impossible, roll, k);
      if hinted != -1 {
        var flashed := gridNodes[hinted].FlashHintGraphic(currentPlayer);
      }
    }

    /** The undo button: the same gate as the hint button. */
    method UndoButtonPress() returns (undone: seq<int>)
      requires Valid()
      modifies this, grid, nodeObjects
      ensures Valid() && grid == old(grid) && started == old(started)
      ensures State() == if HumanButtonsEnabled(old(State())) then Undone(old(State())) else old(State())
      ensures undone == if HumanButtonsEnabled(old(State())) then UndoneMoves(old(State())) else []
    {
      undone := [];
      if matchState == InProgress && matchType == VsAI && currentPlayer == 1 {
        undone := UndoLastMoves();
      }
    }

    /** The back button: when there is a game manager to return to the menu with, the
        match ends before the scene changes; otherwise nothing happens. */
    method BackButtonPress(hasGameManager: bool)
      requires Valid()
      modifies this
      ensures Valid() && grid == old(grid) && started == old(started)
      ensures State() == if hasGameManager then old(State()).(phase := End) else old(State())
    {
      if hasGameManager {
        matchState := End;
      }
    }
    /** Undo the last two moves when there are at least two; returns the cells cleared,
        most recent first. */
    method UndoLastMoves() returns (undone: seq<int>)
      requires Valid()
      modifies this, grid, nodeObjects
      ensures Valid() && grid == old(grid) && started == old(started)
      ensures State() == Undone(old(State()))
      ensures undone == UndoneMoves(old(State()))
    {
      undone := [];
      if |moves| >= 2 {
        ghost var before := State();
        UndoneConsistent(before);
        currentTurn := currentTurn - 2;
        var lastTurn := PopMove();
        undone := undone + [lastTurn];
        lastTurn := PopMove();
        undone := undone + [lastTurn];
        currentTimer := timeLimit;
        assert moves == before.moves[..|before.moves| - 2];
        assert grid[..] == before.grid[undone[0] := 0][undone[1] := 0];
        assert State() == Undone(before);
      }
    }

    /** One step of UndoLastMoves: pop the top of the stack and clear that cell in the grid
        and in the scene. */
    method PopMove() returns (lastTurn: int)
      requires NodesWired() && grid.Length == 9 && |moves| >= 1 && 0 <= moves[|moves| - 1] < 9
      requires forall i :: 0 <= i < 9 ==> gridNodes[i].nodeState == grid[i]
      modifies this, grid, nodeObjects
      ensures NodesWired() && grid == old(grid) && started == old(started)
      ensures forall i :: 0 <= i < 9 ==> gridNodes[i].nodeState == grid[i]
      ensures lastTurn == old(moves[|moves| - 1]) && moves == old(moves[..|moves| - 1])
      ensures State() == old(State()).(grid := old(grid[..])[lastTurn := 0], moves := moves)
    {
      lastTurn := moves[|moves| - 1];
      moves := moves[..|moves| - 1];
      grid[lastTurn] := 0;
      gridNodes[lastTurn].ResetNode();
    }

    /** The outcome after a move at `last` on `board`, read with the live turn counter. */
    method CheckGameEnd(last: int, board: array<Cell>) returns (ending: EndingType)
      requires board.Length == 9 && 0 <= last < 9 && board[last] != 0
      ensures ending == GameEnd(board[..], last, currentTurn)
    {
      ending := None;
      var isGameEnding := false;
      var row := (last / 3) * 3;
      if board[row] == board[row + 1] && board[row + 1] == board[row + 2] {
        isGameEnding := true;
      }
      if !isGameEnding {
        var column := last % 3;
        if board[column] == board[column + 3] && board[column + 3] == board[column + 6] {
          isGameEnding := true;
        }
        if !isGameEnding {
          if last == 2 || last == 4 || last == 6 {
            if board[2] == board[4] && board[4] == board[6] {
              isGameEnding := true;
            }
          }
          if !isGameEnding {
            if last == 0 || last == 4 || last == 8 {
              if board[0] == board[4] && board[4] == board[8] {
                isGameEnding := true;
              }
            }
            if !isGameEnding {
              if currentTurn == 10 {
                ending := Draw;
                isGameEnding := true;
              } else {
                var emptyTileFound := false;
                var i := 0;
                while i < 9
                  invariant 0 <= i <= 9 && !emptyTileFound
                  invariant forall j :: 0 <= j < i ==> board[j] != 0
                {
                  if board[i] == 0 {
                    emptyTileFound := true;
                    break;
                  }
                  i := i + 1;
                }
                if emptyTileFound {
                  assert board[..][i] == 0;
                } else {
                  ending := Draw;
                  isGameEnding := true;
                }
              }
            }
          }
        }
      }
      if ending != Draw && isGameEnding {
        ending := Winner(board[last]);
      }
    }

    /** The outcome after a move at `last` on the live board. */
    method CheckLiveGameEnd(last: int) returns (ending: EndingType)
      requires Valid() && 0 <= last < 9 && grid[last] != 0
      ensures ending == GameEnd(grid[..], last, currentTurn)
    {
      ending := CheckGameEnd(last, grid);
    }

    /** Per frame, after `elapsed` milliseconds; `roll` and `k` are the random draws the
        computer player may use. */
    method Update(elapsed: nat, roll: real, k: nat)
      requires Valid() && RandomIndexFits(grid[..], k)
      modifies this, grid, nodeObjects
      ensures Valid() && grid == old(grid) && started == old(started)
      ensures State() == Ticked(old(State()), elapsed, roll, k)
    {
      if matchState == InProgress {
        UpdateTimer(elapsed);
        match matchType
        case VsAI =>
          if currentPlayer == 2 {
            UpdateEnemyAI(elapsed, roll, k);
          }
        case CpuMatch =>
          UpdateEnemyAI(elapsed, roll, k);
        case LocalMultiplayer =>
      }
    }

    /** Run the per-turn timer down; at zero the player to move forfeits. */
    method UpdateTimer(elapsed: nat)
      requires Valid() && matchState == InProgress
      modifies this
      ensures Valid() && grid == old(grid) && started == old(started)
      ensures State() == TimerUpdated(old(State()), elapsed)
    {
      currentTimer := currentTimer - elapsed;
      if currentTimer <= 0 {
        var winningPlayer := if currentPlayer == 1 then 2 else 1;
        var fanfare := EndMatch(Winner(winningPlayer));
      }
    }

    /** Run the computer's delay down; once it has run out, select its move. */
    method UpdateEnemyAI(elapsed: nat, roll: real, k: nat)
      requires Valid() && started && RandomIndexFits(grid[..], k)
      modifies this, grid, nodeObjects
      ensures Valid() && grid == old(grid) && started == old(started)
      ensures State() == EnemyAIUpdated(old(State()), elapsed, roll, k)
    {
      if currentAIDelay > 0 {
        currentAIDelay := currentAIDelay - elapsed;
      } else {
        var nextTurn := CalculateAITurn(currentPlayer, enemyDifficulty, roll, k);
        AIChoiceIsLegal(grid[..], currentTurn, currentPlayer, currentPlayer, enemyDifficulty, roll, k);
        if nextTurn != -1 {
          var sound := GridNodeSelected(gridNodes[nextTurn]);
        }
      }
    }

    /** The computer's move for `player` at `level`: random on the first turn, otherwise
        the best move when the draw `roll` exceeds the level's random share, and a random
        empty cell (the k-th) whenever that gave none. */
    method CalculateAITurn(player: Player, level: AILevel, roll: real, k: nat) returns (nextTurn: int)
      requires grid.Length == 9 && RandomIndexFits(grid[..], k)
      ensures nextTurn == AIChoice(grid[..], currentTurn, player, currentPlayer, level, roll, k)
    {
      nextTurn := -1;
      if currentTurn == 1 {
        nextTurn := GetRandomEmptyGridNode(k);
      } else {
        var randomNodeProbability := RandomProbability(level);
        if roll > randomNodeProbability {
          nextTurn := GetBestMove(player);
        }
      }
      if nextTurn == -1 {
        nextTurn := GetRandomEmptyGridNode(k);
      }
    }

    /** The k-th empty cell in index order, or -1 when the board is full. */
    method GetRandomEmptyGridNode(k: nat) returns (randomNode: int)
      requires grid.Length == 9 && RandomIndexFits(grid[..], k)
      ensures randomNode == RandomEmpty(grid[..], k)
    {
      randomNode := -1;
      ghost var b := grid[..];
      var possibleOptions: seq<int> := [];
      for i := 0 to 9
        invariant possibleOptions + EmptyFrom(b, i) == EmptyCells(b)
      {
        if grid[i] == 0 {
          assert EmptyFrom(b, i) == [i] + EmptyFrom(b, i + 1);
          assert possibleOptions + [i] + EmptyFrom(b, i + 1) == possibleOptions + ([i] + EmptyFrom(b, i + 1));
          possibleOptions := possibleOptions + [i];
        }
      }
      assert possibleOptions == EmptyCells(b);
      if |possibleOptions| > 0 {
        randomNode := possibleOptions[k];
      }
    }

    /** A fresh copy of `board` with `player` placed on cell `i`. */
    method PlaceOnCopy(board: array<Cell>, i: int, player: Player) returns (newBoard: array<Cell>)
      requires board.Length == 9 && 0 <= i < 9
      ensures fresh(newBoard) && newBoard.Length == 9
      ensures newBoard[..] == board[..][i := player]
    {
      newBoard := new Cell[9];
      forall j | 0 <= j < 9 {
        newBoard[j] := board[j];
      }
      newBoard[i] := player;
    }

    /** The scan over the first moves of `player`: the first cell of strictly greatest
        minimax score. */
    method GetBestMove(player: Player) returns (bestMove: int)
      requires grid.Length == 9
      ensures bestMove == BestMove(grid[..], player, currentPlayer, currentTurn)
    {
      var bestScore := -999;
      bestMove := -1;
      ghost var scores := Scores(grid[..], player, currentPlayer, currentTurn);
      for i := 0 to 9
        invariant ScanBest(grid[..], scores, i, bestScore, bestMove) == BestMove(grid[..], player, currentPlayer, currentTurn)
      {
        if grid[i] == 0 {
          var newBoard := PlaceOnCopy(grid, i, player);
          PlaceShrinksEmpties(grid[..], i, player);
          var scoreForNextMove := GetMinimaxValue(newBoard, 1, false, i, Other(player));
          assert scoreForNextMove == scores[i];
          if scoreForNextMove > bestScore {
            bestScore := scoreForNextMove;
            bestMove := i;
          }
        }
      }
    }

    /** The minimax value of a simulated position after a move at `last`, scored for the
        player to move in the real match; C#'s integer division truncates toward zero. */
    method GetMinimaxValue(board: array<Cell>, depth: int, maximizing: bool, last: int, toMove: Player)
      returns (value: int)
      requires board.Length == 9 && depth >= 1 && 0 <= last < 9 && board[last] != 0
      requires depth + |Empties(board[..])| <= 9
      ensures value == Minimax(board[..], depth, maximizing, last, toMove, currentPlayer, currentTurn)
      decreases Empties(board[..]), 1
    {
      var ending := CheckGameEnd(last, board);
      if ending != None {
        if ending == Draw {
          return 0;
        } else {
          return if WinnerNumber(ending) == currentPlayer then 10 / depth else -(10 / depth);
        }
      }
      if maximizing {
        value := MaximizeChildren(board, depth, toMove);
      } else {
        value := MinimizeChildren(board, depth, toMove);
      }
    }

    /** The maximizing scan of GetMinimaxValue: the greatest score of the positions where
        `toMove` plays an empty cell, -999 when there is none. */
    method MaximizeChildren(board: array<Cell>, depth: int, toMove: Player) returns (bestScore: int)
      requires board.Length == 9 && depth >= 1
      requires depth + |Empties(board[..])| <= 9
      ensures bestScore == ChildrenBest(board[..], depth, true, toMove, currentPlayer, currentTurn, 0)
      decreases Empties(board[..]), 0
    {
      ghost var b, original, turn := board[..], currentPlayer, currentTurn;
      bestScore := -999;
      for i := 0 to 9
        invariant bestScore >= -999
        invariant var rest := ChildrenBest(b, depth, true, toMove, original, turn, i);
          (if bestScore > rest then bestScore else rest) == ChildrenBest(b, depth, true, toMove, original, turn, 0)
      {
        if board[i] == 0 {
          var newBoard := PlaceOnCopy(board, i, toMove);
          PlaceShrinksEmpties(b, i, toMove);
          var scoreForNextMove := GetMinimaxValue(newBoard, depth + 1, false, i, Other(toMove));
          assert scoreForNextMove == Child(b, depth, true, toMove, original, turn, i);
          bestScore := if scoreForNextMove > bestScore then scoreForNextMove else bestScore;
        }
      }
    }

    /** The minimizing scan of GetMinimaxValue: the least score of the positions where
        `toMove` plays an empty cell, 999 when there is none. */
    method MinimizeChildren(board: array<Cell>, depth: int, toMove: Player) returns (bestScore: int)
      requires board.Length == 9 && depth >= 1
      requires depth + |Empties(board[..])| <= 9
      ensures bestScore == ChildrenBest(board[..], depth, false, toMove, currentPlayer, currentTurn, 0)
      decreases Empties(board[..]), 0
    {
      ghost var b, original, turn := board[..], currentPlayer, currentTurn;
      bestScore := 999;
      for i := 0 to 9
        invariant bestScore <= 999
        invariant var rest := ChildrenBest(b, depth, false, toMove, original, turn, i);
          (if bestScore < rest then bestScore else rest) == ChildrenBest(b, depth, false, toMove, original, turn, 0)
      {
        if board[i] == 0 {
          var newBoard := PlaceOnCopy(board, i, toMove);
          PlaceShrinksEmpties(b, i, toMove);
          var scoreForNextMove := GetMinimaxValue(newBoard, depth + 1, true, i, Other(toMove));
          assert scoreForNextMove == Child(b, depth, false, toMove, original, turn, i);
          bestScore := if scoreForNextMove < bestScore then scoreForNextMove else bestScore;
        }
      }
    }

    /** The other player moves; the timer restarts, and so does the computer's delay
        unless both players are local humans. */
    method SwapPlayer()
      requires Valid()
      modifies this
      ensures Valid() && grid == old(grid) && started == old(started)
      ensures State() == Swapped(old(State()))
    {
      ghost var before := State();
      currentPlayer := if currentPlayer == 1 then 2 else 1;
      currentTimer := timeLimit;
      if matchType != LocalMultiplayer {
        currentAIDelay := aiTurnDelay;
      }
      assert State() == Swapped(before);
    }

    /** End the match and announce the ending; the defeat fanfare plays only when the
        computer (player 2) beats the human. */
    method EndMatch(ending: EndingType) returns (fanfare: Fanfare)
      requires Valid() && started
      modifies this
      ensures Valid() && grid == old(grid) && started
      ensures State() == old(State()).(phase := End, announced := ending)
      ensures fanfare == Defeat <==> matchType == VsAI && ending == Player2Win
    {
      matchState := End;
      announced := ending;
      fanfare := if matchType == VsAI && ending == Player2Win then Defeat else Victory;
    }
  }
}
