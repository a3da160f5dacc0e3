/** The adversarial search behind the computer player and the hint: an exhaustive,
    depth-discounted minimax over copies of the board, the best-move scan over the
    empty cells, and the move selector that mixes the best move with a random one. */
module Search {
  import opened Grid

  datatype AILevel = Easy | Medium | Hard | Impossible

  /** The numeric value of a winning EndingType (Player1Win = 1, Player2Win = 2). */
  function WinnerNumber(e: EndingType): (n: int)
    requires e == Player1Win || e == Player2Win
    ensures n == 1 || n == 2
    ensures Winner(n) == e
  {
    if e == Player1Win then 1 else 2
  }

  /** A terminal win at `depth`, scored for `original`: +10/depth when the winner is the
      original player and -10/depth otherwise. The division truncates toward zero as in
      C#, so -10/depth is -(10/depth) (Dafny's own `/` would round -10/3 down to -4).
      Up to depth 10 a win is never scored like a draw: good outcomes are positive and
      bad ones negative. */
  function WinScore(winner: EndingType, original: int, depth: int): (v: int)
    requires winner == Player1Win || winner == Player2Win
    requires depth >= 1
    ensures v == 10 / depth || v == -(10 / depth)
    ensures -(10 / depth) <= v <= 10 / depth
    ensures WinnerNumber(winner) == original ==> v >= 0
    ensures WinnerNumber(winner) != original ==> v <= 0
    ensures depth <= 10 ==> v != 0
    ensures v > 0 <==> WinnerNumber(winner) == original && depth <= 10
    ensures v < 0 <==> WinnerNumber(winner) != original && depth <= 10
  {
    if WinnerNumber(winner) == original then 10 / depth else -(10 / depth)
  }

  /** Deeper results are discounted: the bound for depth + 1 lies inside the bound for depth. */
  lemma DiscountShrinks(depth: int)
    requires depth >= 1
    ensures 0 <= 10 / (depth + 1) <= 10 / depth
  {
    if depth >= 10 {
      assert 10 / (depth + 1) == 0;
    } else {
      assert depth in {1, 2, 3, 4, 5, 6, 7, 8, 9};
    }
  }

  /** Some empty cell at index `i` or later. */
  predicate HasEmptyFrom(board: Board, i: int)
  {
    exists j :: i <= j < 9 && 0 <= j && board[j] == 0
  }

  /** The score of a simulated position after a move at `last`, for the player `original`
      who started the search. `toMove` places its mark on each empty cell in turn;
      `turn` is the live turn counter that the outcome evaluator reads. Every search starts
      at depth 1 on a board with at most eight empty cells, and each level takes one more
      cell, so the depth plus the empty cells never exceeds nine. */
  function Minimax(board: Board, depth: int, maximizing: bool, last: int, toMove: Player,
                   original: int, turn: int): (v: int)
    requires depth >= 1 && 0 <= last < 9 && board[last] != 0
    requires depth + |Empties(board)| <= 9
    ensures -(10 / depth) <= v <= 10 / depth
    ensures GameEnd(board, last, turn) == Draw ==> v == 0
    ensures GameEnd(board, last, turn) != None && GameEnd(board, last, turn) != Draw ==>
      (v == 10 / depth || v == -(10 / depth)) && v != 0 && (v > 0 <==> board[last] == original)
    ensures GameEnd(board, last, turn) == None ==> -(10 / (depth + 1)) <= v <= 10 / (depth + 1)
    decreases Empties(board), 1
  {
    var ending := GameEnd(board, last, turn);
    DiscountShrinks(depth);
    if ending == Draw then 0
    else if ending != None then WinScore(ending, original, depth)
    else ChildrenBest(board, depth, maximizing, toMove, original, turn, 0)
  }

  /** The running best of the scan over cells i..8: the maximum (or, when minimizing, the
      minimum) of the children's scores, starting from -999 (or 999). */
  function ChildrenBest(board: Board, depth: int, maximizing: bool, toMove: Player,
                        original: int, turn: int, i: int): (v: int)
    requires depth >= 1 && 0 <= i <= 9
    requires depth + |Empties(board)| <= 9
    ensures HasEmptyFrom(board, i) ==> -(10 / (depth + 1)) <= v <= 10 / (depth + 1)
    ensures !HasEmptyFrom(board, i) ==> v == (if maximizing then -999 else 999)
    decreases Empties(board), 0, 9 - i
  {
    if i == 9 then (if maximizing then -999 else 999)
    else if board[i] == 0 then
      PlaceShrinksEmpties(board, i, toMove);
      var score := Child(board, depth, maximizing, toMove, original, turn, i);
      var rest := ChildrenBest(board, depth, maximizing, toMove, original, turn, i + 1);
      if maximizing then (if score > rest then score else rest)
      else (if score < rest then score else rest)
    else ChildrenBest(board, depth, maximizing, toMove, original, turn, i + 1)
  }

  /** The score of the child position where `toMove` has played the empty cell `i`. */
  function Child(board: Board, depth: int, maximizing: bool, toMove: Player,
                 original: int, turn: int, i: int): (v: int)
    requires depth >= 1 && 0 <= i < 9 && board[i] == 0
    requires depth + |Empties(board)| <= 9
    ensures -(10 / (depth + 1)) <= v <= 10 / (depth + 1)
    decreases Empties(board), 0, 0
  {
    PlaceShrinksEmpties(board, i, toMove);
    Minimax(board[i := toMove], depth + 1, !maximizing, i, Other(toMove), original, turn)
  }

  /** When minimizing, the scan's result is at most the score of every empty cell. */
  lemma {:induction false} MinimizingAtMostEachChild(board: Board, depth: int, toMove: Player,
                                                     original: int, turn: int, i: int, j: int)
    requires depth >= 1 && 0 <= i <= j < 9 && board[j] == 0
    requires depth + |Empties(board)| <= 9
    ensures ChildrenBest(board, depth, false, toMove, original, turn, i)
            <= Child(board, depth, false, toMove, original, turn, j)
    decreases 9 - i
  {
    if i < j {
      MinimizingAtMostEachChild(board, depth, toMove, original, turn, i + 1, j);
    }
  }

  /** When minimizing, the scan's result is at least any bound that every empty cell's
      score meets. */
  lemma {:induction false} MinimizingAtLeastBound(board: Board, depth: int, toMove: Player,
                                                  original: int, turn: int, i: int, bound: int)
    requires depth >= 1 && 0 <= i <= 9 && bound <= 999
    requires depth + |Empties(board)| <= 9
    requires forall j :: i <= j < 9 && board[j] == 0 ==>
      bound <= Child(board, depth, false, toMove, original, turn, j)
    ensures bound <= ChildrenBest(board, depth, false, toMove, original, turn, i)
    decreases 9 - i
  {
    if i < 9 {
      MinimizingAtLeastBound(board, depth, toMove, original, turn, i + 1, bound);
    }
  }

  /** When maximizing, the scan's result is at least the score of every empty cell. */
  lemma {:induction false} MaximizingAtLeastEachChild(board: Board, depth: int, toMove: Player,
                                                      original: int, turn: int, i: int, j: int)
    requires depth >= 1 && 0 <= i <= j < 9 && board[j] == 0
    requires depth + |Empties(board)| <= 9
    ensures Child(board, depth, true, toMove, original, turn, j)
            <= ChildrenBest(board, depth, true, toMove, original, turn, i)
    decreases 9 - i
  {
    if i < j {
      MaximizingAtLeastEachChild(board, depth, toMove, original, turn, i + 1, j);
    }
  }

  /** When maximizing, the scan's result is at most any bound that every empty cell's
      score stays under. */
  lemma {:induction false} MaximizingAtMostBound(board: Board, depth: int, toMove: Player,
                                                 original: int, turn: int, i: int, bound: int)
    requires depth >= 1 && 0 <= i <= 9 && bound >= -999
    requires depth + |Empties(board)| <= 9
    requires forall j :: i <= j < 9 && board[j] == 0 ==>
      Child(board, depth, true, toMove, original, turn, j) <= bound
    ensures ChildrenBest(board, depth, true, toMove, original, turn, i) <= bound
    decreases 9 - i
  {
    if i < 9 {
      MaximizingAtMostBound(board, depth, toMove, original, turn, i + 1, bound);
    }
  }

  /** The score of the first move `i` of `player` in GetBestMove: a minimizing search one
      ply deep, scored for `original`. */
  function Score(board: Board, i: int, player: Player, original: int, turn: int): (v: int)
    requires 0 <= i < 9 && board[i] == 0
    ensures -10 <= v <= 10
  {
    PlaceShrinksEmpties(board, i, player);
    Minimax(board[i := player], 1, false, i, Other(player), original, turn)
  }

  /** The first-move scores of GetBestMove, one per cell (0 for occupied cells, which
      the scan skips). */
  function Scores(board: Board, player: Player, original: int, turn: int): (s: seq<int>)
    ensures |s| == 9
    ensures forall i :: 0 <= i < 9 ==> -10 <= s[i] <= 10
    ensures forall i :: 0 <= i < 9 && board[i] == 0 ==> s[i] == Score(board, i, player, original, turn)
  {
    seq(9, i requires 0 <= i < 9 => if board[i] == 0 then Score(board, i, player, original, turn) else 0)
  }

  /** The scan of GetBestMove from cell i on, with the running best score and move:
      an empty cell replaces the running best only with a strictly greater score. */
  function ScanBest(board: Board, scores: seq<int>, i: int, bestScore: int, bestMove: int): (m: int)
    requires |scores| == 9 && 0 <= i <= 9
    ensures m == bestMove || (i <= m < 9 && board[m] == 0 && scores[m] > bestScore)
    decreases 9 - i
  {
    if i == 9 then bestMove
    else if board[i] == 0 && scores[i] > bestScore then ScanBest(board, scores, i + 1, scores[i], i)
    else ScanBest(board, scores, i + 1, bestScore, bestMove)
  }

  /** The move GetBestMove returns: the scan started from score -999 and no move (-1). */
  function BestMove(board: Board, player: Player, original: int, turn: int): (m: int)
    ensures m == -1 || (0 <= m < 9 && board[m] == 0)
  {
    ScanBest(board, Scores(board, player, original, turn), 0, -999, -1)
  }

  /** `m` is -1 on a full board, and otherwise the lowest-index empty cell of maximal score. */
  ghost predicate FirstMaximum(board: Board, scores: seq<int>, m: int)
    requires |scores| == 9
  {
    && (m == -1 <==> !HasEmpty(board))
    && (m != -1 ==>
      && 0 <= m < 9 && board[m] == 0
      && (forall j :: 0 <= j < 9 && board[j] == 0 ==> scores[j] <= scores[m])
      && (forall j :: 0 <= j < m && board[j] == 0 ==> scores[j] < scores[m]))
  }

  /** The loop state of the scan after cells 0..i-1: the first maximum so far, or no move
      when all of them were occupied. */
  ghost predicate ScannedUpTo(board: Board, scores: seq<int>, i: int, bestScore: int, bestMove: int)
    requires |scores| == 9 && 0 <= i <= 9
  {
    if bestMove == -1 then
      bestScore == -999 && forall j :: 0 <= j < i ==> board[j] != 0
    else
      && 0 <= bestMove < i && board[bestMove] == 0 && bestScore == scores[bestMove]
      && (forall j :: 0 <= j < i && board[j] == 0 ==> scores[j] <= bestScore)
      && (forall j :: 0 <= j < bestMove && board[j] == 0 ==> scores[j] < bestScore)
  }

  lemma {:induction false} ScanBestFirstMaximum(board: Board, scores: seq<int>, i: int,
                                                bestScore: int, bestMove: int)
    requires |scores| == 9 && 0 <= i <= 9
    requires forall j :: 0 <= j < 9 && board[j] == 0 ==> scores[j] > -999
    requires ScannedUpTo(board, scores, i, bestScore, bestMove)
    ensures FirstMaximum(board, scores, ScanBest(board, scores, i, bestScore, bestMove))
    decreases 9 - i
  {
    if i == 9 {
      if bestMove == -1 {
        assert !HasEmpty(board);
      }
    } else if board[i] == 0 && scores[i] > bestScore {
      ScanBestFirstMaximum(board, scores, i + 1, scores[i], i);
    } else {
      ScanBestFirstMaximum(board, scores, i + 1, bestScore, bestMove);
    }
  }

  /** GetBestMove returns -1 exactly on a full board, and otherwise the lowest-index empty
      cell whose score is maximal (ties go to the lowest index). */
  lemma BestMoveIsFirstMaximum(board: Board, player: Player, original: int, turn: int)
    ensures FirstMaximum(board, Scores(board, player, original, turn), BestMove(board, player, original, turn))
  {
    ScanBestFirstMaximum(board, Scores(board, player, original, turn), 0, -999, -1);
  }

  /** A move that completes the mover's own line scores the full 10; any other move
      scores at most 5, the bound of a position one ply deeper. */
  lemma WinningMoveScore(board: Board, i: int, player: Player, turn: int)
    requires 0 <= i < 9 && board[i] == 0
    ensures CompletesLine(board, i, player) ==> Score(board, i, player, player, turn) == 10
    ensures !CompletesLine(board, i, player) ==> Score(board, i, player, player, turn) <= 5
  {
    GameEndCharacterized(board[i := player], i, turn);
  }

  /** Wins in one: when the player can complete a line, the best move is the lowest cell
      that does so. */
  lemma BestMoveTakesWin(board: Board, player: Player, turn: int, w: int)
    requires CompletesLine(board, w, player)
    ensures var m := BestMove(board, player, player, turn);
      CompletesLine(board, m, player) && forall c :: 0 <= c < m ==> !CompletesLine(board, c, player)
  {
    BestMoveIsFirstMaximum(board, player, player, turn);
    var m := BestMove(board, player, player, turn);
    assert board[w] == 0;
    WinningMoveScore(board, w, player, turn);
    WinningMoveScore(board, m, player, turn);
    forall c | 0 <= c < m ensures !CompletesLine(board, c, player) {
      if CompletesLine(board, c, player) {
        WinningMoveScore(board, c, player, turn);
      }
    }
  }

  /** A line that is complete after `q` plays `c` stays complete when some other
      empty cell `j` is also played. */
  lemma CompletionSurvivesOtherMove(board: Board, c: int, q: Player, j: int, p: Player)
    requires CompletesLine(board, c, q) && 0 <= j < 9 && board[j] == 0 && j != c
    ensures LineThroughComplete(board[j := p][c := q], c)
  {
    var after := board[c := q];
    var k :| 0 <= k < 8 && Lines[k].Contains(c) && Complete(after, Lines[k]);
    var line := Lines[k];
    var now := board[j := p][c := q];
    LineInBoard(k);
    assert after[line.x] == q && after[line.y] == q && after[line.z] == q;
    assert now[line.x] == q && now[line.y] == q && now[line.z] == q;
    assert Complete(now, Lines[k]);
  }

  /** A line through `c` completed by `q` after the opponent took `b` was already
      there to complete before `b` was taken. */
  lemma CompletionWithoutOtherMove(board: Board, b: int, p: Player, c: int, q: Player)
    requires 0 <= b < 9 && board[b] == 0 && 0 <= c < 9 && c != b && board[c] == 0
    requires p != q
    requires LineThroughComplete(board[b := p][c := q], c)
    ensures CompletesLine(board, c, q)
  {
    var after := board[b := p][c := q];
    var k :| 0 <= k < 8 && Lines[k].Contains(c) && Complete(after, Lines[k]);
    var line := Lines[k];
    var before := board[c := q];
    LineInBoard(k);
    assert after[b] == p;
    assert after[line.x] == q && after[line.y] == q && after[line.z] == q;
    assert line.x != b && line.y != b && line.z != b;
    assert before[line.x] == q && before[line.y] == q && before[line.z] == q;
  }

  /** Blocking: when the player cannot win at once and the opponent has exactly one cell
      that would complete a line, the best move (for a turn counter other than 10) is that
      cell: every other move lets the opponent win at depth 2 (score -5), while the block
      keeps every reply at depth 2 from winning (score at least -3). */
  lemma BestMoveBlocks(board: Board, p: Player, turn: int, b: int)
    requires turn != 10
    requires forall c :: 0 <= c < 9 ==> !CompletesLine(board, c, p)
    requires CompletesLine(board, b, Other(p))
    requires forall c :: 0 <= c < 9 && CompletesLine(board, c, Other(p)) ==> c == b
    ensures BestMove(board, p, p, turn) == b
  {
    var q := Other(p);
    // Every other empty cell loses at depth 2.
    forall j | 0 <= j < 9 && board[j] == 0 && j != b
      ensures Score(board, j, p, p, turn) <= -5
    {
      var b1 := board[j := p];
      PlaceShrinksEmpties(board, j, p);
      assert !CompletesLine(board, j, p);
      GameEndCharacterized(b1, j, turn);
      assert b1[b] == 0;
      assert GameEnd(b1, j, turn) == None;
      MinimizingAtMostEachChild(b1, 1, q, p, turn, 0, b);
      CompletionSurvivesOtherMove(board, b, q, j, p);
      GameEndCharacterized(b1[b := q], b, turn);
    }
    // The block keeps every reply from winning at depth 2.
    var b2 := board[b := p];
    PlaceShrinksEmpties(board, b, p);
    GameEndCharacterized(b2, b, turn);
    assert Score(board, b, p, p, turn) >= -3 by {
      if GameEnd(b2, b, turn) == None {
        forall j | 0 <= j < 9 && b2[j] == 0
          ensures -3 <= Child(b2, 1, false, q, p, turn, j)
        {
          var b3 := b2[j := q];
          GameEndCharacterized(b3, j, turn);
          if LineThroughComplete(b3, j) {
            CompletionWithoutOtherMove(board, b, p, j, q);
          }
        }
        MinimizingAtLeastBound(b2, 1, q, p, turn, 0, -3);
      }
    }
    BestMoveIsFirstMaximum(board, p, p, turn);
  }

  /** The share of random moves at each level, in percent. */
  function RandomProbability(level: AILevel): (p: real)
    ensures 0.0 <= p <= 100.0
    ensures p == 100.0 <==> level == Easy
    ensures p == 0.0 <==> level == Impossible
  {
    match level
    case Easy => 100.0
    case Medium => 50.0
    case Hard => 10.0
    case Impossible => 0.0
  }

  /** The random index is usable for the board: below the number of empty cells, or
      anything on a full board (where it is not read). */
  predicate RandomIndexFits(board: Board, k: nat)
  {
    |EmptyCells(board)| == 0 || k < |EmptyCells(board)|
  }

  /** The k-th empty cell, or -1 when the board is full (k is the random index). */
  function RandomEmpty(board: Board, k: nat): (r: int)
    requires RandomIndexFits(board, k)
    ensures r == -1 <==> !HasEmpty(board)
    ensures r != -1 ==> 0 <= r < 9 && board[r] == 0
  {
    EmptyCellsEmptyIffFull(board);
    if |EmptyCells(board)| > 0 then EmptyCells(board)[k] else -1
  }

  /** The selector: on turn 1 a random empty cell; otherwise the best move when the random
      draw `roll` exceeds the level's random probability; a random empty cell whenever that
      gave no move. */
  function AIChoice(board: Board, turn: int, player: Player, original: int, level: AILevel,
                    roll: real, k: nat): (r: int)
    requires RandomIndexFits(board, k)
    ensures r == -1 || (0 <= r < 9 && board[r] == 0)
  {
    var first :=
      if turn == 1 then RandomEmpty(board, k)
      else if roll > RandomProbability(level) then BestMove(board, player, original, turn)
      else -1;
    if first == -1 then RandomEmpty(board, k) else first
  }

  /** The selector never plays an occupied cell and gives -1 only on a full board. */
  lemma AIChoiceIsLegal(board: Board, turn: int, player: Player, original: int, level: AILevel,
                        roll: real, k: nat)
    requires RandomIndexFits(board, k)
    ensures var r := AIChoice(board, turn, player, original, level, roll, k);
      (r == -1 <==> !HasEmpty(board)) && (r != -1 ==> 0 <= r < 9 && board[r] == 0)
  {
    BestMoveIsFirstMaximum(board, player, original, turn);
  }

  /** The selector's choice between the random cell and the best move. */
  lemma AIChoiceBranches(board: Board, turn: int, player: Player, original: int, level: AILevel,
                         roll: real, k: nat)
    requires RandomIndexFits(board, k)
    ensures turn == 1 ==> AIChoice(board, turn, player, original, level, roll, k) == RandomEmpty(board, k)
    ensures turn != 1 && roll <= RandomProbability(level) ==>
      AIChoice(board, turn, player, original, level, roll, k) == RandomEmpty(board, k)
    ensures turn != 1 && roll > RandomProbability(level) ==>
      AIChoice(board, turn, player, original, level, roll, k) == BestMove(board, player, original, turn)
  {
    BestMoveIsFirstMaximum(board, player, original, turn);
  }

  /** The hint (the selector at the impossible level, for the player to move) is the best
      move on every turn but the first, unless the draw is exactly 0. */
  lemma HintIsBestMove(board: Board, turn: int, player: Player, roll: real, k: nat)
    requires RandomIndexFits(board, k)
    requires turn != 1 && roll > 0.0
    ensures AIChoice(board, turn, player, player, Impossible, roll, k) == BestMove(board, player, player, turn)
  {
    AIChoiceBranches(board, turn, player, player, Impossible, roll, k);
  }
}
