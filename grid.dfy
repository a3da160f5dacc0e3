/** The 3x3 board and the outcome evaluator of the match engine.
    Cells are encoded as in the game: 0 = empty, 1 = player 1, 2 = player 2,
    indices 0..8 row-major starting at the top-left. */
module Grid {

  type Cell = c: int | 0 <= c <= 2
  type Player = p: int | p == 1 || p == 2 witness 1

  /** A board always holds exactly nine cells. */
  type Board = b: seq<Cell> | |b| == 9 witness [0, 0, 0, 0, 0, 0, 0, 0, 0]

  const EmptyBoard: Board := [0, 0, 0, 0, 0, 0, 0, 0, 0]

  /** EndingType: None, Player1Win and Player2Win share the numbering of the cells
      so that a winning cell converts directly; Draw is a fourth, distinct value. */
  datatype EndingType = None | Player1Win | Player2Win | Draw

  /** The conversion of a winning (non-empty) cell value to an EndingType. */
  function Winner(c: Cell): (e: EndingType)
    requires c != 0
    ensures e != None && e != Draw
    ensures (e == Player1Win) <==> (c == 1)
  {
    if c == 1 then Player1Win else Player2Win
  }

  /** The player opposite to p, written as the source does (`p == 1 ? 2 : 1`). */
  function Other(p: int): (q: Player)
    ensures p == 1 ==> q == 2
    ensures p == 2 ==> q == 1
  {
    if p == 1 then 2 else 1
  }

  /** Three cells in a row, a column or a diagonal. */
  datatype Line = Line(x: int, y: int, z: int)
  {
    predicate Contains(c: int) { c == x || c == y || c == z }
  }

  /** The eight lines: rows, columns, the main and the anti-diagonal. */
  const Lines: seq<Line> :=
    [Line(0, 1, 2), Line(3, 4, 5), Line(6, 7, 8), Line(0, 3, 6), Line(1, 4, 7), Line(2, 5, 8),
     Line(0, 4, 8), Line(2, 4, 6)]

  /** Every line names three distinct cells of the board. */
  lemma LineInBoard(k: int)
    requires 0 <= k < 8
    ensures 0 <= Lines[k].x < 9 && 0 <= Lines[k].y < 9 && 0 <= Lines[k].z < 9
    ensures Lines[k].x != Lines[k].y && Lines[k].y != Lines[k].z && Lines[k].x != Lines[k].z
  {
    if k < 4 {
      if k < 2 {
        if k == 0 { assert Lines[k] == Line(0, 1, 2); } else { assert Lines[k] == Line(3, 4, 5); }
      } else {
        if k == 2 { assert Lines[k] == Line(6, 7, 8); } else { assert Lines[k] == Line(0, 3, 6); }
      }
    } else {
      if k < 6 {
        if k == 4 { assert Lines[k] == Line(1, 4, 7); } else { assert Lines[k] == Line(2, 5, 8); }
      } else {
        if k == 6 { assert Lines[k] == Line(0, 4, 8); } else { assert Lines[k] == Line(2, 4, 6); }
      }
    }
  }

  /** The three cells of `line` lie on the board and hold the same value. */
  predicate Complete(board: Board, line: Line)
  {
    0 <= line.x < 9 && 0 <= line.y < 9 && 0 <= line.z < 9 &&
    board[line.x] == board[line.y] == board[line.z]
  }

  /** Some line passing through `last` holds three equal cells. */
  predicate LineThroughComplete(board: Board, last: int)
  {
    exists k :: 0 <= k < 8 && Lines[k].Contains(last) && Complete(board, Lines[k])
  }

  predicate HasEmpty(board: Board)
  {
    exists i :: 0 <= i < 9 && board[i] == 0
  }

  /** The outcome after a move at `last`, as the controller evaluates it: the row,
      then the column, then the anti-diagonal 2-4-6 (only when `last` is on it), then the
      main diagonal 0-4-8 (only when `last` is on it). Without a complete line the match
      is drawn when `turn` (the live turn counter) is 10 or no cell is empty. */
  function GameEnd(board: Board, last: int, turn: int): (e: EndingType)
    requires 0 <= last < 9 && board[last] != 0
    ensures e == None || e == Draw || e == Winner(board[last])
    ensures e == None ==> turn != 10 && HasEmpty(board)
    ensures e == Draw ==> turn == 10 || !HasEmpty(board)
  {
    var row := (last / 3) * 3;
    var column := last % 3;
    if board[row] == board[row + 1] && board[row + 1] == board[row + 2] then Winner(board[last])
    else if board[column] == board[column + 3] && board[column + 3] == board[column + 6] then Winner(board[last])
    else if (last == 2 || last == 4 || last == 6) && board[2] == board[4] && board[4] == board[6] then Winner(board[last])
    else if (last == 0 || last == 4 || last == 8) && board[0] == board[4] && board[4] == board[8] then Winner(board[last])
    else if turn == 10 then Draw
    else if !HasEmpty(board) then Draw
    else None
  }

  /** The evaluator in full: a win for the mark at `last` exactly when some line through
      `last` is complete (checked for all eight lines, whatever the order of the tests);
      otherwise a draw exactly when the turn counter is 10 or the board is full. */
  lemma GameEndCharacterized(board: Board, last: int, turn: int)
    requires 0 <= last < 9 && board[last] != 0
    ensures LineThroughComplete(board, last) ==> GameEnd(board, last, turn) == Winner(board[last])
    ensures !LineThroughComplete(board, last) ==>
      GameEnd(board, last, turn) == (if turn == 10 || !HasEmpty(board) then Draw else None)
  {
    if LineThroughComplete(board, last) {
      CompleteLineWins(board, last, turn);
    } else {
      NoCompleteLine(board, last, turn);
    }
  }

  lemma CompleteLineWins(board: Board, last: int, turn: int)
    requires 0 <= last < 9 && board[last] != 0
    requires LineThroughComplete(board, last)
    ensures GameEnd(board, last, turn) == Winner(board[last])
  {
    var k :| 0 <= k < 8 && Lines[k].Contains(last) && Complete(board, Lines[k]);
    if k < 3 {
      assert Lines[k] == Line(3 * k, 3 * k + 1, 3 * k + 2);
      assert (last / 3) * 3 == 3 * k;
    } else if k < 6 {
      assert Lines[k] == Line(k - 3, k, k + 3);
      assert last % 3 == k - 3;
    }
  }

  lemma NoCompleteLine(board: Board, last: int, turn: int)
    requires 0 <= last < 9 && board[last] != 0
    requires !LineThroughComplete(board, last)
    ensures GameEnd(board, last, turn) == (if turn == 10 || !HasEmpty(board) then Draw else None)
  {
    var row := last / 3;
    var column := last % 3;
    assert Lines[row] == Line(3 * row, 3 * row + 1, 3 * row + 2) && Lines[row].Contains(last);
    assert Lines[3 + column] == Line(column, column + 3, column + 6) && Lines[3 + column].Contains(last);
    assert Lines[7].Contains(last) <== (last == 2 || last == 4 || last == 6);
    assert Lines[6].Contains(last) <== (last == 0 || last == 4 || last == 8);
  }

  /** Placing `p` on the empty cell `c` completes a line through `c`. */
  predicate CompletesLine(board: Board, c: int, p: Player)
  {
    0 <= c < 9 && board[c] == 0 && LineThroughComplete(board[c := p], c)
  }

  /** Indices of the empty cells from `i` on, in increasing order. */
  function EmptyFrom(board: Board, i: nat): (r: seq<int>)
    requires i <= 9
    ensures forall j :: 0 <= j < |r| ==> i <= r[j] < 9 && board[r[j]] == 0
    ensures forall c :: i <= c < 9 && board[c] == 0 ==> c in r
    ensures forall j, j' :: 0 <= j < j' < |r| ==> r[j] < r[j']
    decreases 9 - i
  {
    if i == 9 then []
    else if board[i] == 0 then [i] + EmptyFrom(board, i + 1)
    else EmptyFrom(board, i + 1)
  }

  /** The list of empty cells the controller collects before a random pick. */
  function EmptyCells(board: Board): seq<int>
  {
    EmptyFrom(board, 0)
  }

  lemma EmptyCellsEmptyIffFull(board: Board)
    ensures |EmptyCells(board)| == 0 <==> !HasEmpty(board)
  {
    if HasEmpty(board) {
      var i :| 0 <= i < 9 && board[i] == 0;
      assert i in EmptyCells(board);
    }
  }

  /** The set of empty cells; placing a mark shrinks it strictly. */
  function Empties(board: Board): set<int>
  {
    set i | 0 <= i < 9 && board[i] == 0
  }

  lemma PlaceShrinksEmpties(board: Board, i: int, p: Player)
    requires 0 <= i < 9 && board[i] == 0
    ensures Empties(board[i := p]) < Empties(board)
    ensures |Empties(board[i := p])| == |Empties(board)| - 1 <= 8
  {
    assert i in Empties(board) && i !in Empties(board[i := p]);
    assert Empties(board[i := p]) == Empties(board) - {i};
    EmptiesAtMostNine(board);
  }

  /** A board has at most nine empty cells. */
  lemma EmptiesAtMostNine(board: Board)
    ensures |Empties(board)| <= 9
  {
    var all: set<int> := {0, 1, 2, 3, 4, 5, 6, 7, 8};
    assert |all| == 9;
    forall x | x in Empties(board) ensures x in all {
      assert x == 0 || x == 1 || x == 2 || x == 3 || x == 4 || x == 5 || x == 6 || x == 7 || x == 8;
    }
    SubsetSize(Empties(board), all);
  }

  lemma SubsetSize(small: set<int>, big: set<int>)
    requires small <= big
    ensures |small| <= |big|
  {
    assert big == small + (big - small);
  }
}
