/**
  The board evaluator of the tic-tac-toe game: marks, cells, the table of
  the eight winning lines, the winner search and the status derived from a
  board.
 */
module TicTacToe {

  datatype Option<T> = None | Some(value: T)

  /** The two players' marks, shown on the board as the characters 'X' and 'O'. */
  datatype Mark = X | O

  /** A square of the board: `None` is the empty square (null in the game). */
  type Cell = Option<Mark>

  /** A square index, 0..8 in row-major order. */
  type Index = i: nat | i < 9

  /** A winning line: three square indices. */
  datatype Line = Line(a: Index, b: Index, c: Index)

  /** The fixed table scanned for a winner: the rows top to bottom, the
      columns left to right, then the two diagonals. */
  const Lines: seq<Line> := [
    Line(0, 1, 2),
    Line(3, 4, 5),
    Line(6, 7, 8),
    Line(0, 3, 6),
    Line(1, 4, 7),
    Line(2, 5, 8),
    Line(0, 4, 8),
    Line(2, 4, 6)
  ]

  /** The board of a game that has not started: nine empty squares. */
  const EmptyBoard: seq<Cell> := [None, None, None, None, None, None, None, None, None]

  /** The mark of the player to move after `move` moves: X moves on even turns. */
  function PlayerToMove(move: nat): Mark {
    if move % 2 == 0 then X else O
  }

  /** The character a square holding `m` shows. */
  function MarkChar(m: Mark): char {
    match m
    case X => 'X'
    case O => 'O'
  }

  /** The three squares of `l` all hold the mark `m`. */
  predicate HeldBy(b: seq<Cell>, l: Line, m: Mark)
    requires |b| == 9
  {
    b[l.a] == Some(m) && b[l.b] == Some(m) && b[l.c] == Some(m)
  }

  /** The test applied to each line: its first square is occupied and
      the other two equal it. */
  predicate Complete(b: seq<Cell>, l: Line)
    requires |b| == 9
  {
    b[l.a].Some? && b[l.a] == b[l.b] && b[l.a] == b[l.c]
  }

  /** No line of the table is complete. */
  predicate NoLineComplete(b: seq<Cell>)
    requires |b| == 9
  {
    forall j :: 0 <= j < |Lines| ==> !Complete(b, Lines[j])
  }

  /** Every square is occupied. */
  predicate Full(b: seq<Cell>) {
    forall k :: 0 <= k < |b| ==> b[k].Some?
  }

  /** Line `j` is the first complete line at or after position `k` of the table. */
  ghost predicate FirstCompleteFrom(b: seq<Cell>, k: nat, j: nat)
    requires |b| == 9
  {
    k <= j < |Lines| && Complete(b, Lines[j]) &&
    forall i :: k <= i < j ==> !Complete(b, Lines[i])
  }

  /** The winner search over the table from position `k` on. */
  function ScanFrom(b: seq<Cell>, k: nat): Option<(Mark, Line)>
    requires |b| == 9 && k <= |Lines|
    decreases |Lines| - k
  {
    if k == |Lines| then None
    else if Complete(b, Lines[k]) then Some((b[Lines[k].a].value, Lines[k]))
    else ScanFrom(b, k + 1)
  }

  /** The winner of board `b` with its line, or `None` when no line is won. */
  function CalculateWinner(b: seq<Cell>): Option<(Mark, Line)>
    requires |b| == 9
  {
    ScanFrom(b, 0)
  }

  /** What the search from position `k` reports is a line of the table at
      or after `k` held by the reported mark, and it reports nothing
      exactly when no line from `k` on is complete. */
  lemma {:induction false} ScanFromSound(b: seq<Cell>, k: nat)
    requires |b| == 9 && k <= |Lines|
    ensures ScanFrom(b, k).Some? ==>
      ScanFrom(b, k).value.1 in Lines[k..] && HeldBy(b, ScanFrom(b, k).value.1, ScanFrom(b, k).value.0)
    ensures ScanFrom(b, k).None? <==> forall j :: k <= j < |Lines| ==> !Complete(b, Lines[j])
    decreases |Lines| - k
  {
    if k < |Lines| && !Complete(b, Lines[k]) {
      ScanFromSound(b, k + 1);
    }
  }

  /** A reported winner holds all three squares of a line of the table. */
  lemma WinnerHoldsLine(b: seq<Cell>)
    requires |b| == 9 && CalculateWinner(b).Some?
    ensures CalculateWinner(b).value.1 in Lines
    ensures HeldBy(b, CalculateWinner(b).value.1, CalculateWinner(b).value.0)
  {
    ScanFromSound(b, 0);
    assert Lines[0..] == Lines;
  }

  /** There is no winner exactly when no line of the table is complete. */
  lemma NoWinnerIffNoCompleteLine(b: seq<Cell>)
    requires |b| == 9
    ensures CalculateWinner(b).None? <==> NoLineComplete(b)
  {
    ScanFromSound(b, 0);
  }

  /** The search as the game runs it: a loop over the table that returns
      at the first complete line. */
  method ScanWinner(squares: seq<Cell>) returns (r: Option<(Mark, Line)>)
    requires |squares| == 9
    ensures r == CalculateWinner(squares)
  {
    var i := 0;
    while i < |Lines|
      invariant 0 <= i <= |Lines|
      invariant ScanFrom(squares, i) == CalculateWinner(squares)
    {
      var line := Lines[i];
      if squares[line.a].Some? && squares[line.a] == squares[line.b] && squares[line.a] == squares[line.c] {
        return Some((squares[line.a].value, line));
      }
      i := i + 1;
    }
    return None;
  }

  lemma {:induction false} ScanFromReportsFirst(b: seq<Cell>, k: nat, j: nat)
    requires |b| == 9 && FirstCompleteFrom(b, k, j)
    ensures ScanFrom(b, k) == Some((b[Lines[j].a].value, Lines[j]))
    decreases j - k
  {
    if k < j {
      ScanFromReportsFirst(b, k + 1, j);
    }
  }

  lemma {:induction false} ScanFromFindsFirst(b: seq<Cell>, k: nat)
    requires |b| == 9 && k <= |Lines|
    ensures ScanFrom(b, k).Some? ==>
      exists j: nat :: FirstCompleteFrom(b, k, j) && ScanFrom(b, k).value.1 == Lines[j]
    decreases |Lines| - k
  {
    if k < |Lines| {
      if Complete(b, Lines[k]) {
        assert FirstCompleteFrom(b, k, k);
      } else {
        ScanFromFindsFirst(b, k + 1);
        if ScanFrom(b, k).Some? {
          var j: nat :| FirstCompleteFrom(b, k + 1, j) && ScanFrom(b, k + 1).value.1 == Lines[j];
          assert FirstCompleteFrom(b, k, j);
        }
      }
    }
  }

  /** When several lines are complete, the one reported is the first in
      table order: rows, then columns, then the 0-4-8 and 2-4-6 diagonals. */
  lemma WinnerIsFirstInTableOrder(b: seq<Cell>, j: nat)
    requires |b| == 9 && j < |Lines| && Complete(b, Lines[j])
    requires forall i :: 0 <= i < j ==> !Complete(b, Lines[i])
    ensures CalculateWinner(b) == Some((b[Lines[j].a].value, Lines[j]))
  {
    assert FirstCompleteFrom(b, 0, j);
    ScanFromReportsFirst(b, 0, j);
  }

  /** A reported line is complete and every line before it in the table is not. */
  lemma WinnerHasNoEarlierLine(b: seq<Cell>)
    requires |b| == 9 && CalculateWinner(b).Some?
    ensures exists j: nat :: FirstCompleteFrom(b, 0, j) && CalculateWinner(b).value.1 == Lines[j]
  {
    ScanFromFindsFirst(b, 0);
  }

  /** A line held by one mark makes the board won, by that line or by an
      earlier one in table order. */
  lemma FilledLineWins(b: seq<Cell>, j: nat, m: Mark)
    requires |b| == 9 && j < |Lines| && HeldBy(b, Lines[j], m)
    ensures CalculateWinner(b).Some?
    ensures exists i :: 0 <= i <= j && CalculateWinner(b).value.1 == Lines[i]
  {
    assert Complete(b, Lines[j]);
    WinnerHasNoEarlierLine(b);
    var i: nat :| FirstCompleteFrom(b, 0, i) && CalculateWinner(b).value.1 == Lines[i];
    assert i <= j;
  }

  /** The status the game shows above the board. */
  datatype GameStatus = Won(winner: Mark) | Draw | Next(player: Mark)

  /** The status of board `b` when `xIsNext` says whether X moves next. */
  function Status(b: seq<Cell>, xIsNext: bool): (s: GameStatus)
    requires |b| == 9
    ensures s.Won? <==> CalculateWinner(b).Some?
    ensures s.Won? ==> s.winner == CalculateWinner(b).value.0
    ensures s.Won? <==> !NoLineComplete(b)
    ensures s.Won? ==> exists j :: 0 <= j < |Lines| && HeldBy(b, Lines[j], s.winner)
    ensures s.Draw? <==> NoLineComplete(b) && Full(b)
    ensures s.Next? ==> s.player == (if xIsNext then X else O)
  {
    NoWinnerIffNoCompleteLine(b);
    var w := CalculateWinner(b);
    if w.Some? then WinnerHoldsLine(b); Won(w.value.0)
    else if Full(b) then Draw
    else Next(if xIsNext then X else O)
  }

  /** A click on square `i` is accepted: the square is empty and nobody has won. */
  predicate CanPlay(b: seq<Cell>, i: Index)
    requires |b| == 9
  {
    b[i].None? && CalculateWinner(b).None?
  }

  /** The status asks for a next player exactly when some click would be
      accepted; after a win or a draw every click is ignored. */
  lemma NextIffSomeMoveAccepted(b: seq<Cell>, xIsNext: bool)
    requires |b| == 9
    ensures Status(b, xIsNext).Next? <==> exists i: Index :: CanPlay(b, i)
  {
    if Status(b, xIsNext).Next? {
      var k :| 0 <= k < |b| && b[k].None?;
      assert CanPlay(b, k);
    }
  }

  /** The status line exactly as the game formats it: the player to move
      is named by the digit '0' when it is O. */
  function StatusTextAsWritten(s: GameStatus): (t: string)
    ensures s.Draw? <==> t == "Draw"
  {
    match s
    case Won(m) => "Winner: " + [MarkChar(m)]
    case Draw => "Draw"
    case Next(m) => "Next player: " + (if m == X then "X" else "0")
  }

  /** The status line as intended: every player is named by the character
      its squares show. */
  function StatusText(s: GameStatus): (t: string)
    ensures s.Draw? <==> t == "Draw"
    ensures !s.Draw? ==> |t| > 0 && t[|t| - 1] == MarkChar(if s.Won? then s.winner else s.player)
  {
    match s
    case Won(m) => "Winner: " + [MarkChar(m)]
    case Draw => "Draw"
    case Next(m) => "Next player: " + [MarkChar(m)]
  }

  /** The formatted line names O as '0', not as the 'O' its squares show. */
  lemma StatusTextAsWrittenMisnamesO()
    ensures StatusTextAsWritten(Next(O)) == "Next player: 0"
    ensures StatusTextAsWritten(Next(O))[|StatusTextAsWritten(Next(O))| - 1] != MarkChar(O)
  {
  }

  /** Distinct statuses give distinct lines. */
  lemma StatusTextInjective(s1: GameStatus, s2: GameStatus)
    requires StatusText(s1) == StatusText(s2)
    ensures s1 == s2
  {
    var t := StatusText(s1);
    if !s1.Draw? && !s2.Draw? {
      assert t[0] == (if s1.Won? then 'W' else 'N') == (if s2.Won? then 'W' else 'N');
      assert MarkChar(if s1.Won? then s1.winner else s1.player) == MarkChar(if s2.Won? then s2.winner else s2.player);
    }
  }
}
