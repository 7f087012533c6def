/**
  The game session: the history of board snapshots with the cursor that
  selects the displayed one, the move handler that validates a click and
  records the new snapshot, and time travel through the move list.
 */
module GameHistory {
  import opened TicTacToe

  /** `next` is `prev` after the player `m` took an empty square of a board
      nobody has won. */
  ghost predicate IsMove(prev: seq<Cell>, next: seq<Cell>, m: Mark)
    requires |prev| == 9
  {
    exists i: Index :: CanPlay(prev, i) && next == prev[i := Some(m)]
  }

  /** Snapshot `k` follows from snapshot `k - 1` by a move of the player
      whose turn it was. */
  ghost predicate StepAt(h: seq<seq<Cell>>, k: nat)
    requires 0 < k < |h|
  {
    |h[k - 1]| == 9 && |h[k]| == 9 && IsMove(h[k - 1], h[k], PlayerToMove(k - 1))
  }

  /** A history produced by play alone: it starts at the empty board and
      each snapshot adds one mark, X and O taking turns. */
  ghost predicate WellPlayed(h: seq<seq<Cell>>) {
    |h| > 0 && h[0] == EmptyBoard && forall k :: 0 < k < |h| ==> StepAt(h, k)
  }

  /** The number of squares of `b` holding `m`. */
  function Count(b: seq<Cell>, m: Mark): (n: nat)
    ensures n <= |b|
  {
    if b == [] then 0
    else (if b[0] == Some(m) then 1 else 0) + Count(b[1..], m)
  }

  lemma {:induction false} CountAfterMark(b: seq<Cell>, i: nat, m: Mark, m': Mark)
    requires i < |b| && b[i].None?
    ensures Count(b[i := Some(m)], m') == Count(b, m') + (if m == m' then 1 else 0)
  {
    if i == 0 {
      assert b[i := Some(m)][1..] == b[1..];
    } else {
      assert b[i := Some(m)][1..] == b[1..][i - 1 := Some(m)];
      CountAfterMark(b[1..], i - 1, m, m');
    }
  }

  /** The marks on a board never outnumber its squares, and they fill it
      exactly when every square is occupied. */
  lemma {:induction false} MarksFillBoard(b: seq<Cell>)
    ensures Count(b, X) + Count(b, O) <= |b|
    ensures Count(b, X) + Count(b, O) == |b| <==> Full(b)
  {
    if b != [] {
      MarksFillBoard(b[1..]);
      assert Count(b, X) == (if b[0] == Some(X) then 1 else 0) + Count(b[1..], X);
      assert Count(b, O) == (if b[0] == Some(O) then 1 else 0) + Count(b[1..], O);
      match b[0] {
        case None =>
        case Some(m) => assert m == X || m == O;
      }
      if Full(b[1..]) && b[0].Some? {
        forall k | 0 <= k < |b| ensures b[k].Some? {
          if k > 0 { assert b[k] == b[1..][k - 1]; }
        }
      }
      if Full(b) {
        forall k | 0 <= k < |b| - 1 ensures b[1..][k].Some? {
          assert b[1..][k] == b[k + 1];
        }
        assert b[0].Some? && Full(b[1..]);
      }
    }
  }

  /** Each move adds one mark of the player whose turn it was, and no other. */
  lemma StepAddsOneMark(h: seq<seq<Cell>>, k: nat)
    requires 0 < k < |h| && StepAt(h, k)
    ensures Count(h[k], PlayerToMove(k - 1)) == Count(h[k - 1], PlayerToMove(k - 1)) + 1
    ensures Count(h[k], PlayerToMove(k)) == Count(h[k - 1], PlayerToMove(k))
  {
    var m := PlayerToMove(k - 1);
    var i: Index :| CanPlay(h[k - 1], i) && h[k] == h[k - 1][i := Some(m)];
    CountAfterMark(h[k - 1], i, m, m);
    CountAfterMark(h[k - 1], i, m, PlayerToMove(k));
  }

  /** After `k` moves of a played history, X has made (k + 1) / 2 of them
      and O the other k / 2; so X is to move exactly when the counts agree. */
  lemma {:induction false} MarksAfterMoves(h: seq<seq<Cell>>, k: nat)
    requires WellPlayed(h) && k < |h|
    ensures |h[k]| == 9
    ensures Count(h[k], X) == (k + 1) / 2 && Count(h[k], O) == k / 2
    ensures PlayerToMove(k) == X <==> Count(h[k], X) == Count(h[k], O)
  {
    if k > 0 {
      MarksAfterMoves(h, k - 1);
      assert StepAt(h, k);
      StepAddsOneMark(h, k);
      if k % 2 == 0 {
        assert PlayerToMove(k - 1) == O && PlayerToMove(k) == X;
      } else {
        assert PlayerToMove(k - 1) == X && PlayerToMove(k) == O;
      }
    } else {
      assert Count(EmptyBoard, X) == 0 && Count(EmptyBoard, O) == 0;
    }
  }

  /** A played history holds at most ten snapshots, and a full board (a
      draw, unless its last move won) can only be the one after move 9. */
  lemma HistoryAtMostTenBoards(h: seq<seq<Cell>>)
    requires WellPlayed(h)
    ensures |h| <= 10
    ensures forall k :: 0 <= k < |h| && Full(h[k]) ==> k == 9
  {
    forall k | 0 <= k < |h|
      ensures k <= 9 && (Full(h[k]) ==> k == 9)
    {
      MarksAfterMoves(h, k);
      MarksFillBoard(h[k]);
    }
    MarksAfterMoves(h, |h| - 1);
    MarksFillBoard(h[|h| - 1]);
  }

  /** Only the last snapshot of a played history can show a won board. */
  lemma {:induction false} NoMoveAfterWin(h: seq<seq<Cell>>, k: nat)
    requires WellPlayed(h) && k + 1 < |h|
    ensures |h[k]| == 9 && CalculateWinner(h[k]).None?
  {
    assert StepAt(h, k + 1);
  }

  /** Keeping snapshots 0..n of a played history and appending a move made
      from snapshot n gives a played history again. */
  lemma BranchKeepsWellPlayed(h: seq<seq<Cell>>, n: nat, next: seq<Cell>)
    requires WellPlayed(h) && n < |h| && |h[n]| == 9
    requires IsMove(h[n], next, PlayerToMove(n))
    ensures WellPlayed(h[..n + 1] + [next])
  {
    var h' := h[..n + 1] + [next];
    forall k | 0 < k < |h'| ensures StepAt(h', k) {
      if k <= n {
        assert StepAt(h, k);
      } else {
        var i: Index :| CanPlay(h[n], i) && next == h[n][i := Some(PlayerToMove(n))];
      }
    }
  }

  /** The copy of `squares` with `m` written at square `i`: the board is
      copied into a fresh array and the square assigned in place, so the
      snapshot it was copied from is left as it was. */
  method PlaceMark(squares: seq<Cell>, i: Index, m: Mark) returns (next: seq<Cell>)
    requires |squares| == 9
    ensures |next| == 9 && next[i] == Some(m)
    ensures forall k :: 0 <= k < 9 && k != i ==> next[k] == squares[k]
  {
    var a := new Cell[|squares|](k requires 0 <= k < |squares| => squares[k]);
    a[i] := Some(m);
    next := a[..];
  }

  /** One game session. */
  class Game {
    /** The snapshots, index 0 being the empty board. */
    var history: seq<seq<Cell>>
    /** The index of the displayed snapshot. */
    var currentMove: nat

    ghost predicate Valid()
      reads this
    {
      |history| > 0 && currentMove < |history| &&
      forall k :: 0 <= k < |history| ==> |history[k]| == 9
    }

    /** A new game: one empty board, displayed. */
    constructor ()
      ensures Valid() && WellPlayed(history)
      ensures history == [EmptyBoard] && currentMove == 0
    {
      history := [EmptyBoard];
      currentMove := 0;
    }

    /** The displayed snapshot. */
    function CurrentSquares(): (b: seq<Cell>)
      reads this
      requires Valid()
      ensures |b| == 9 && b in history
    {
      history[currentMove]
    }

    /** The status shown for the displayed snapshot: it asks for a next
        player exactly when some click would be accepted, and that player
        is the one the cursor's parity selects. */
    function CurrentStatus(): (s: GameStatus)
      reads this
      requires Valid()
      ensures s.Next? <==> exists i: Index :: CanPlay(history[currentMove], i)
      ensures s.Next? ==> s.player == PlayerToMove(currentMove)
      ensures s.Won? <==> CalculateWinner(history[currentMove]).Some?
      ensures s.Won? ==> s.winner == CalculateWinner(history[currentMove]).value.0
      ensures s.Won? <==> !NoLineComplete(history[currentMove])
    {
      NextIffSomeMoveAccepted(history[currentMove], currentMove % 2 == 0);
      Status(history[currentMove], currentMove % 2 == 0)
    }

    /** The status line shown above the board, with every player named by
        the character its squares show. */
    function StatusLine(): (t: string)
      reads this
      requires Valid()
      ensures CurrentStatus().Next? ==> |t| > 0 && t[|t| - 1] == MarkChar(PlayerToMove(currentMove))
      ensures t == "Draw" <==> CurrentStatus().Draw?
    {
      StatusText(CurrentStatus())
    }

    /** Records `nextSquares` after the displayed snapshot, discarding the
        snapshots that followed it, and displays it. */
    method HandlePlay(nextSquares: seq<Cell>)
      requires Valid() && |nextSquares| == 9
      modifies this
      ensures Valid()
      ensures history == old(history)[..old(currentMove) + 1] + [nextSquares]
      ensures currentMove == |history| - 1 == old(currentMove) + 1
    {
      var nextHistory := history[..currentMove + 1] + [nextSquares];
      history := nextHistory;
      currentMove := |nextHistory| - 1;
    }

    /** Displays snapshot `nextMove`; the history is left as it is. */
    method JumpTo(nextMove: nat)
      requires Valid() && nextMove < |history|
      modifies this
      ensures Valid()
      ensures history == old(history) && currentMove == nextMove
    {
      currentMove := nextMove;
    }

    /** A click on square `i`. It is ignored when the square is occupied or
        the displayed board is won; otherwise the player to move marks a
        copy of the displayed board, which is recorded by HandlePlay. */
    method PlaySquare(i: Index)
      requires Valid()
      modifies this
      ensures Valid()
      ensures !CanPlay(old(history[currentMove]), i) ==>
        history == old(history) && currentMove == old(currentMove)
      ensures CanPlay(old(history[currentMove]), i) ==>
        && history == old(history)[..old(currentMove) + 1] + [old(history[currentMove])[i := Some(PlayerToMove(old(currentMove)))]]
        && currentMove == old(currentMove) + 1
      ensures WellPlayed(old(history)) ==> WellPlayed(history)
    {
      var squares := history[currentMove];
      var winner := ScanWinner(squares);
      if squares[i].Some? || winner.Some? {
        return;
      }
      var nextSquares := PlaceMark(squares, i, if currentMove % 2 == 0 then X else O);
      assert nextSquares == squares[i := Some(PlayerToMove(currentMove))];
      if WellPlayed(history) {
        assert CanPlay(squares, i);
        assert IsMove(squares, nextSquares, PlayerToMove(currentMove));
        BranchKeepsWellPlayed(history, currentMove, nextSquares);
      }
      HandlePlay(nextSquares);
    }
  }

  /** The opening shared by the games below: X at 0, O at 4, X at 1. */
  method PlayOpening(g: Game)
    requires g.Valid() && g.history == [EmptyBoard] && g.currentMove == 0
    modifies g
    ensures g.Valid() && |g.history| == 4 && g.currentMove == 3
    ensures g.history[0] == EmptyBoard
    ensures g.CurrentSquares() == [Some(X), Some(X), None, None, Some(O), None, None, None, None]
  {
    g.PlaySquare(0);
    assert g.CurrentSquares() == [Some(X), None, None, None, None, None, None, None, None];
    g.PlaySquare(4);
    assert g.CurrentSquares() == [Some(X), None, None, None, Some(O), None, None, None, None];
    g.PlaySquare(1);
    assert g.CurrentSquares() == [Some(X), Some(X), None, None, Some(O), None, None, None, None];
  }

  /** X takes the top row in five moves; the status names X as the winner
      with line 0-1-2, and a further click is ignored. */
  method TopRowGame() returns (s: GameStatus, w: Option<(Mark, Line)>, ignored: bool)
    ensures s == Won(X) && w == Some((X, Line(0, 1, 2))) && ignored
  {
    var g := new Game();
    PlayOpening(g);
    g.PlaySquare(5);
    assert g.CurrentSquares() == [Some(X), Some(X), None, None, Some(O), Some(O), None, None, None];
    g.PlaySquare(2);
    assert g.CurrentSquares() == [Some(X), Some(X), Some(X), None, Some(O), Some(O), None, None, None];
    var before, cursor := g.history, g.currentMove;
    WinnerIsFirstInTableOrder(g.CurrentSquares(), 0);
    g.PlaySquare(6);
    ignored := g.history == before && g.currentMove == cursor;
    s := g.CurrentStatus();
    w := ScanWinner(g.CurrentSquares());
  }

  /** Jumping back to the start keeps every snapshot; a move made from
      there discards all of them but the first. */
  method JumpBackAndBranch() returns (kept: nat, shown: seq<Cell>, branched: seq<seq<Cell>>)
    ensures kept == 4 && shown == EmptyBoard
    ensures branched == [EmptyBoard, EmptyBoard[8 := Some(X)]]
  {
    var g := new Game();
    PlayOpening(g);
    g.JumpTo(0);
    kept, shown := |g.history|, g.CurrentSquares();
    g.PlaySquare(8);
    branched := g.history;
  }

  /** Moves 1 to 3 of the drawn game below. */
  method DrawnGameFirstRow(g: Game)
    requires g.Valid() && g.currentMove == 0 && g.CurrentSquares() == EmptyBoard
    modifies g
    ensures g.Valid() && g.currentMove == 3
    ensures g.CurrentSquares() == [Some(X), Some(O), Some(X), None, None, None, None, None, None]
  {
    g.PlaySquare(0);
    assert g.CurrentSquares() == [Some(X), None, None, None, None, None, None, None, None];
    g.PlaySquare(1);
    assert g.CurrentSquares() == [Some(X), Some(O), None, None, None, None, None, None, None];
    g.PlaySquare(2);
    assert g.CurrentSquares() == [Some(X), Some(O), Some(X), None, None, None, None, None, None];
  }

  /** Moves 4 to 6 of the drawn game below. */
  method DrawnGameSecondRow(g: Game)
    requires g.Valid() && g.currentMove == 3 && g.CurrentSquares() == [Some(X), Some(O), Some(X), None, None, None, None, None, None]
    modifies g
    ensures g.Valid() && g.currentMove == 6
    ensures g.CurrentSquares() == [Some(X), Some(O), Some(X), Some(X), Some(O), Some(O), None, None, None]
  {
    g.PlaySquare(4);
    assert g.CurrentSquares() == [Some(X), Some(O), Some(X), None, Some(O), None, None, None, None];
    g.PlaySquare(3);
    assert g.CurrentSquares() == [Some(X), Some(O), Some(X), Some(X), Some(O), None, None, None, None];
    g.PlaySquare(5);
    assert g.CurrentSquares() == [Some(X), Some(O), Some(X), Some(X), Some(O), Some(O), None, None, None];
  }

  /** Moves 7 to 9 of the drawn game below. */
  method DrawnGameLastRow(g: Game)
    requires g.Valid() && g.currentMove == 6 && g.CurrentSquares() == [Some(X), Some(O), Some(X), Some(X), Some(O), Some(O), None, None, None]
    modifies g
    ensures g.Valid() && g.currentMove == 9
    ensures g.CurrentSquares() == [Some(X), Some(O), Some(X), Some(X), Some(O), Some(O), Some(O), Some(X), Some(X)]
  {
    g.PlaySquare(7);
    assert g.CurrentSquares() == [Some(X), Some(O), Some(X), Some(X), Some(O), Some(O), None, Some(X), None];
    g.PlaySquare(6);
    assert g.CurrentSquares() == [Some(X), Some(O), Some(X), Some(X), Some(O), Some(O), Some(O), Some(X), None];
    g.PlaySquare(8);
    assert g.CurrentSquares() == [Some(X), Some(O), Some(X), Some(X), Some(O), Some(O), Some(O), Some(X), Some(X)];
  }

  /** Nine moves that fill the board without completing a line end in a
      draw: X at 0, 2, 3, 7, 8 and O at 1, 4, 5, 6. */
  method DrawnGame() returns (s: GameStatus, w: Option<(Mark, Line)>)
    ensures s == Draw && w == None
  {
    var g := new Game();
    DrawnGameFirstRow(g);
    DrawnGameSecondRow(g);
    DrawnGameLastRow(g);
    s := g.CurrentStatus();
    w := ScanWinner(g.CurrentSquares());
  }
}
