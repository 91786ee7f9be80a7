/** Worked games: a win along the top row, a drawn full board, undoing an
    opening move, and the decision on a board where two cells both force a
    win for O. */
module Scenarios {
  import opened Options
  import opened Boards
  import opened Game
  import opened Engine

  /** A board on which line `k` is uniform and every uniform line holds
      `m` is won by `m`, whichever line the scan reports. */
  lemma WonBy(bd: Board, m: Mark, k: nat)
    requires k < |WinLines| && Uniform(bd, WinLines[k])
    requires forall j :: 0 <= j < |WinLines| && Uniform(bd, WinLines[j]) ==> bd[WinLines[j].a] == m
    ensures CheckWinner(bd).Won? && CheckWinner(bd).winner == m
  {
  }

  /** A board with an empty cell on which none of the eight lines is
      uniform is still in play. */
  lemma OpenBoard(bd: Board, e: Index)
    requires bd[e] == Empty
    requires !Uniform(bd, Line(0, 1, 2)) && !Uniform(bd, Line(3, 4, 5)) && !Uniform(bd, Line(6, 7, 8))
    requires !Uniform(bd, Line(0, 3, 6)) && !Uniform(bd, Line(1, 4, 7)) && !Uniform(bd, Line(2, 5, 8))
    requires !Uniform(bd, Line(0, 4, 8)) && !Uniform(bd, Line(2, 4, 6))
    ensures CheckWinner(bd) == InPlay
  {
    forall k | 0 <= k < |WinLines|
      ensures !Uniform(bd, WinLines[k])
    {
    }
  }

  /** A uniform top row is always the reported line, since it is scanned
      first. */
  lemma TopLineWin(bd: Board)
    requires Uniform(bd, Line(0, 1, 2))
    ensures CheckWinner(bd) == Won(bd[0], Line(0, 1, 2))
  {
    assert WinLines[0] == Line(0, 1, 2);
    assert FirstWin(bd, 0) == Some(0);
  }

  /** The empty board cell by cell. */
  lemma EmptyBoardCells()
    ensures EmptyBoard() == [Empty, Empty, Empty, Empty, Empty, Empty, Empty, Empty, Empty]
  {
  }

  /** Move 1 of the top-row game: X on cell 0, and the game goes on.
      The state is a parameter pinned by the requires, so that callers
      match it against their own state instead of unfolding a literal. */
  lemma TopRowStep1(s: State)
    requires s == State([Empty, Empty, Empty, Empty, Empty, Empty, Empty, Empty, Empty], X, false, [], Scores(0, 0, 0))
    ensures MakeMove(s, 0, X)
         == (true, State([X, Empty, Empty, Empty, Empty, Empty, Empty, Empty, Empty], O, false, [Move(0, X)], Scores(0, 0, 0)))
  {
    var bd: Board := [Empty, Empty, Empty, Empty, Empty, Empty, Empty, Empty, Empty];
    var bd': Board := [X, Empty, Empty, Empty, Empty, Empty, Empty, Empty, Empty];
    assert bd[0 := X] == bd';
    var h: seq<Move> := [];
    assert h + [Move(0, X)] == [Move(0, X)];
    OpenBoard(bd', 8);
  }

  /** Move 2 of the top-row game: O on cell 4, and the game goes on.
      The state is a parameter pinned by the requires, so that callers
      match it against their own state instead of unfolding a literal. */
  lemma TopRowStep2(s: State)
    requires s == State([X, Empty, Empty, Empty, Empty, Empty, Empty, Empty, Empty], O, false, [Move(0, X)], Scores(0, 0, 0))
    ensures MakeMove(s, 4, O)
         == (true, State([X, Empty, Empty, Empty, O, Empty, Empty, Empty, Empty], X, false, [Move(0, X), Move(4, O)], Scores(0, 0, 0)))
  {
    var bd: Board := [X, Empty, Empty, Empty, Empty, Empty, Empty, Empty, Empty];
    var bd': Board := [X, Empty, Empty, Empty, O, Empty, Empty, Empty, Empty];
    assert bd[4 := O] == bd';
    var h: seq<Move> := [Move(0, X)];
    assert h + [Move(4, O)] == [Move(0, X), Move(4, O)];
    OpenBoard(bd', 8);
  }

  /** Move 3 of the top-row game: X on cell 1, and the game goes on.
      The state is a parameter pinned by the requires, so that callers
      match it against their own state instead of unfolding a literal. */
  lemma TopRowStep3(s: State)
    requires s == State([X, Empty, Empty, Empty, O, Empty, Empty, Empty, Empty], X, false, [Move(0, X), Move(4, O)], Scores(0, 0, 0))
    ensures MakeMove(s, 1, X)
         == (true, State([X, X, Empty, Empty, O, Empty, Empty, Empty, Empty], O, false, [Move(0, X), Move(4, O), Move(1, X)], Scores(0, 0, 0)))
  {
    var bd: Board := [X, Empty, Empty, Empty, O, Empty, Empty, Empty, Empty];
    var bd': Board := [X, X, Empty, Empty, O, Empty, Empty, Empty, Empty];
    assert bd[1 := X] == bd';
    var h: seq<Move> := [Move(0, X), Move(4, O)];
    assert h + [Move(1, X)] == [Move(0, X), Move(4, O), Move(1, X)];
    OpenBoard(bd', 8);
  }

  /** Move 4 of the top-row game: O on cell 7, and the game goes on.
      The state is a parameter pinned by the requires, so that callers
      match it against their own state instead of unfolding a literal. */
  lemma TopRowStep4(s: State)
    requires s == State([X, X, Empty, Empty, O, Empty, Empty, Empty, Empty], O, false, [Move(0, X), Move(4, O), Move(1, X)], Scores(0, 0, 0))
    ensures MakeMove(s, 7, O)
         == (true, State([X, X, Empty, Empty, O, Empty, Empty, O, Empty], X, false, [Move(0, X), Move(4, O), Move(1, X), Move(7, O)], Scores(0, 0, 0)))
  {
    var bd: Board := [X, X, Empty, Empty, O, Empty, Empty, Empty, Empty];
    var bd': Board := [X, X, Empty, Empty, O, Empty, Empty, O, Empty];
    assert bd[7 := O] == bd';
    var h: seq<Move> := [Move(0, X), Move(4, O), Move(1, X)];
    assert h + [Move(7, O)] == [Move(0, X), Move(4, O), Move(1, X), Move(7, O)];
    OpenBoard(bd', 8);
  }

  /** Move 5 of the top-row game: X completes the top row.
      The state is a parameter pinned by the requires, so that callers
      match it against their own state instead of unfolding a literal. */
  lemma TopRowStep5(s: State)
    requires s == State([X, X, Empty, Empty, O, Empty, Empty, O, Empty], X, false, [Move(0, X), Move(4, O), Move(1, X), Move(7, O)], Scores(0, 0, 0))
    ensures var r := MakeMove(s, 2, X);
            && r.0
            && r.1.board == [X, X, X, Empty, O, Empty, Empty, O, Empty]
            && r.1.isGameOver
            && r.1.scores == Scores(1, 0, 0)
  {
    var bd': Board := [X, X, X, Empty, O, Empty, Empty, O, Empty];
    assert s.board[2 := X] == bd';
    TopLineWin(bd');
  }

  /** X takes the top row while O plays the centre and the bottom middle:
      the fifth move ends the game with X winning on line (0, 1, 2) and X's
      tally goes from 0 to 1. */
  lemma TopRowWin()
    ensures var s1 := MakeMove(Initial(), 0, X).1;
            var s2 := MakeMove(s1, 4, O).1;
            var s3 := MakeMove(s2, 1, X).1;
            var s4 := MakeMove(s3, 7, O).1;
            var r := MakeMove(s4, 2, X);
            && r.0
            && r.1.isGameOver
            && CheckWinner(r.1.board) == Won(X, Line(0, 1, 2))
            && r.1.scores == Scores(1, 0, 0)
  {
    EmptyBoardCells();
    var s0 := Initial();
    TopRowStep1(s0);
    var s1 := MakeMove(s0, 0, X).1;
    TopRowStep2(s1);
    var s2 := MakeMove(s1, 4, O).1;
    TopRowStep3(s2);
    var s3 := MakeMove(s2, 1, X).1;
    TopRowStep4(s3);
    var s4 := MakeMove(s3, 7, O).1;
    TopRowStep5(s4);
    TopLineWin([X, X, X, Empty, O, Empty, Empty, O, Empty]);
  }

  /** The full board X O X / X O O / O X X has no uniform line and is a
      draw. */
  lemma FullBoardDraw()
    ensures CheckWinner([X, O, X, X, O, O, O, X, X]) == Drawn
  {
    var bd: Board := [X, O, X, X, O, O, O, X, X];
    assert !HasWinLine(bd) by {
      forall k | 0 <= k < |WinLines|
        ensures !Uniform(bd, WinLines[k])
      {
      }
    }
  }

  /** Undoing X's opening move in the corner gives back the empty board
      with X to move. */
  lemma UndoOpening()
    ensures var t := Undo(MakeMove(Initial(), 0, X).1);
            t.board == EmptyBoard() && t.history == [] && !t.isGameOver && t.current == X
  {
    EmptyBoardCells();
    TopRowStep1(Initial());
  }

  /** The board after O takes cell 2 on X X _ / O O _ / _ _ _. */
  function ForkBoard(): Board {
    [X, X, O, O, O, Empty, Empty, Empty, Empty]
  }

  /** X answers the fork on cell 5 and O completes the 2-4-6 diagonal. */
  lemma ForkReply5()
    ensures MoveValue(ForkBoard(), false, 5) == 1
  {
    var bc: Board := [X, X, O, O, O, X, Empty, Empty, Empty];
    var bw: Board := [X, X, O, O, O, X, O, Empty, Empty];
    assert ForkBoard()[5 := X] == bc;
    assert bc[6 := O] == bw;
    OpenBoard(bc, 6);
    WonBy(bw, O, 7);
    WinningMove(bc, 6);
  }

  /** X answers the fork on cell 6 and O completes the middle row. */
  lemma ForkReply6()
    ensures MoveValue(ForkBoard(), false, 6) == 1
  {
    var bc: Board := [X, X, O, O, O, Empty, X, Empty, Empty];
    var bw: Board := [X, X, O, O, O, O, X, Empty, Empty];
    assert ForkBoard()[6 := X] == bc;
    assert bc[5 := O] == bw;
    OpenBoard(bc, 5);
    WonBy(bw, O, 1);
    WinningMove(bc, 5);
  }

  /** X answers the fork on cell 7 and O completes the middle row. */
  lemma ForkReply7()
    ensures MoveValue(ForkBoard(), false, 7) == 1
  {
    var bc: Board := [X, X, O, O, O, Empty, Empty, X, Empty];
    var bw: Board := [X, X, O, O, O, O, Empty, X, Empty];
    assert ForkBoard()[7 := X] == bc;
    assert bc[5 := O] == bw;
    OpenBoard(bc, 5);
    WonBy(bw, O, 1);
    WinningMove(bc, 5);
  }

  /** X answers the fork on cell 8 and O completes the middle row. */
  lemma ForkReply8()
    ensures MoveValue(ForkBoard(), false, 8) == 1
  {
    var bc: Board := [X, X, O, O, O, Empty, Empty, Empty, X];
    var bw: Board := [X, X, O, O, O, O, Empty, Empty, X];
    assert ForkBoard()[8 := X] == bc;
    assert bc[5 := O] == bw;
    OpenBoard(bc, 5);
    WonBy(bw, O, 1);
    WinningMove(bc, 5);
  }

  /** X X _ / O O _ / _ _ _ with O to move. */
  function TwoWinsBoard(): Board {
    [X, X, Empty, O, O, Empty, Empty, Empty, Empty]
  }

  /** Cell 5 completes O's middle row at once. */
  lemma ImmediateWinAtFive()
    ensures MoveValue(TwoWinsBoard(), true, 5) == 1
  {
    var bd: Board := [X, X, Empty, O, O, Empty, Empty, Empty, Empty];
    var bw: Board := [X, X, Empty, O, O, O, Empty, Empty, Empty];
    assert TwoWinsBoard() == bd && bd[5 := O] == bw;
    OpenBoard(bd, 2);
    WonBy(bw, O, 1);
    WinningMove(bd, 5);
  }

  /** O on cell 2 of X X _ / O O _ / _ _ _ gives the fork board. */
  lemma ForkAfterTwo()
    ensures Place(TwoWinsBoard(), 2, O) == ForkBoard()
  {
    var b2: Board := [X, X, O, O, O, Empty, Empty, Empty, Empty];
    assert TwoWinsBoard()[2 := O] == b2;
  }

  /** Cell 2 sets up a fork that every reply of X loses to. */
  lemma ForcedWinAtTwo()
    ensures MoveValue(TwoWinsBoard(), true, 2) == 1
  {
    ForkAfterTwo();
    var b2 := ForkBoard();
    OpenBoard(b2, 5);
    MinimaxAttained(b2, false);
    var c :| 0 <= c < 9 && b2[c] == Empty && MoveValue(b2, false, c) == Minimax(b2, false);
    if c == 5 {
      ForkReply5();
    } else if c == 6 {
      ForkReply6();
    } else if c == 7 {
      ForkReply7();
    } else {
      ForkReply8();
    }
  }

  /** Cells 2 and 5 both score +1 for O, and the decision keeps the lower
      one: the lowest best cell is 2 and no other, although 5 wins at
      once. */
  lemma TwoForcedWins()
    ensures forall c :: LowestBest(TwoWinsBoard(), c) <==> c == 2
  {
    var bd := TwoWinsBoard();
    ForcedWinAtTwo();
    assert LowestBest(bd, 2);
    forall c | LowestBest(bd, c)
      ensures c == 2
    {
      LowestBestUnique(bd, c, 2);
    }
  }
}
