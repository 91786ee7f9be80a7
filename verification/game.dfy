/** The game-state machine: the board, whose turn it is, the game-over flag,
    the move history and the score tallies, with the move, undo and reset
    operations of the browser game. The JavaScript keeps these as module
    globals; here they are one immutable record passed in and returned. */
module Game {
  import opened Boards

  /** Wins of X, wins of O and draws (`scores.X`, `scores.O`, `scores.D`). */
  datatype Scores = Scores(x: nat, o: nat, d: nat)

  /** One history entry `{i, player}`. */
  datatype Move = Move(cell: Index, player: Mark)

  datatype State = State(
    board: Board,
    current: Mark,
    isGameOver: bool,
    history: seq<Move>,
    scores: Scores)

  /** The state at page load: empty board, X to move, no scores. */
  function Initial(): State {
    State(EmptyBoard(), X, false, [], Scores(0, 0, 0))
  }

  function Total(sc: Scores): nat {
    sc.x + sc.o + sc.d
  }

  /** The score update of a finished game: the winner's tally, or the draw
      tally, goes up by one and nothing else changes. */
  function Credit(sc: Scores, res: Outcome): (r: Scores)
    requires !res.InPlay?
    ensures Total(r) == Total(sc) + 1
    ensures r.x >= sc.x && r.o >= sc.o && r.d >= sc.d
    ensures r.x > sc.x <==> res.Won? && res.winner == X
    ensures r.o > sc.o <==> res.Won? && res.winner == O
    ensures r.d > sc.d <==> res.Drawn?
  {
    match res
    case Drawn => sc.(d := sc.d + 1)
    case Won(w, _) => if w == X then sc.(x := sc.x + 1) else sc.(o := sc.o + 1)
  }

  /** Places `player` on cell `i`. The first component says whether the
      move was accepted; a rejected move returns the state unchanged. An
      accepted move that decides the game ends it and credits the result;
      otherwise the turn passes to the opponent of `player`. */
  function MakeMove(s: State, i: Index, player: Mark): (r: (bool, State))
    ensures !r.0 <==> s.isGameOver || s.board[i] != Empty
    ensures !r.0 ==> r.1 == s
    ensures r.0 ==> r.1.board[i] == player
                    && forall c :: 0 <= c < 9 && c != i ==> r.1.board[c] == s.board[c]
    ensures r.0 ==> r.1.history == s.history + [Move(i, player)]
    ensures r.0 ==> (r.1.isGameOver <==> !CheckWinner(r.1.board).InPlay?)
    ensures r.0 && r.1.isGameOver ==>
              r.1.scores == Credit(s.scores, CheckWinner(r.1.board)) && r.1.current == s.current
    ensures r.0 && !r.1.isGameOver ==> r.1.scores == s.scores && r.1.current == Opponent(player)
  {
    if s.isGameOver || s.board[i] != Empty then (false, s)
    else
      var bd := s.board[i := player];
      var h := s.history + [Move(i, player)];
      var res := CheckWinner(bd);
      if res.InPlay? then
        (true, s.(board := bd, history := h, current := Opponent(player)))
      else
        (true, s.(board := bd, history := h, isGameOver := true, scores := Credit(s.scores, res)))
  }

  /** Takes back the last move unless there is none or the game is over:
      that cell becomes empty again and it is the undone move's player's
      turn. */
  function Undo(s: State): (t: State)
    ensures |s.history| == 0 || s.isGameOver ==> t == s
    ensures |s.history| > 0 && !s.isGameOver ==>
              var last := s.history[|s.history| - 1];
              && t.history == s.history[..|s.history| - 1]
              && t.board[last.cell] == Empty
              && (forall c :: 0 <= c < 9 && c != last.cell ==> t.board[c] == s.board[c])
              && !t.isGameOver
              && t.current == last.player
              && t.scores == s.scores
  {
    if |s.history| == 0 || s.isGameOver then s
    else
      var last := s.history[|s.history| - 1];
      s.(board := s.board[last.cell := Empty],
         history := s.history[..|s.history| - 1],
         isGameOver := false,
         current := last.player)
  }

  /** The board obtained by playing `h` in order on an empty board. */
  function Replay(h: seq<Move>): Board {
    if h == [] then EmptyBoard()
    else
      var last := h[|h| - 1];
      Replay(h[..|h| - 1])[last.cell := last.player]
  }

  /** Every move of `h` went onto a cell that was empty at the time. */
  predicate WellPlayed(h: seq<Move>) {
    h == [] || (WellPlayed(h[..|h| - 1]) && Replay(h[..|h| - 1])[h[|h| - 1].cell] == Empty)
  }

  /** The state invariant: the history accounts for every mark on the board
      and rebuilds it, and the game is over exactly when the board is
      decided. */
  predicate Inv(s: State) {
    && |s.history| == FilledCount(s.board)
    && Replay(s.history) == s.board
    && (s.isGameOver <==> !CheckWinner(s.board).InPlay?)
  }

  /** The mark that makes move number `k` when the players alternate from X. */
  function MarkFor(k: nat): Mark {
    if k % 2 == 0 then X else O
  }

  /** The players have alternated from X, and while the game runs it is the
      turn of whoever makes the next move in that order. */
  predicate TurnOrder(s: State) {
    && (forall k :: 0 <= k < |s.history| ==> s.history[k].player == MarkFor(k))
    && (!s.isGameOver ==> s.current == MarkFor(|s.history|))
  }

  /** The reset button: a fresh game that keeps the scores. */
  function Reset(s: State): (t: State)
    ensures t.board == EmptyBoard() && t.history == [] && !t.isGameOver && t.current == X
    ensures t.scores == s.scores
  {
    State(EmptyBoard(), X, false, [], s.scores)
  }

  /** Changing the game mode starts a fresh game exactly as reset does. */
  function ChangeMode(s: State): (t: State)
    ensures t == Reset(s)
  {
    State(EmptyBoard(), X, false, [], s.scores)
  }

  lemma EmptyBoardCount()
    ensures FilledCount(EmptyBoard()) == 0
    ensures CheckWinner(EmptyBoard()).InPlay?
  {
    AllEmptyIff(EmptyBoard());
    assert EmptyBoard()[0] == Empty;
  }

  /** The page-load state is a running game with no scores that keeps the
      invariant and the turn order. */
  lemma InitialInv()
    ensures Inv(Initial()) && TurnOrder(Initial())
    ensures !Initial().isGameOver && Total(Initial().scores) == 0
  {
    EmptyBoardCount();
  }

  /** Reset starts a game that satisfies the invariant, whatever state it is
      applied to. */
  lemma ResetInv(s: State)
    ensures Inv(Reset(s))
  {
    EmptyBoardCount();
  }

  /** Reset restarts the alternation with X to move. */
  lemma ResetTurnOrder(s: State)
    ensures TurnOrder(Reset(s))
  {
  }

  /** Replaying never marks more cells than there are moves, and marks
      exactly one per move precisely when every move went onto an empty
      cell. */
  lemma {:induction false} ReplayCount(h: seq<Move>)
    ensures FilledCount(Replay(h)) <= |h|
    ensures FilledCount(Replay(h)) == |h| <==> WellPlayed(h)
  {
    if h == [] {
      EmptyBoardCount();
    } else {
      var prev := h[..|h| - 1];
      var last := h[|h| - 1];
      ReplayCount(prev);
      if Replay(prev)[last.cell] == Empty {
        FillCount(Replay(prev), last.cell, last.player);
      } else {
        OverwriteCount(Replay(prev), last.cell, last.player);
      }
    }
  }

  /** An accepted move keeps the invariant. */
  lemma MakeMovePreservesInv(s: State, i: Index, player: Mark)
    requires Inv(s)
    ensures Inv(MakeMove(s, i, player).1)
  {
    var r := MakeMove(s, i, player);
    if r.0 {
      var h := r.1.history;
      assert h[..|h| - 1] == s.history;
      FillCount(s.board, i, player);
    }
  }

  /** Undo keeps the invariant: the popped move was the last to fill its
      cell, so emptying it gives back the replay of the shorter history, and
      a board still in play stays in play when a mark is removed. */
  lemma UndoPreservesInv(s: State)
    requires Inv(s)
    ensures Inv(Undo(s))
  {
    if |s.history| > 0 && !s.isGameOver {
      var h := s.history;
      var prev := h[..|h| - 1];
      var last := h[|h| - 1];
      ReplayCount(h);
      ReplayCount(prev);
      assert Replay(prev)[last.cell] == Empty;
      assert s.board[last.cell := Empty] == Replay(prev);
      ClearKeepsInPlay(s.board, last.cell);
    }
  }

  /** Undoing a move that did not end the game gives back the state before
      it, with the turn handed to the player of the undone move. */
  lemma UndoAfterMove(s: State, i: Index, player: Mark)
    requires MakeMove(s, i, player).0
    requires !MakeMove(s, i, player).1.isGameOver
    ensures Undo(MakeMove(s, i, player).1) == s.(current := player)
  {
    var t := MakeMove(s, i, player).1;
    assert t.history[..|t.history| - 1] == s.history;
    assert t.board[i := Empty] == s.board;
  }

  /** Undo is the inverse of a move by the player to move that did not end
      the game. */
  lemma UndoInverse(s: State, i: Index)
    requires MakeMove(s, i, s.current).0
    requires !MakeMove(s, i, s.current).1.isGameOver
    ensures Undo(MakeMove(s, i, s.current).1) == s
  {
    UndoAfterMove(s, i, s.current);
  }

  /** Repeating an accepted move on the same cell is rejected and changes
      nothing, whoever plays it. */
  lemma SecondMoveRejected(s: State, i: Index, p: Mark, q: Mark)
    requires MakeMove(s, i, p).0
    ensures MakeMove(MakeMove(s, i, p).1, i, q) == (false, MakeMove(s, i, p).1)
  {
  }

  /** A move by the player whose turn it is keeps the alternation. */
  lemma MakeMoveKeepsTurnOrder(s: State, i: Index)
    requires TurnOrder(s)
    ensures TurnOrder(MakeMove(s, i, s.current).1)
  {
    var r := MakeMove(s, i, s.current);
    if r.0 {
      var n := |s.history|;
      MarkForNext(n);
      assert forall k :: 0 <= k < n ==> r.1.history[k] == s.history[k];
      assert r.1.history[n] == Move(i, s.current);
    }
  }

  /** The alternation hands each move to the opponent of the one before. */
  lemma MarkForNext(n: nat)
    ensures MarkFor(n + 1) == Opponent(MarkFor(n))
  {
  }

  /** Undo keeps the alternation: handing the turn to the undone move's
      player is handing it back to whoever was to move before that move. */
  lemma UndoKeepsTurnOrder(s: State)
    requires TurnOrder(s)
    ensures TurnOrder(Undo(s))
  {
  }

  /** An accepted move by O while it is X's turn, such as a computer move
      whose timer outlived an undo, reset or mode change, breaks the
      alternation; undoing it then hands the turn to O although X was to
      move before it. */
  lemma OutOfTurnBreaksOrder(s: State, c: Index)
    requires TurnOrder(s) && !s.isGameOver && s.current == X
    requires MakeMove(s, c, O).0
    ensures !TurnOrder(MakeMove(s, c, O).1)
    ensures !MakeMove(s, c, O).1.isGameOver ==> Undo(MakeMove(s, c, O).1) == s.(current := O)
  {
    var t := MakeMove(s, c, O).1;
    var n := |s.history|;
    assert t.history[n] == Move(c, O);
    assert MarkFor(n) == X;
    if !t.isGameOver {
      UndoAfterMove(s, c, O);
    }
  }
}
