/** The computer's turn: in easy mode a random empty cell, otherwise the
    minimax decision, played for O through the ordinary move operation. */
module Ai {
  import opened Options
  import opened Boards
  import opened Game
  import opened Engine

  /** The AI level selector: `'random'` and every other value, which selects
      the minimax player. */
  datatype Level = RandomLevel | MinimaxLevel

  /** A state that satisfies the invariant and whose game is still running
      has an empty cell: a full board is decided. */
  lemma RunningHasEmpty(s: State)
    requires Inv(s) && !s.isGameOver
    ensures !Full(s.board)
    ensures CheckWinner(s.board).InPlay?
  {
  }

  /** O's automatic move. Nothing happens once the game is over. In easy
      mode `k` stands for the random draw `Math.floor(Math.random() * n)`
      over the `n` empty cells; otherwise the cell is the minimax decision.
      The returned cell, if any, is the one O played. */
  method AiMove(s: State, level: Level, k: nat) returns (t: State, played: Option<Index>)
    requires level.RandomLevel? && !Full(s.board) ==> k < |Empties(s.board)|
    ensures s.isGameOver ==> played.None?
    ensures played.None? ==> t == s
    ensures played.Some? ==> MakeMove(s, played.value, O) == (true, t)
    ensures level.RandomLevel? && !s.isGameOver ==> played == RandomMove(s.board, k)
    ensures level.MinimaxLevel? && played.Some? && s.board == EmptyBoard() ==> played.value == 4
    ensures level.MinimaxLevel? && played.Some? && s.board != EmptyBoard() ==>
              LowestBest(s.board, played.value)
    ensures Inv(s) && !s.isGameOver ==> played.Some? && Inv(t)
    ensures TurnOrder(s) && s.current == O ==> TurnOrder(t)
  {
    if s.isGameOver {
      return s, None;
    }
    if Inv(s) {
      RunningHasEmpty(s);
    }
    var choice: Option<Index>;
    if level.RandomLevel? {
      choice := RandomMove(s.board, k);
    } else {
      choice := MinimaxDecision(s.board);
      if s.board == EmptyBoard() {
        assert s.board[4] == Empty;
      }
    }
    if choice.Some? {
      var r := MakeMove(s, choice.value, O);
      t, played := r.1, choice;
      if Inv(s) {
        MakeMovePreservesInv(s, choice.value, O);
      }
      if TurnOrder(s) && s.current == O {
        MakeMoveKeepsTurnOrder(s, choice.value);
      }
    } else {
      t, played := s, None;
    }
  }
}
