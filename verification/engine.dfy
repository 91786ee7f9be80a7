/** The computer player: exhaustive minimax without pruning or depth
    weighting, scored from O's point of view (+1 O wins, -1 X wins, 0 draw),
    the decision that plays the centre on an empty board and otherwise the
    lowest-numbered best cell, and the easy-mode random pick. The search
    sentinels -Infinity and +Infinity are -2 and 2 here. */
module Engine {
  import opened Options
  import opened Boards

  function Max(a: int, b: int): int {
    if a >= b then a else b
  }

  function Min(a: int, b: int): int {
    if a <= b then a else b
  }

  /** The mark placed by the side to move: O maximises, X minimises. */
  function Mover(maximizing: bool): Mark {
    if maximizing then O else X
  }

  /** Minimax value of `bd` with O to move when `maximizing` and X to move
      otherwise: a decided board scores its outcome, a board in play the
      best of its moves for the side to move (see `MinimaxUpper`,
      `MinimaxLower` and `MinimaxAttained`). */
  function Minimax(bd: Board, maximizing: bool): (v: int)
    decreases |Empties(bd)|, 2, 0
    ensures -1 <= v <= 1
    ensures CheckWinner(bd).Won? ==> (v == 1 <==> CheckWinner(bd).winner == O)
    ensures CheckWinner(bd).Won? ==> (v == -1 <==> CheckWinner(bd).winner == X)
    ensures CheckWinner(bd).Drawn? ==> v == 0
  {
    var res := CheckWinner(bd);
    if res.Won? then (if res.winner == X then -1 else 1)
    else if res.Drawn? then 0
    else
      assert Empties(bd) != [];
      Best(bd, maximizing, 0, if maximizing then -2 else 2)
  }

  /** Value of playing the side to move's mark on the empty cell `c`: the
      minimax value of the resulting board with the other side to move. */
  function MoveValue(bd: Board, maximizing: bool, c: Index): (v: int)
    requires bd[c] == Empty
    decreases |Empties(bd)|, 0, 0
    ensures -1 <= v <= 1
  {
    Minimax(Place(bd, c, Mover(maximizing)), !maximizing)
  }

  /** The search loop over `Empties(bd)[k..]`, folding each move's value
      into `acc` with max for O and min for X. Folding in at least one move
      value lands in the score range on the side the fold moves towards. */
  function Best(bd: Board, maximizing: bool, k: nat, acc: int): (v: int)
    requires k <= |Empties(bd)|
    decreases |Empties(bd)|, 1, |Empties(bd)| - k
    ensures maximizing ==> acc <= v
    ensures !maximizing ==> v <= acc
    ensures v == acc || -1 <= v <= 1
    ensures k < |Empties(bd)| ==> if maximizing then -1 <= v else v <= 1
  {
    var e := Empties(bd);
    if k == |e| then acc
    else
      assert e[k] in e;
      var w := MoveValue(bd, maximizing, e[k]);
      Best(bd, maximizing, k + 1, if maximizing then Max(acc, w) else Min(acc, w))
  }

  /** Folding with max bounds every visited move value of O from above. */
  lemma {:induction false} BestBoundsMax(bd: Board, k: nat, acc: int)
    requires k <= |Empties(bd)|
    requires forall j :: 0 <= j < |Empties(bd)| ==> bd[Empties(bd)[j]] == Empty
    decreases |Empties(bd)| - k
    ensures forall j :: k <= j < |Empties(bd)| ==> MoveValue(bd, true, Empties(bd)[j]) <= Best(bd, true, k, acc)
  {
    var e := Empties(bd);
    if k < |e| {
      var acc' := Max(acc, MoveValue(bd, true, e[k]));
      assert Best(bd, true, k, acc) == Best(bd, true, k + 1, acc');
      BestBoundsMax(bd, k + 1, acc');
    }
  }

  /** Folding with min bounds every visited move value of X from below. */
  lemma {:induction false} BestBoundsMin(bd: Board, k: nat, acc: int)
    requires k <= |Empties(bd)|
    requires forall j :: 0 <= j < |Empties(bd)| ==> bd[Empties(bd)[j]] == Empty
    decreases |Empties(bd)| - k
    ensures forall j :: k <= j < |Empties(bd)| ==> Best(bd, false, k, acc) <= MoveValue(bd, false, Empties(bd)[j])
  {
    var e := Empties(bd);
    if k < |e| {
      var acc' := Min(acc, MoveValue(bd, false, e[k]));
      assert Best(bd, false, k, acc) == Best(bd, false, k + 1, acc');
      BestBoundsMin(bd, k + 1, acc');
    }
  }

  /** The fold's result is its starting value or one of the move values it
      visits. */
  lemma {:induction false} BestAttained(bd: Board, maximizing: bool, k: nat, acc: int)
    requires k <= |Empties(bd)|
    requires forall j :: 0 <= j < |Empties(bd)| ==> bd[Empties(bd)[j]] == Empty
    decreases |Empties(bd)| - k
    ensures Best(bd, maximizing, k, acc) == acc
            || exists j :: k <= j < |Empties(bd)| && Best(bd, maximizing, k, acc) == MoveValue(bd, maximizing, Empties(bd)[j])
  {
    var e := Empties(bd);
    if k < |e| {
      var w := MoveValue(bd, maximizing, e[k]);
      var acc' := if maximizing then Max(acc, w) else Min(acc, w);
      assert Best(bd, maximizing, k, acc) == Best(bd, maximizing, k + 1, acc');
      BestAttained(bd, maximizing, k + 1, acc');
    }
  }

  /** On a board in play the minimax value is the fold over all empty
      cells from the sentinel, every one of which is a legal move. */
  lemma MinimaxUnfold(bd: Board, maximizing: bool)
    requires CheckWinner(bd).InPlay?
    ensures Minimax(bd, maximizing) == Best(bd, maximizing, 0, if maximizing then -2 else 2)
    ensures forall j :: 0 <= j < |Empties(bd)| ==> bd[Empties(bd)[j]] == Empty
  {
    var e := Empties(bd);
    assert forall j :: 0 <= j < |e| ==> e[j] in e;
    assert e != [];
  }

  /** On a board in play no empty cell is worth more to O than the minimax
      value. */
  lemma MinimaxUpper(bd: Board)
    requires CheckWinner(bd).InPlay?
    ensures forall c {:trigger MoveValue(bd, true, c)} ::
              0 <= c < 9 && bd[c] == Empty ==> MoveValue(bd, true, c) <= Minimax(bd, true)
  {
    var e := Empties(bd);
    MinimaxUnfold(bd, true);
    BestBoundsMax(bd, 0, -2);
    forall c | 0 <= c < 9 && bd[c] == Empty
      ensures MoveValue(bd, true, c) <= Minimax(bd, true)
    {
      assert c in e;
    }
  }

  /** On a board in play no empty cell is worth less to X than the minimax
      value. */
  lemma MinimaxLower(bd: Board)
    requires CheckWinner(bd).InPlay?
    ensures forall c {:trigger MoveValue(bd, false, c)} ::
              0 <= c < 9 && bd[c] == Empty ==> Minimax(bd, false) <= MoveValue(bd, false, c)
  {
    var e := Empties(bd);
    MinimaxUnfold(bd, false);
    BestBoundsMin(bd, 0, 2);
    forall c | 0 <= c < 9 && bd[c] == Empty
      ensures Minimax(bd, false) <= MoveValue(bd, false, c)
    {
      assert c in e;
    }
  }

  /** On a board in play some empty cell attains the minimax value: the
      fold cannot end on its sentinel, which lies outside the score range. */
  lemma MinimaxAttained(bd: Board, maximizing: bool)
    requires CheckWinner(bd).InPlay?
    ensures exists c {:trigger MoveValue(bd, maximizing, c)} ::
              0 <= c < 9 && bd[c] == Empty && MoveValue(bd, maximizing, c) == Minimax(bd, maximizing)
  {
    var e := Empties(bd);
    var start := if maximizing then -2 else 2;
    MinimaxUnfold(bd, maximizing);
    BestAttained(bd, maximizing, 0, start);
    var j :| 0 <= j < |e| && Best(bd, maximizing, 0, start) == MoveValue(bd, maximizing, e[j]);
    assert e[j] in e;
  }

  /** When O can complete a line at once, the board is worth +1 to O. */
  lemma WinningMove(bd: Board, w: Index)
    requires CheckWinner(bd).InPlay? && bd[w] == Empty
    requires CheckWinner(bd[w := O]).Won? && CheckWinner(bd[w := O]).winner == O
    ensures MoveValue(bd, true, w) == 1
    ensures Minimax(bd, true) == 1
  {
    assert Place(bd, w, O) == bd[w := O];
    MinimaxUpper(bd);
  }

  /** When X can complete a line at once, the board is worth -1 to O. */
  lemma LosingMove(bd: Board, w: Index)
    requires CheckWinner(bd).InPlay? && bd[w] == Empty
    requires CheckWinner(bd[w := X]).Won? && CheckWinner(bd[w := X]).winner == X
    ensures MoveValue(bd, false, w) == -1
    ensures Minimax(bd, false) == -1
  {
    assert Place(bd, w, X) == bd[w := X];
    MinimaxLower(bd);
  }

  /** `c` is an empty cell whose value for O is maximal among all empty
      cells, and strictly greater than that of every lower empty cell. */
  predicate LowestBest(bd: Board, c: Index) {
    && bd[c] == Empty
    && (forall d {:trigger MoveValue(bd, true, d)} :: 0 <= d < 9 && bd[d] == Empty ==> MoveValue(bd, true, d) <= MoveValue(bd, true, c))
    && (forall d {:trigger MoveValue(bd, true, d)} :: 0 <= d < c && bd[d] == Empty ==> MoveValue(bd, true, d) < MoveValue(bd, true, c))
  }

  /** The optimal move for O: the centre on an empty board, nothing on a
      full board, and otherwise the lowest empty cell of maximal value, whose
      value is the minimax value of the board when it is still in play. */
  method MinimaxDecision(bd: Board) returns (move: Option<Index>)
    ensures move.None? <==> Full(bd)
    ensures move.Some? ==> bd[move.value] == Empty
    ensures bd == EmptyBoard() ==> move == Some(4)
    ensures Full(bd) ==> move == None
    ensures bd != EmptyBoard() && !Full(bd) ==> move.Some? && LowestBest(bd, move.value)
    ensures bd != EmptyBoard() && CheckWinner(bd).InPlay? ==>
              move.Some? && bd[move.value] == Empty && MoveValue(bd, true, move.value) == Minimax(bd, true)
  {
    AllEmptyIff(bd);
    if |Empties(bd)| == 9 {
      return Some(4);
    }
    move := ScanBest(bd);
    if move.Some? && CheckWinner(bd).InPlay? {
      LowestBestAttainsMinimax(bd, move.value);
    }
  }

  /** The scores the decision loop computes, one per cell of `e` in order. */
  function MoveValues(bd: Board, e: seq<Index>): (r: seq<int>)
    requires forall j :: 0 <= j < |e| ==> bd[e[j]] == Empty
    ensures |r| == |e|
    ensures forall j :: 0 <= j < |e| ==> r[j] == MoveValue(bd, true, e[j])
  {
    if e == [] then []
    else [MoveValue(bd, true, e[0])] + MoveValues(bd, e[1..])
  }

  /** The decision loop's comparison over a list of scores: starting from
      minus infinity (`None`), a score replaces the best so far only when it
      is strictly greater, so the result is the first position of a maximum
      and nothing for an empty list. */
  method FirstMax(vals: seq<int>) returns (best: Option<nat>)
    ensures best.None? <==> |vals| == 0
    ensures best.Some? ==> best.value < |vals|
    ensures best.Some? ==> forall j :: 0 <= j < |vals| ==> vals[j] <= vals[best.value]
    ensures best.Some? ==> forall j :: 0 <= j < best.value ==> vals[j] < vals[best.value]
  {
    best := None;
    for k := 0 to |vals|
      invariant best.None? <==> k == 0
      invariant best.Some? ==> best.value < k
      invariant best.Some? ==> forall j :: 0 <= j < k ==> vals[j] <= vals[best.value]
      invariant best.Some? ==> forall j :: 0 <= j < best.value ==> vals[j] < vals[best.value]
    {
      if best.None? || vals[k] > vals[best.value] {
        best := Some(k);
      }
    }
  }

  /** The scan over the empty cells in ascending order that keeps a cell
      only when its score beats every earlier one: it finds nothing on a
      full board and otherwise the lowest best cell. */
  method ScanBest(bd: Board) returns (move: Option<Index>)
    ensures move.None? <==> Full(bd)
    ensures move.Some? ==> LowestBest(bd, move.value)
  {
    var avail := Empties(bd);
    assert forall j :: 0 <= j < |avail| ==> avail[j] in avail;
    var vals := MoveValues(bd, avail);
    var best := FirstMax(vals);
    if best.Some? {
      move := Some(avail[best.value]);
      DecisionLowestBest(bd, vals, best.value);
    } else {
      move := None;
    }
  }

  /** Reading back the decision loop for one empty cell `d`: when `best`
      holds the first maximum of the scores in ascending cell order, `d` is
      worth no more than the chosen cell, and less when it is lower. */
  lemma {:induction false} DecisionBoundsCell(bd: Board, vals: seq<int>, best: nat, d: Index)
    requires |vals| == |Empties(bd)| && best < |vals|
    requires forall j :: 0 <= j < |vals| ==> bd[Empties(bd)[j]] == Empty
    requires forall j :: 0 <= j < |vals| ==> vals[j] == MoveValue(bd, true, Empties(bd)[j])
    requires forall j :: 0 <= j < |vals| ==> vals[j] <= vals[best]
    requires forall j :: 0 <= j < best ==> vals[j] < vals[best]
    requires bd[d] == Empty
    ensures MoveValue(bd, true, d) <= MoveValue(bd, true, Empties(bd)[best])
    ensures d < Empties(bd)[best] ==> MoveValue(bd, true, d) < MoveValue(bd, true, Empties(bd)[best])
  {
    var e := Empties(bd);
    assert d in e;
    var j :| 0 <= j < |e| && e[j] == d;
    if d < e[best] {
      assert j < best;
    }
  }

  /** The cell the decision loop keeps is the lowest best cell. */
  lemma {:induction false} DecisionLowestBest(bd: Board, vals: seq<int>, best: nat)
    requires |vals| == |Empties(bd)| && best < |vals|
    requires forall j :: 0 <= j < |vals| ==> bd[Empties(bd)[j]] == Empty
    requires forall j :: 0 <= j < |vals| ==> vals[j] == MoveValue(bd, true, Empties(bd)[j])
    requires forall j :: 0 <= j < |vals| ==> vals[j] <= vals[best]
    requires forall j :: 0 <= j < best ==> vals[j] < vals[best]
    ensures LowestBest(bd, Empties(bd)[best])
  {
    forall d | 0 <= d < 9 && bd[d] == Empty
      ensures MoveValue(bd, true, d) <= MoveValue(bd, true, Empties(bd)[best])
      ensures d < Empties(bd)[best] ==> MoveValue(bd, true, d) < MoveValue(bd, true, Empties(bd)[best])
    {
      DecisionBoundsCell(bd, vals, best, d);
    }
  }

  /** At most one cell is the lowest best cell, so the decision is
      determined by the board. */
  lemma LowestBestUnique(bd: Board, c: Index, c': Index)
    requires LowestBest(bd, c) && LowestBest(bd, c')
    ensures c == c'
  {
    var v, v' := MoveValue(bd, true, c), MoveValue(bd, true, c');
    assert v <= v' && v' <= v;
  }

  /** A lowest best cell of a board in play is worth the board's minimax
      value for O. */
  lemma LowestBestAttainsMinimax(bd: Board, c: Index)
    requires CheckWinner(bd).InPlay?
    requires LowestBest(bd, c)
    ensures MoveValue(bd, true, c) == Minimax(bd, true)
  {
    MinimaxUpper(bd);
    MinimaxAttained(bd, true);
  }

  /** Easy mode: the empty cell at position `k` of the ascending list of
      empty cells, where `k` stands for `Math.floor(Math.random() * n)`;
      nothing when the board is full. */
  function RandomMove(bd: Board, k: nat): (r: Option<Index>)
    requires !Full(bd) ==> k < |Empties(bd)|
    ensures r.None? <==> Full(bd)
    ensures r.Some? ==> bd[r.value] == Empty
  {
    var e := Empties(bd);
    if |e| == 0 then None
    else
      assert e[k] in e;
      Some(e[k])
  }

  /** Each empty cell is picked by exactly one random draw, so a uniform
      draw picks every empty cell with the same probability. */
  lemma RandomMoveUniform(bd: Board, c: Index)
    requires bd[c] == Empty
    ensures exists k :: 0 <= k < |Empties(bd)| && RandomMove(bd, k) == Some(c)
    ensures forall k, k' ::
              (0 <= k < |Empties(bd)| && 0 <= k' < |Empties(bd)|
               && RandomMove(bd, k) == Some(c) && RandomMove(bd, k') == Some(c)) ==> k == k'
  {
    var e := Empties(bd);
    assert c in e;
    var k :| 0 <= k < |e| && e[k] == c;
    assert RandomMove(bd, k) == Some(c);
  }

  /** The search as the browser runs it: each move is written into the
      board, searched, and erased again. The board comes back exactly as it
      went in and the value is that of the pure search. */
  method MinimaxInPlace(a: array<Cell>, maximizing: bool) returns (v: int)
    requires a.Length == 9
    modifies a
    decreases |Empties(a[..])|
    ensures a[..] == old(a[..])
    ensures v == Minimax(a[..], maximizing)
  {
    var bd: Board := a[..];
    var res := CheckWinner(bd);
    if res.Won? {
      return if res.winner == X then -1 else 1;
    }
    if res.Drawn? {
      return 0;
    }
    var avail := Empties(bd);
    var mark := Mover(maximizing);
    v := if maximizing then -2 else 2;
    ghost var start := v;
    for k := 0 to |avail|
      invariant a[..] == bd
      invariant Best(bd, maximizing, k, v) == Best(bd, maximizing, 0, start)
    {
      var i := avail[k];
      assert i in avail;
      a[i] := mark;
      assert a[..] == Place(bd, i, mark);
      var w := MinimaxInPlace(a, !maximizing);
      a[i] := Empty;
      assert a[..] == bd;
      v := if maximizing then Max(v, w) else Min(v, w);
    }
  }
}
