/** The 3x3 board, its eight winning lines and the winner check.

    Cells are numbered 0..8 row-major. A JavaScript cell holding `null` is
    `Empty` here; `'X'` and `'O'` are the two marks. */
module Boards {
  import opened Options

  datatype Cell = Empty | X | O

  /** A player's mark: a cell value other than `Empty`. */
  type Mark = c: Cell | c != Empty witness X

  type Index = i: int | 0 <= i < 9

  type Board = b: seq<Cell> | |b| == 9
    witness [Empty, Empty, Empty, Empty, Empty, Empty, Empty, Empty, Empty]

  /** The board at the start of every game. */
  function EmptyBoard(): (r: Board)
    ensures forall c :: 0 <= c < 9 ==> r[c] == Empty
  {
    seq(9, _ => Empty)
  }

  function Opponent(m: Mark): (r: Mark)
    ensures r != m
  {
    if m == X then O else X
  }

  /** An index triple of the board. */
  datatype Line = Line(a: Index, b: Index, c: Index)

  /** The winning lines in the order they are scanned: three rows, three
      columns, then the two diagonals. */
  const WinLines: seq<Line> := [
    Line(0, 1, 2), Line(3, 4, 5), Line(6, 7, 8),
    Line(0, 3, 6), Line(1, 4, 7), Line(2, 5, 8),
    Line(0, 4, 8), Line(2, 4, 6)
  ]

  /** All three cells of `l` hold the same mark. */
  predicate Uniform(bd: Board, l: Line) {
    bd[l.a] != Empty && bd[l.a] == bd[l.b] && bd[l.a] == bd[l.c]
  }

  /** Line number `k` is uniform and no earlier line is. */
  predicate FirstUniformAt(bd: Board, k: nat)
    requires k < |WinLines|
  {
    Uniform(bd, WinLines[k]) && forall j :: 0 <= j < k ==> !Uniform(bd, WinLines[j])
  }

  predicate HasWinLine(bd: Board) {
    exists k :: 0 <= k < |WinLines| && Uniform(bd, WinLines[k])
  }

  predicate Full(bd: Board) {
    forall i :: 0 <= i < 9 ==> bd[i] != Empty
  }

  /** The empty cells below `n`, in ascending order. */
  function EmptiesBelow(bd: Board, n: nat): (r: seq<Index>)
    requires n <= 9
    ensures |r| <= n
    ensures forall c {:trigger c in r} :: c in r <==> 0 <= c < n && bd[c] == Empty
    ensures forall p, q :: 0 <= p < q < |r| ==> r[p] < r[q]
    ensures |r| == 0 <==> forall c :: 0 <= c < n ==> bd[c] != Empty
  {
    if n == 0 then []
    else
      var below := EmptiesBelow(bd, n - 1);
      assert forall p :: 0 <= p < |below| ==> below[p] in below;
      below + (if bd[n - 1] == Empty then [n - 1] else [])
  }

  /** The empty cells of the board in ascending order: the `avail` list of
      the decision code. */
  function Empties(bd: Board): (r: seq<Index>)
    ensures forall c {:trigger c in r} :: c in r <==> 0 <= c < 9 && bd[c] == Empty
    ensures forall p, q :: 0 <= p < q < |r| ==> r[p] < r[q]
    ensures |r| == 0 <==> Full(bd)
  {
    EmptiesBelow(bd, 9)
  }

  /** Number of marks on the board. */
  function FilledCount(bd: Board): nat {
    9 - |Empties(bd)|
  }

  /** Writing `c` into cell `i` changes the number of empty cells below `n`
      by what leaves and what enters that cell. */
  lemma {:induction false} EmptiesBelowUpdate(bd: Board, i: Index, c: Cell, n: nat)
    requires n <= 9
    ensures |EmptiesBelow(bd[i := c], n)|
         == |EmptiesBelow(bd, n)|
            - (if i < n && bd[i] == Empty then 1 else 0)
            + (if i < n && c == Empty then 1 else 0)
  {
    if n > 0 {
      EmptiesBelowUpdate(bd, i, c, n - 1);
    }
  }

  /** Every cell below `n` is empty exactly when all `n` of them are listed. */
  lemma {:induction false} AllEmptyBelowIff(bd: Board, n: nat)
    requires n <= 9
    ensures |EmptiesBelow(bd, n)| == n <==> forall c :: 0 <= c < n ==> bd[c] == Empty
  {
    if n > 0 {
      AllEmptyBelowIff(bd, n - 1);
    }
  }

  /** Nine empty cells means the empty board. */
  lemma AllEmptyIff(bd: Board)
    ensures |Empties(bd)| == 9 <==> bd == EmptyBoard()
  {
    AllEmptyBelowIff(bd, 9);
    if |Empties(bd)| == 9 {
      assert forall c :: 0 <= c < 9 ==> bd[c] == Empty;
      assert forall c :: 0 <= c < 9 ==> EmptyBoard()[c] == Empty;
      assert bd == EmptyBoard();
    }
  }

  /** Marking an empty cell fills exactly one cell. */
  lemma FillCount(bd: Board, i: Index, m: Mark)
    requires bd[i] == Empty
    ensures FilledCount(bd[i := m]) == FilledCount(bd) + 1
  {
    EmptiesBelowUpdate(bd, i, m, 9);
  }

  /** Overwriting an occupied cell with a mark leaves the count alone. */
  lemma OverwriteCount(bd: Board, i: Index, m: Mark)
    requires bd[i] != Empty
    ensures FilledCount(bd[i := m]) == FilledCount(bd)
  {
    EmptiesBelowUpdate(bd, i, m, 9);
  }

  /** Clearing an occupied cell empties exactly one cell. */
  lemma ClearCount(bd: Board, i: Index)
    requires bd[i] != Empty
    ensures FilledCount(bd[i := Empty]) == FilledCount(bd) - 1
  {
    EmptiesBelowUpdate(bd, i, Empty, 9);
  }

  /** The board with mark `m` placed on the empty cell `i`: one empty cell
      fewer, which is what makes the search terminate. */
  function Place(bd: Board, i: Index, m: Mark): (r: Board)
    requires bd[i] == Empty
    ensures r[i] == m
    ensures forall c :: 0 <= c < 9 && c != i ==> r[c] == bd[c]
    ensures |Empties(r)| == |Empties(bd)| - 1
  {
    EmptiesBelowUpdate(bd, i, m, 9);
    bd[i := m]
  }

  /** Scans `WinLines[k..]` for the first uniform line. */
  function FirstWin(bd: Board, k: nat): (r: Option<nat>)
    requires k <= |WinLines|
    decreases |WinLines| - k
    ensures r.Some? ==> k <= r.value < |WinLines| && Uniform(bd, WinLines[r.value])
    ensures r.Some? ==> forall j :: k <= j < r.value ==> !Uniform(bd, WinLines[j])
    ensures r.None? <==> forall j :: k <= j < |WinLines| ==> !Uniform(bd, WinLines[j])
  {
    if k == |WinLines| then None
    else if Uniform(bd, WinLines[k]) then Some(k)
    else FirstWin(bd, k + 1)
  }

  /** What `checkWinner` reports: `InPlay` stands for its `null`. */
  datatype Outcome = InPlay | Won(winner: Mark, line: Line) | Drawn

  /** The winner check: the first uniform line in scan order wins; with no
      uniform line a full board is a draw and any other board is still in
      play. */
  function CheckWinner(bd: Board): (r: Outcome)
    ensures r.Won? <==> HasWinLine(bd)
    ensures r.Won? ==> exists k :: 0 <= k < |WinLines| && FirstUniformAt(bd, k)
                                   && r.line == WinLines[k] && r.winner == bd[WinLines[k].a]
    ensures r.Drawn? <==> !HasWinLine(bd) && Full(bd)
    ensures r.InPlay? <==> !HasWinLine(bd) && !Full(bd)
  {
    match FirstWin(bd, 0)
    case Some(k) =>
      assert FirstUniformAt(bd, k);
      Won(bd[WinLines[k].a], WinLines[k])
    case None =>
      if Full(bd) then Drawn else InPlay
  }

  /** Emptying a cell of a board that is still in play keeps it in play:
      no line can become uniform and the board is no longer full. */
  lemma ClearKeepsInPlay(bd: Board, i: Index)
    requires CheckWinner(bd).InPlay?
    ensures CheckWinner(bd[i := Empty]).InPlay?
  {
    var bd' := bd[i := Empty];
    forall k | 0 <= k < |WinLines|
      ensures !Uniform(bd', WinLines[k])
    {
      assert !Uniform(bd, WinLines[k]);
    }
    assert bd'[i] == Empty;
  }
}
