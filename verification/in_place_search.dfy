/** The search as the production engine runs it: one working array that each
    branch fills, searches and empties again. Each method is proved to leave
    the array as it found it and to compute exactly the value of the pure
    model in GameManager. */
module InPlaceSearch {
  import opened Board
  import opened GameManager

  /** Minimax on a shared working array: place a mark, recurse, restore the cell. */
  method MinimaxInPlace(a: array<Cell>, side: nat, depth: int, maximizing: bool) returns (score: int)
    requires IsSquare(a[..], side)
    modifies a
    ensures a[..] == old(a[..])
    ensures score == Minimax(old(a[..]), side, depth, maximizing)
    decreases CountEmpty(a[..], 0), 2
  {
    var state := Evaluate(a[..], side);
    if state.gameOver {
      return TerminalScore(state.winner, depth);
    }
    MinimaxUnfold(a[..], side, depth, maximizing);
    score := SearchChildren(a, side, depth, maximizing, EmptyCells(a[..]));
  }

  /** The loop over the empty cells, keeping the running best; `None` is the infinite seed. */
  method SearchChildren(a: array<Cell>, side: nat, depth: int, maximizing: bool, cells: seq<nat>)
    returns (score: int)
    requires IsSquare(a[..], side) && |cells| > 0
    requires forall j :: 0 <= j < |cells| ==> cells[j] < a.Length && a[cells[j]] == Empty
    modifies a
    ensures a[..] == old(a[..])
    ensures score == BestChild(old(a[..]), side, depth, maximizing, cells, 0, None)
    decreases CountEmpty(a[..], 0), 1
  {
    ghost var start := a[..];
    var best: Option<int> := None;
    var k := 0;
    while k < |cells|
      invariant k <= |cells|
      invariant a[..] == start
      invariant best.None? <==> k == 0
      invariant best.Some? ==> ScoreInRange(best.value, depth + 1, depth + CountEmpty(start, 0))
      invariant BestChild(start, side, depth, maximizing, cells, k, best)
                == BestChild(start, side, depth, maximizing, cells, 0, None)
    {
      BestChildStep(start, side, depth, maximizing, cells, k, best);
      var s := SearchChild(a, side, depth, maximizing, cells[k]);
      assert ScoreInRange(s, depth + 1, depth + CountEmpty(start, 0));
      best := Some(Combine(maximizing, best, s));
      k := k + 1;
    }
    score := best.value;
  }

  /** One branch of the search: fill cell `i` for the side to move, search
      the child, and empty the cell again. */
  method SearchChild(a: array<Cell>, side: nat, depth: int, maximizing: bool, i: nat) returns (s: int)
    requires IsSquare(a[..], side) && i < a.Length && a[i] == Empty
    modifies a
    ensures a[..] == old(a[..])
    ensures s == Minimax(old(a[..])[i := MarkFor(maximizing)], side, depth + 1, !maximizing)
    decreases CountEmpty(a[..], 0), 0
  {
    ghost var start := a[..];
    a[i] := MarkFor(maximizing);
    assert a[..] == start[i := MarkFor(maximizing)];
    PlaceShrinksEmpty(start, i, MarkFor(maximizing));
    s := MinimaxInPlace(a, side, depth + 1, !maximizing);
    a[i] := Empty;
    assert a[..] == start;
  }

  /** The move selector on a working array: a random empty cell when the
      roll exceeds the precision, the optimal cell otherwise. */
  method CalcNextMoveInPlace(a: array<Cell>, side: nat, level: string, roll: int, pick: nat)
    returns (move: Option<nat>)
    requires IsSquare(a[..], side) && 0 <= roll <= 100
    requires |EmptyCells(a[..])| > 0 ==> pick < |EmptyCells(a[..])|
    modifies a
    ensures a[..] == old(a[..])
    ensures move == NextMove(old(a[..]), side, level, roll, pick)
  {
    var cells := EmptyCells(a[..]);
    var precision := Precision(level);
    if roll > precision && |cells| > 0 {
      return Some(cells[pick]);
    }
    move := BestMoveInPlace(a, side);
  }

  /** Score of O taking the empty cell `i`: fill, search with X to move, empty again. */
  method ScoreMoveInPlace(a: array<Cell>, side: nat, i: nat) returns (score: int)
    requires IsSquare(a[..], side) && i < a.Length && a[i] == Empty
    modifies a
    ensures a[..] == old(a[..])
    ensures score == MoveScore(old(a[..]), side, i)
  {
    ghost var start := a[..];
    a[i] := Mark(PO);
    assert a[..] == start[i := Mark(PO)];
    score := MinimaxInPlace(a, side, 0, false);
    a[i] := Empty;
    assert a[..] == start;
  }

  /** The optimal branch: the first empty cell with the strictly greatest score. */
  method BestMoveInPlace(a: array<Cell>, side: nat) returns (move: Option<nat>)
    requires IsSquare(a[..], side)
    modifies a
    ensures a[..] == old(a[..])
    ensures move == BestMove(old(a[..]), side)
  {
    var cells := EmptyCells(a[..]);
    var best := ScanCellsInPlace(a, side, cells, MoveScores(a[..], side, cells));
    move := if best.None? then None else Some(cells[best.value.0]);
  }

  /** The scan over `cells`, replacing the best only on a strictly greater
      score. The best so far is kept as its position in `cells` with its
      score; `None` stands for the -Infinity seed. */
  method ScanCellsInPlace(a: array<Cell>, side: nat, cells: seq<nat>, ghost scores: seq<int>)
    returns (best: Option<(nat, int)>)
    requires IsSquare(a[..], side) && |scores| == |cells|
    requires forall j :: 0 <= j < |cells| ==> cells[j] < a.Length && a[cells[j]] == Empty
    requires forall j {:trigger MoveScore(a[..], side, cells[j])} ::
               0 <= j < |cells| ==> scores[j] == MoveScore(a[..], side, cells[j])
    modifies a
    ensures a[..] == old(a[..])
    ensures (if best.None? then None else Some(best.value.0)) == ScanBest(scores, 0, None)
  {
    ghost var start := a[..];
    best := None;
    var k := 0;
    while k < |cells|
      invariant k <= |cells|
      invariant a[..] == start
      invariant ScanInvariant(scores, k, best)
      invariant ScanBest(scores, k, best) == ScanBest(scores, 0, None)
    {
      var s := ScoreMoveInPlace(a, side, cells[k]);
      assert s == scores[k];
      if best.None? || s > best.value.1 {
        best := Some((k, s));
      }
      k := k + 1;
    }
  }

  /** The make-move handler: copy the request board, let the selector search
      on the copy, then write O into the chosen cell. */
  method MakeMoveOnCopy(board: Grid, side: nat, level: string, roll: int, pick: nat)
    returns (resp: MoveResponse)
    requires IsSquare(board, side) && 0 <= roll <= 100
    requires |EmptyCells(board)| > 0 ==> pick < |EmptyCells(board)|
    ensures resp == MakeMove(board, side, level, roll, pick)
  {
    var state := Evaluate(board, side);
    if state.gameOver {
      return MoveResponse(state, board, None);
    }
    var next := new Cell[|board|](i requires 0 <= i < |board| => board[i]);
    assert next[..] == board;
    var move := CalcNextMoveInPlace(next, side, level, roll, pick);
    if move.Some? {
      next[move.value] := Mark(PO);
    }
    resp := MoveResponse(Evaluate(next[..], side), next[..], move);
  }
}
