/** The production game engine: winning-line generation, board evaluation,
    exhaustive minimax search with O maximising and X minimising, the
    difficulty-dampened move selector, and the make-move request handler.
    Boards are immutable values here; the in-place search that mutates and
    restores a working array is modelled in module InPlaceSearch. */
module GameManager {
  import opened Board

  // ---------------------------------------------------------------------
  // Difficulty
  // ---------------------------------------------------------------------

  /** Skill precision of a difficulty level, as a percentage. Any level
      other than "HARD" and "MEDIUM" falls through to the "EASY" value. */
  function Precision(level: string): (p: nat)
    ensures p <= 100
    ensures level == "HARD" ==> p == 92
    ensures level == "MEDIUM" ==> p == 68
    ensures level != "HARD" && level != "MEDIUM" ==> p == 36
  {
    if level == "HARD" then 92
    else if level == "MEDIUM" then 68
    else 36
  }

  // ---------------------------------------------------------------------
  // Empty cells
  // ---------------------------------------------------------------------

  /** The empty indices of `b` from `k` on, in increasing order. */
  function EmptyFrom(b: Grid, k: nat): (r: seq<nat>)
    requires k <= |b|
    ensures forall j :: 0 <= j < |r| ==> k <= r[j] < |b| && b[r[j]] == Empty
    ensures forall i :: k <= i < |b| && b[i] == Empty ==> i in r
    ensures forall j, j' :: 0 <= j < j' < |r| ==> r[j] < r[j']
    ensures |r| == CountEmpty(b, k)
    decreases |b| - k
  {
    if k == |b| then []
    else if b[k] == Empty then [k] + EmptyFrom(b, k + 1)
    else EmptyFrom(b, k + 1)
  }

  /** The indices of the empty cells, strictly increasing and hence without duplicates. */
  function EmptyCells(b: Grid): (r: seq<nat>)
    ensures forall i :: i in r <==> 0 <= i < |b| && b[i] == Empty
    ensures forall j, j' :: 0 <= j < j' < |r| ==> r[j] < r[j']
  {
    EmptyFrom(b, 0)
  }

  /** No empty cells is the same as a full board. */
  lemma NoEmptyCellsIffFull(b: Grid)
    ensures |EmptyCells(b)| == 0 <==> Full(b)
  {
    if !Full(b) {
      var i :| 0 <= i < |b| && b[i] == Empty;
      assert i in EmptyCells(b);
      assert |EmptyCells(b)| > 0;
    } else {
      CountEmptyOfFull(b, 0);
    }
  }

  lemma {:induction false} CountEmptyOfFull(b: Grid, k: nat)
    requires k <= |b| && Full(b)
    ensures CountEmpty(b, k) == 0
    decreases |b| - k
  {
    if k < |b| {
      CountEmptyOfFull(b, k + 1);
    }
  }

  /** Number of empty cells of `b` from `k` on. */
  function CountEmpty(b: Grid, k: nat): nat
    requires k <= |b|
    decreases |b| - k
  {
    if k == |b| then 0
    else (if b[k] == Empty then 1 else 0) + CountEmpty(b, k + 1)
  }

  lemma {:induction false} CountAfterPlace(b: Grid, k: nat, i: nat, c: Cell)
    requires k <= |b| && i < |b| && b[i] == Empty && c != Empty
    ensures CountEmpty(b[i := c], k) == CountEmpty(b, k) - (if k <= i then 1 else 0)
    decreases |b| - k
  {
    if k < |b| {
      CountAfterPlace(b, k + 1, i, c);
    }
  }

  /** Filling an empty cell removes exactly one empty cell; this is the
      measure on which the search terminates. */
  lemma PlaceShrinksEmpty(b: Grid, i: nat, c: Cell)
    requires i < |b| && b[i] == Empty && c != Empty
    ensures CountEmpty(b[i := c], 0) == CountEmpty(b, 0) - 1
    ensures |EmptyCells(b[i := c])| == |EmptyCells(b)| - 1
  {
    CountAfterPlace(b, 0, i, c);
  }

  // ---------------------------------------------------------------------
  // Winning combinations
  // ---------------------------------------------------------------------

  function Row(side: nat, r: nat): seq<nat> {
    seq(side, j requires 0 <= j < side => r * side + j)
  }

  function Column(side: nat, c: nat): seq<nat> {
    seq(side, j requires 0 <= j < side => j * side + c)
  }

  function MainDiagonal(side: nat): seq<nat> {
    seq(side, i requires 0 <= i < side => i * side + i)
  }

  function AntiDiagonal(side: nat): seq<nat> {
    seq(side, i requires 0 <= i < side => i * side + (side - 1 - i))
  }

  /** All winning lines of a board of side `side`, in generation order:
      the rows, then the columns, then the two diagonals. */
  function Combinations(side: nat): seq<seq<nat>> {
    seq(side, r requires 0 <= r < side => Row(side, r))
    + seq(side, c requires 0 <= c < side => Column(side, c))
    + [MainDiagonal(side), AntiDiagonal(side)]
  }

  lemma CellInGrid(side: nat, r: nat, c: nat)
    requires r < side && c < side
    ensures r * side + c < side * side
  {
    assert r * side <= (side - 1) * side;
  }

  /** There are 2S+2 lines, each of S indices, all inside the board. */
  lemma CombinationsShape(side: nat)
    ensures |Combinations(side)| == 2 * side + 2
    ensures forall k :: 0 <= k < |Combinations(side)| ==> |Combinations(side)[k]| == side
    ensures forall k, j :: 0 <= k < |Combinations(side)| && 0 <= j < |Combinations(side)[k]| ==>
              Combinations(side)[k][j] < side * side
  {
    var C := Combinations(side);
    forall k, j | 0 <= k < |C| && 0 <= j < |C[k]|
      ensures C[k][j] < side * side
    {
      if k < side {
        CellInGrid(side, k, j);
      } else if k < 2 * side {
        CellInGrid(side, j, k - side);
      } else if k == 2 * side {
        CellInGrid(side, j, j);
      } else {
        CellInGrid(side, j, side - 1 - j);
      }
    }
  }

  /** The generator as the source writes it: rows, then columns, each built
      by an inner loop, then both diagonals built together. */
  method CalcWinnerCombinations(side: nat) returns (combos: seq<seq<nat>>)
    ensures combos == Combinations(side)
  {
    combos := [];
    var row := 0;
    while row < side
      invariant row <= side
      invariant |combos| == row
      invariant forall r :: 0 <= r < row ==> combos[r] == Row(side, r)
    {
      var rowCombination := RowCombination(side, row);
      combos := combos + [rowCombination];
      row := row + 1;
    }
    var col := 0;
    while col < side
      invariant col <= side
      invariant |combos| == side + col
      invariant forall r :: 0 <= r < side ==> combos[r] == Row(side, r)
      invariant forall c :: 0 <= c < col ==> combos[side + c] == Column(side, c)
    {
      var colCombination := ColumnCombination(side, col);
      combos := combos + [colCombination];
      col := col + 1;
    }
    var diagonal1, diagonal2 := Diagonals(side);
    combos := combos + [diagonal1] + [diagonal2];
    assert forall k :: 0 <= k < |combos| ==> combos[k] == Combinations(side)[k];
  }

  method RowCombination(side: nat, row: nat) returns (line: seq<nat>)
    ensures line == Row(side, row)
  {
    line := [];
    var col := 0;
    while col < side
      invariant col <= side
      invariant |line| == col
      invariant forall j :: 0 <= j < col ==> line[j] == row * side + j
    {
      line := line + [row * side + col];
      col := col + 1;
    }
  }

  method ColumnCombination(side: nat, col: nat) returns (line: seq<nat>)
    ensures line == Column(side, col)
  {
    line := [];
    var row := 0;
    while row < side
      invariant row <= side
      invariant |line| == row
      invariant forall j :: 0 <= j < row ==> line[j] == j * side + col
    {
      line := line + [row * side + col];
      row := row + 1;
    }
  }

  method Diagonals(side: nat) returns (diagonal1: seq<nat>, diagonal2: seq<nat>)
    ensures diagonal1 == MainDiagonal(side) && diagonal2 == AntiDiagonal(side)
  {
    diagonal1, diagonal2 := [], [];
    var i := 0;
    while i < side
      invariant i <= side
      invariant |diagonal1| == i && |diagonal2| == i
      invariant forall j :: 0 <= j < i ==> diagonal1[j] == j * side + j
      invariant forall j :: 0 <= j < i ==> diagonal2[j] == j * side + (side - 1 - j)
    {
      diagonal1 := diagonal1 + [i * side + i];
      diagonal2 := diagonal2 + [i * side + (side - 1 - i)];
      i := i + 1;
    }
  }

  // ---------------------------------------------------------------------
  // Evaluation
  // ---------------------------------------------------------------------

  /** Every cell of the line holds the same non-empty mark. */
  predicate LineComplete(b: Grid, line: seq<nat>) {
    |line| > 0
    && (forall j :: 0 <= j < |line| ==> line[j] < |b|)
    && b[line[0]] != Empty
    && forall j :: 0 <= j < |line| ==> b[line[j]] == b[line[0]]
  }

  /** A complete line is a non-empty line inside the board whose cells all
      hold one and the same player's mark. */
  lemma LineCompleteOneMark(b: Grid, line: seq<nat>)
    requires forall j :: 0 <= j < |line| ==> line[j] < |b|
    ensures LineComplete(b, line) <==>
              |line| > 0 && exists p: Player :: forall j :: 0 <= j < |line| ==> b[line[j]] == Mark(p)
  {
    if |line| > 0 && exists p: Player :: forall j :: 0 <= j < |line| ==> b[line[j]] == Mark(p) {
      var p: Player :| forall j :: 0 <= j < |line| ==> b[line[j]] == Mark(p);
      assert b[line[0]] == Mark(p);
    }
    if LineComplete(b, line) {
      var p := b[line[0]].player;
      assert forall j :: 0 <= j < |line| ==> b[line[j]] == Mark(p);
    }
  }

  /** Line `k` is the first complete line of `lines`. */
  predicate FirstCompleteAt(b: Grid, lines: seq<seq<nat>>, k: nat) {
    k < |lines| && LineComplete(b, lines[k])
    && forall j :: 0 <= j < k ==> !LineComplete(b, lines[j])
  }

  /** Some winning line of a board of side `side` is complete. */
  predicate HasCompleteLine(b: Grid, side: nat) {
    exists k :: 0 <= k < |Combinations(side)| && LineComplete(b, Combinations(side)[k])
  }

  /** The position of the first complete line at or after `k`. */
  function FirstComplete(b: Grid, lines: seq<seq<nat>>, k: nat): (r: Option<nat>)
    requires k <= |lines|
    ensures r.Some? ==> k <= r.value < |lines| && LineComplete(b, lines[r.value])
    ensures r.Some? ==> forall j :: k <= j < r.value ==> !LineComplete(b, lines[j])
    ensures r.None? ==> forall j :: k <= j < |lines| ==> !LineComplete(b, lines[j])
    decreases |lines| - k
  {
    if k == |lines| then None
    else if LineComplete(b, lines[k]) then Some(k)
    else FirstComplete(b, lines, k + 1)
  }

  datatype GameState = GameState(gameOver: bool, winner: Winner)

  /** The verdict on a board: the mark of the first complete line in
      generation order wins; a full board with no complete line is a draw. */
  function Evaluate(b: Grid, side: nat): (r: GameState)
    requires IsSquare(b, side)
    ensures r.gameOver <==> r.winner != Nobody
  {
    var lines := Combinations(side);
    var first := FirstComplete(b, lines, 0);
    var winner := if first.Some? then Wins(b[lines[first.value][0]].player) else Nobody;
    if winner == Nobody && Full(b) then GameState(true, Draw)
    else GameState(winner != Nobody, winner)
  }

  /** What the verdict means: a player wins exactly when some line is
      complete, and then it is the mark of the first complete line; a draw
      is a full board without a complete line; otherwise the game goes on. */
  lemma EvaluateSpec(b: Grid, side: nat)
    requires IsSquare(b, side)
    ensures Evaluate(b, side).winner.Wins? <==> HasCompleteLine(b, side)
    ensures Evaluate(b, side).winner.Wins? ==>
              exists k: nat :: FirstCompleteAt(b, Combinations(side), k)
                               && b[Combinations(side)[k][0]] == Mark(Evaluate(b, side).winner.player)
    ensures Evaluate(b, side).winner == Draw <==> Full(b) && !HasCompleteLine(b, side)
    ensures Evaluate(b, side).winner == Nobody <==> !Full(b) && !HasCompleteLine(b, side)
  {
  }

  /** A board whose game is not over still has an empty cell. */
  lemma NotOverHasEmptyCell(b: Grid, side: nat)
    requires IsSquare(b, side)
    ensures !Evaluate(b, side).gameOver ==> |EmptyCells(b)| > 0
  {
    EvaluateSpec(b, side);
    NoEmptyCellsIffFull(b);
  }

  /** A complete line decides the winner whenever no line of the other
      mark is complete as well. */
  lemma CompleteLineDecides(b: Grid, side: nat, k: nat, p: Player)
    requires IsSquare(b, side)
    requires k < |Combinations(side)| && LineComplete(b, Combinations(side)[k])
    requires b[Combinations(side)[k][0]] == Mark(p)
    requires forall j :: 0 <= j < |Combinations(side)| && LineComplete(b, Combinations(side)[j]) ==>
               b[Combinations(side)[j][0]] == Mark(p)
    ensures Evaluate(b, side) == GameState(true, Wins(p))
  {
    EvaluateSpec(b, side);
  }

  // ---------------------------------------------------------------------
  // Minimax
  // ---------------------------------------------------------------------

  /** Score of a finished game seen from O: early O wins score high, late X wins score less badly. */
  function TerminalScore(w: Winner, depth: int): (s: int)
    ensures ScoreInRange(s, depth, depth)
    ensures !w.Wins? ==> s == 0
    ensures w.Wins? && depth < 10 ==> (s > 0 <==> w.player == PO)
    ensures w.Wins? && depth < 10 ==> (s < 0 <==> w.player == PX)
    ensures w == Wins(PO) ==> 10 - s == depth
    ensures w == Wins(PX) ==> s + 10 == depth
  {
    match w
    case Wins(PO) => 10 - depth
    case Wins(PX) => depth - 10
    case _ => 0
  }

  /** A score is 0 (a draw) or the score of an O win or an X win reached at a depth in [lo, hi]. */
  predicate ScoreInRange(score: int, lo: int, hi: int) {
    score == 0 || lo <= 10 - score <= hi || lo <= score + 10 <= hi
  }

  /** The mark placed by the side to move. */
  function MarkFor(maximizing: bool): Cell {
    if maximizing then Mark(PO) else Mark(PX)
  }

  /** Minimax value of `b` with `depth` moves already searched; O maximises. */
  function Minimax(b: Grid, side: nat, depth: int, maximizing: bool): (score: int)
    requires IsSquare(b, side)
    ensures ScoreInRange(score, depth, depth + CountEmpty(b, 0))
    decreases CountEmpty(b, 0), 2, 0
  {
    var state := Evaluate(b, side);
    if state.gameOver then TerminalScore(state.winner, depth)
    else
      NotOverHasEmptyCell(b, side);
      BestChild(b, side, depth, maximizing, EmptyCells(b), 0, None)
  }

  /** Score of the child reached by the side to move filling cell `i`. */
  function ChildScore(b: Grid, side: nat, depth: int, maximizing: bool, i: nat): (score: int)
    requires IsSquare(b, side) && i < |b| && b[i] == Empty
    ensures ScoreInRange(score, depth + 1, depth + CountEmpty(b, 0))
    decreases CountEmpty(b, 0), 0, 0
  {
    PlaceShrinksEmpty(b, i, MarkFor(maximizing));
    Minimax(b[i := MarkFor(maximizing)], side, depth + 1, !maximizing)
  }

  /** One step of the running maximum (or minimum); `None` is the infinite seed. */
  function Combine(maximizing: bool, best: Option<int>, score: int): (r: int)
    ensures r == score || (best.Some? && r == best.value)
    ensures Dominates(maximizing, r, score)
    ensures best.Some? ==> Dominates(maximizing, r, best.value)
  {
    match best
    case None => score
    case Some(s) => if maximizing then (if s < score then score else s)
                    else (if score < s then score else s)
  }

  /** The running best over the children of `cells[k..]`, folded left to right from `best`. */
  function BestChild(b: Grid, side: nat, depth: int, maximizing: bool,
                     cells: seq<nat>, k: nat, best: Option<int>): (score: int)
    requires IsSquare(b, side) && k <= |cells|
    requires forall j :: 0 <= j < |cells| ==> cells[j] < |b| && b[cells[j]] == Empty
    requires best.None? ==> k < |cells|
    requires best.Some? ==> ScoreInRange(best.value, depth + 1, depth + CountEmpty(b, 0))
    ensures ScoreInRange(score, depth + 1, depth + CountEmpty(b, 0))
    decreases CountEmpty(b, 0), 1, |cells| - k
  {
    if k == |cells| then best.value
    else
      var s := ChildScore(b, side, depth, maximizing, cells[k]);
      BestChild(b, side, depth, maximizing, cells, k + 1, Some(Combine(maximizing, best, s)))
  }

  /** On a board that is not over, Minimax is the fold over its empty cells. */
  lemma MinimaxUnfold(b: Grid, side: nat, depth: int, maximizing: bool)
    requires IsSquare(b, side) && !Evaluate(b, side).gameOver
    ensures |EmptyCells(b)| > 0
    ensures Minimax(b, side, depth, maximizing) == BestChild(b, side, depth, maximizing, EmptyCells(b), 0, None)
  {
    NotOverHasEmptyCell(b, side);
  }

  /** One step of the fold: the child at `cells[k]` is combined into the best so far. */
  lemma BestChildStep(b: Grid, side: nat, depth: int, maximizing: bool,
                      cells: seq<nat>, k: nat, best: Option<int>)
    requires IsSquare(b, side) && k < |cells|
    requires forall j :: 0 <= j < |cells| ==> cells[j] < |b| && b[cells[j]] == Empty
    requires best.Some? ==> ScoreInRange(best.value, depth + 1, depth + CountEmpty(b, 0))
    ensures CountEmpty(b[cells[k] := MarkFor(maximizing)], 0) == CountEmpty(b, 0) - 1
    ensures BestChild(b, side, depth, maximizing, cells, k, best)
            == BestChild(b, side, depth, maximizing, cells, k + 1,
                         Some(Combine(maximizing, best,
                                      Minimax(b[cells[k] := MarkFor(maximizing)], side, depth + 1, !maximizing))))
  {
    PlaceShrinksEmpty(b, cells[k], MarkFor(maximizing));
  }

  /** `r` is at least as good as `s` for the side to move. */
  predicate Dominates(maximizing: bool, r: int, s: int) {
    if maximizing then s <= r else r <= s
  }

  lemma {:induction false} BestChildExtremum(b: Grid, side: nat, depth: int, maximizing: bool,
                                             cells: seq<nat>, k: nat, best: Option<int>)
    requires IsSquare(b, side) && k <= |cells|
    requires forall j :: 0 <= j < |cells| ==> cells[j] < |b| && b[cells[j]] == Empty
    requires best.None? ==> k < |cells|
    requires best.Some? ==> ScoreInRange(best.value, depth + 1, depth + CountEmpty(b, 0))
    ensures var r := BestChild(b, side, depth, maximizing, cells, k, best);
            (best.Some? && r == best.value)
            || exists j :: k <= j < |cells| && r == ChildScore(b, side, depth, maximizing, cells[j])
    ensures best.Some? ==> Dominates(maximizing, BestChild(b, side, depth, maximizing, cells, k, best), best.value)
    ensures forall j :: k <= j < |cells| ==>
              Dominates(maximizing, BestChild(b, side, depth, maximizing, cells, k, best),
                        ChildScore(b, side, depth, maximizing, cells[j]))
    decreases |cells| - k
  {
    if k < |cells| {
      var s := ChildScore(b, side, depth, maximizing, cells[k]);
      var next := Some(Combine(maximizing, best, s));
      BestChildExtremum(b, side, depth, maximizing, cells, k + 1, next);
      var r := BestChild(b, side, depth, maximizing, cells, k, best);
      assert r == BestChild(b, side, depth, maximizing, cells, k + 1, next);
      assert Dominates(maximizing, next.value, s);
      assert best.Some? ==> Dominates(maximizing, next.value, best.value);
      assert next.value == s || (best.Some? && next.value == best.value);
    }
  }

  /** Minimax scores a finished board by its outcome; otherwise its value is
      the child value that is best for the side to move: attained by some
      empty cell and at least as good as every other empty cell. */
  lemma MinimaxSpec(b: Grid, side: nat, depth: int, maximizing: bool)
    requires IsSquare(b, side)
    ensures Evaluate(b, side).gameOver ==>
              Minimax(b, side, depth, maximizing) == TerminalScore(Evaluate(b, side).winner, depth)
    ensures !Evaluate(b, side).gameOver ==>
              exists i :: 0 <= i < |b| && b[i] == Empty
                          && Minimax(b, side, depth, maximizing) == ChildScore(b, side, depth, maximizing, i)
    ensures !Evaluate(b, side).gameOver ==>
              forall i :: 0 <= i < |b| && b[i] == Empty ==>
                Dominates(maximizing, Minimax(b, side, depth, maximizing), ChildScore(b, side, depth, maximizing, i))
  {
    if !Evaluate(b, side).gameOver {
      var cells := EmptyCells(b);
      NotOverHasEmptyCell(b, side);
      BestChildExtremum(b, side, depth, maximizing, cells, 0, None);
      var j :| 0 <= j < |cells| && Minimax(b, side, depth, maximizing) == ChildScore(b, side, depth, maximizing, cells[j]);
      assert cells[j] in cells;
      forall i | 0 <= i < |b| && b[i] == Empty
        ensures Dominates(maximizing, Minimax(b, side, depth, maximizing), ChildScore(b, side, depth, maximizing, i))
      {
        assert i in cells;
        var j' :| 0 <= j' < |cells| && cells[j'] == i;
      }
    }
  }

  // ---------------------------------------------------------------------
  // Move selection
  // ---------------------------------------------------------------------

  /** The search score of O playing cell `i`, with X to move next. */
  function MoveScore(b: Grid, side: nat, i: nat): (s: int)
    requires IsSquare(b, side) && i < |b|
    ensures ScoreInRange(s, 0, |b|)
    ensures Evaluate(b[i := Mark(PO)], side).winner == Wins(PO) ==> s == 10
  {
    CountEmptyBound(b[i := Mark(PO)], 0);
    Minimax(b[i := Mark(PO)], side, 0, false)
  }

  /** The move scores of `cells`, in order. */
  function MoveScores(b: Grid, side: nat, cells: seq<nat>): seq<int>
    requires IsSquare(b, side)
    requires forall j :: 0 <= j < |cells| ==> cells[j] < |b|
  {
    seq(|cells|, j requires 0 <= j < |cells| => MoveScore(b, side, cells[j]))
  }

  /** Position `p` holds the first strictly greatest of `scores[..n]`. */
  predicate IsFirstMax(scores: seq<int>, p: nat, n: nat)
    requires n <= |scores|
  {
    p < n
    && (forall j :: 0 <= j < n ==> scores[j] <= scores[p])
    && (forall j :: 0 <= j < p ==> scores[j] < scores[p])
  }

  /** What the scan knows after `k` candidates: nothing yet (the -Infinity
      seed) when `k` is 0, otherwise the position and score of the first
      strictly greatest of `scores[..k]`. */
  predicate ScanInvariant(scores: seq<int>, k: nat, best: Option<(nat, int)>) {
    k <= |scores|
    && (best.None? <==> k == 0)
    && (best.Some? ==> IsFirstMax(scores, best.value.0, k) && best.value.1 == scores[best.value.0])
  }

  /** One candidate of the scan: it replaces the best so far only when its
      score is strictly greater. */
  function ScanStep(scores: seq<int>, k: nat, best: Option<(nat, int)>): (next: Option<(nat, int)>)
    requires k < |scores| && ScanInvariant(scores, k, best)
    ensures ScanInvariant(scores, k + 1, next)
  {
    if best.None? || scores[k] > best.value.1 then Some((k, scores[k])) else best
  }

  /** The scan over all candidate scores, left to right. */
  function ScanBest(scores: seq<int>, k: nat, best: Option<(nat, int)>): (r: Option<nat>)
    requires ScanInvariant(scores, k, best)
    ensures r.None? <==> |scores| == 0
    ensures r.Some? ==> IsFirstMax(scores, r.value, |scores|)
    decreases |scores| - k
  {
    if k == |scores| then (if best.None? then None else Some(best.value.0))
    else ScanBest(scores, k + 1, ScanStep(scores, k, best))
  }

  /** The optimal branch of the selector: the empty cell with the first
      strictly greatest move score, or `None` on a full board. */
  function BestMove(b: Grid, side: nat): (r: Option<nat>)
    requires IsSquare(b, side)
    ensures r.None? <==> |EmptyCells(b)| == 0
    ensures r.Some? ==> r.value < |b| && b[r.value] == Empty
    ensures r.Some? ==> exists p: nat :: IsFirstMax(MoveScores(b, side, EmptyCells(b)), p, |EmptyCells(b)|)
                                         && r.value == EmptyCells(b)[p]
  {
    var cells := EmptyCells(b);
    match ScanBest(MoveScores(b, side, cells), 0, None)
    case None => None
    case Some(p) => Some(cells[p])
  }

  /** No empty cell scores higher than the optimal move. */
  lemma BestMoveMaximal(b: Grid, side: nat, i: nat)
    requires IsSquare(b, side) && i < |b| && b[i] == Empty
    ensures BestMove(b, side).Some?
    ensures MoveScore(b, side, i) <= MoveScore(b, side, BestMove(b, side).value)
  {
    var cells := EmptyCells(b);
    assert i in cells;
    var j :| 0 <= j < |cells| && cells[j] == i;
    var scores := MoveScores(b, side, cells);
    var r := BestMove(b, side);
    assert r.Some?;
    var p: nat :| IsFirstMax(scores, p, |cells|) && r.value == cells[p];
    assert scores[j] <= scores[p];
    assert scores[j] == MoveScore(b, side, i);
    assert scores[p] == MoveScore(b, side, r.value);
  }

  /** The computer's move. `roll` is the rounded percentage draw (0..100)
      and `pick` the random position among the empty cells. */
  function NextMove(b: Grid, side: nat, level: string, roll: int, pick: nat): (r: Option<nat>)
    requires IsSquare(b, side) && 0 <= roll <= 100
    requires |EmptyCells(b)| > 0 ==> pick < |EmptyCells(b)|
    ensures r.None? <==> |EmptyCells(b)| == 0
    ensures r.Some? ==> r.value < |b| && b[r.value] == Empty
    ensures roll > Precision(level) && |EmptyCells(b)| > 0 ==> r == Some(EmptyCells(b)[pick])
    ensures roll <= Precision(level) ==> r == BestMove(b, side)
  {
    var cells := EmptyCells(b);
    if roll > Precision(level) && |cells| > 0 then Some(cells[pick])
    else BestMove(b, side)
  }

  /** Raising the difficulty never turns an optimal move into another one:
      whenever a level plays the optimal move, every level with at least its
      precision does too. A roll of at most the EASY precision makes every
      level search. */
  lemma HarderLevelsStayOptimal(b: Grid, side: nat, easier: string, harder: string, roll: int, pick: nat)
    requires IsSquare(b, side) && 0 <= roll <= 100
    requires |EmptyCells(b)| > 0 ==> pick < |EmptyCells(b)|
    requires Precision(easier) <= Precision(harder)
    ensures NextMove(b, side, easier, roll, pick) == BestMove(b, side) ==>
              NextMove(b, side, harder, roll, pick) == BestMove(b, side)
    ensures roll <= Precision("EASY") ==>
              NextMove(b, side, "EASY", roll, pick) == BestMove(b, side)
              && NextMove(b, side, "MEDIUM", roll, pick) == BestMove(b, side)
              && NextMove(b, side, "HARD", roll, pick) == BestMove(b, side)
  {
  }

  lemma {:induction false} CountEmptyBound(b: Grid, k: nat)
    requires k <= |b|
    ensures CountEmpty(b, k) <= |b| - k
    decreases |b| - k
  {
    if k < |b| {
      CountEmptyBound(b, k + 1);
    }
  }

  /** On boards of at most 20 cells, a move that wins on the spot scores 10
      and every other move scores at most 9. */
  lemma MoveScoreOfWin(b: Grid, side: nat, i: nat)
    requires IsSquare(b, side) && |b| <= 20 && i < |b| && b[i] == Empty
    ensures Evaluate(b[i := Mark(PO)], side).winner == Wins(PO) ==> MoveScore(b, side, i) == 10
    ensures Evaluate(b[i := Mark(PO)], side).winner != Wins(PO) ==> MoveScore(b, side, i) <= 9
  {
    var c := b[i := Mark(PO)];
    PlaceShrinksEmpty(b, i, Mark(PO));
    CountEmptyBound(b, 0);
    if !Evaluate(c, side).gameOver {
      NotOverHasEmptyCell(c, side);
      var s := BestChild(c, side, 0, false, EmptyCells(c), 0, None);
      assert ScoreInRange(s, 1, CountEmpty(c, 0));
    }
  }

  /** Playing optimally, the computer takes a cell that wins at once whenever one exists. */
  lemma TakesImmediateWin(b: Grid, side: nat, w: nat)
    requires IsSquare(b, side) && |b| <= 20
    requires w < |b| && b[w] == Empty && Evaluate(b[w := Mark(PO)], side).winner == Wins(PO)
    ensures BestMove(b, side).Some?
    ensures var m := BestMove(b, side).value;
            m < |b| && Evaluate(b[m := Mark(PO)], side).winner == Wins(PO)
  {
    BestMoveMaximal(b, side, w);
    MoveScoreOfWin(b, side, w);
    MoveScoreOfWin(b, side, BestMove(b, side).value);
  }

  // ---------------------------------------------------------------------
  // The make-move request
  // ---------------------------------------------------------------------

  /** Response to a make-move request: the verdict, the board, and the cell O took. */
  datatype MoveResponse = MoveResponse(gameState: GameState, board: Grid, moveIdx: Option<nat>)

  /** A finished board comes back untouched with no move; otherwise O takes
      the selected cell and the new board is evaluated. */
  function MakeMove(b: Grid, side: nat, level: string, roll: int, pick: nat): (resp: MoveResponse)
    requires IsSquare(b, side) && 0 <= roll <= 100
    requires |EmptyCells(b)| > 0 ==> pick < |EmptyCells(b)|
    ensures IsSquare(resp.board, side)
    ensures Evaluate(b, side).gameOver ==>
              resp.board == b && resp.moveIdx == None && resp.gameState == Evaluate(b, side)
    ensures !Evaluate(b, side).gameOver ==>
              resp.moveIdx.Some? && resp.moveIdx.value < |b| && b[resp.moveIdx.value] == Empty
              && resp.board == b[resp.moveIdx.value := Mark(PO)]
              && |EmptyCells(resp.board)| == |EmptyCells(b)| - 1
              && resp.gameState == Evaluate(resp.board, side)
    ensures !Evaluate(b, side).gameOver ==> resp.moveIdx == NextMove(b, side, level, roll, pick)
  {
    var state := Evaluate(b, side);
    if state.gameOver then MoveResponse(state, b, None)
    else
      var move := NextMove(b, side, level, roll, pick);
      var next := if move.Some? then b[move.value := Mark(PO)] else b;
      NotOverHasEmptyCell(b, side);
      match move
      case Some(i) => PlaceShrinksEmpty(b, i, Mark(PO)); MoveResponse(Evaluate(next, side), next, move)
      case None => assert false; MoveResponse(state, b, None)
  }
}
