/** The older mock engine of the in-browser mock server: a fixed 3x3 winner
    check in which the LAST matching line wins and draws carry their own flag,
    and a pair-completion heuristic for the computer's move. */
module MockApi {
  import opened Board

  // ---------------------------------------------------------------------
  // Winner detection
  // ---------------------------------------------------------------------

  /** The eight lines of a 3x3 board, in the order they are checked. */
  const Lines: seq<seq<nat>> :=
    [[0, 1, 2], [3, 4, 5], [6, 7, 8], [0, 3, 6], [1, 4, 7], [2, 5, 8], [0, 4, 8], [2, 4, 6]]

  /** All three cells of line `k` are filled with one mark. */
  predicate LineMatches(board: Grid, k: nat)
    requires |board| == 9 && k < 8
  {
    var line := Lines[k];
    board[line[0]] != Empty && board[line[1]] != Empty && board[line[2]] != Empty
    && board[line[0]] == board[line[1]] && board[line[0]] == board[line[2]]
  }

  /** The cell at the start of line `k`, whose mark a matching line reports. */
  function LineOwner(board: Grid, k: nat): Cell
    requires |board| == 9 && k < 8
  {
    board[Lines[k][0]]
  }

  /** A matching line is one whose three cells hold one and the same player's mark. */
  lemma LineMatchesOneMark(board: Grid, k: nat)
    requires |board| == 9 && k < 8
    ensures LineMatches(board, k) <==>
              exists p: Player :: board[Lines[k][0]] == Mark(p) && board[Lines[k][1]] == Mark(p)
                                  && board[Lines[k][2]] == Mark(p)
  {
    if LineMatches(board, k) {
      var p := board[Lines[k][0]].player;
      assert board[Lines[k][1]] == Mark(p) && board[Lines[k][2]] == Mark(p);
    }
  }

  /** Line `k` matches and no later line does. */
  predicate LastMatchAt(board: Grid, k: nat)
    requires |board| == 9
  {
    k < 8 && LineMatches(board, k) && forall j :: k < j < 8 ==> !LineMatches(board, j)
  }

  /** The loop over the lines from `i` on: every matching line overwrites the winner. */
  function ScanLines(board: Grid, i: nat, winner: Winner): (r: Winner)
    requires |board| == 9 && i <= 8
    ensures (forall k :: i <= k < 8 ==> !LineMatches(board, k)) ==> r == winner
    ensures (exists k :: i <= k < 8 && LineMatches(board, k)) ==>
              exists k: nat :: i <= k && LastMatchAt(board, k) && r == Wins(LineOwner(board, k).player)
    decreases 8 - i
  {
    if i == 8 then winner
    else
      var next := if LineMatches(board, i) then Wins(LineOwner(board, i).player) else winner;
      ScanLines(board, i + 1, next)
  }

  datatype BoardWinner = BoardWinner(gameOver: bool, isDraw: bool, winner: Winner)

  /** The verdict of the mock server: the mark of the last matching line,
      a draw flag for a full board without one, and the game-over flag. */
  function FindWinner(board: Grid): (r: BoardWinner)
    requires |board| == 9
    ensures r.winner != Draw
    ensures r.winner == Nobody <==> forall k :: 0 <= k < 8 ==> !LineMatches(board, k)
    ensures r.winner.Wins? ==> exists k: nat :: LastMatchAt(board, k) && LineOwner(board, k) == Mark(r.winner.player)
    ensures r.isDraw <==> Full(board) && r.winner == Nobody
    ensures r.gameOver <==> r.winner != Nobody || r.isDraw
    ensures !(r.isDraw && r.winner != Nobody)
  {
    var winner := ScanLines(board, 0, Nobody);
    var isDraw := Full(board) && winner == Nobody;
    BoardWinner(winner != Nobody || isDraw, isDraw, winner)
  }

  // ---------------------------------------------------------------------
  // Move heuristic
  // ---------------------------------------------------------------------

  /** The pair-completion rules in priority order, as (first, second, target):
      for each i in 0..2 the row pair, then the column pair, then the two diagonals. */
  const Rules: seq<(nat, nat, nat)> :=
    [(0, 1, 2), (0, 3, 6), (3, 4, 5), (1, 4, 7), (6, 7, 8), (2, 5, 8), (0, 4, 8), (2, 4, 6)]

  /** A rule fires when its two cells hold the same mark and its target is empty. */
  predicate RuleFires(board: Grid, k: nat)
    requires |board| == 9 && k < 8
  {
    var rule := Rules[k];
    board[rule.0] == board[rule.1] && board[rule.0] != Empty && board[rule.2] == Empty
  }

  /** Rule `k` fires and no earlier rule does. */
  predicate FirstFiringAt(board: Grid, k: nat)
    requires |board| == 9
  {
    k < 8 && RuleFires(board, k) && forall j :: 0 <= j < k ==> !RuleFires(board, j)
  }

  /** The empty cells among the first `n`, in increasing order. */
  function FreeCellsBelow(board: Grid, n: nat): (r: seq<nat>)
    requires n <= |board|
    ensures forall j :: 0 <= j < |r| ==> r[j] < n && board[r[j]] == Empty
    ensures forall i :: 0 <= i < n && board[i] == Empty ==> i in r
    ensures forall j, j' :: 0 <= j < j' < |r| ==> r[j] < r[j']
  {
    if n == 0 then []
    else FreeCellsBelow(board, n - 1) + (if board[n - 1] == Empty then [n - 1] else [])
  }

  /** Every rule is one of the eight lines read as pair-then-target, and when
      it fires, the pair's mark written into the target completes that line. */
  lemma FiringRuleCompletesLine(board: Grid, k: nat)
    requires |board| == 9 && k < 8
    ensures exists j :: 0 <= j < 8 && Lines[j] == [Rules[k].0, Rules[k].1, Rules[k].2]
    ensures RuleFires(board, k) ==>
              exists j :: 0 <= j < 8 && LineMatches(board[Rules[k].2 := board[Rules[k].0]], j)
                          && Lines[j] == [Rules[k].0, Rules[k].1, Rules[k].2]
  {
    var j := [0, 3, 1, 4, 2, 5, 6, 7][k];
    assert Lines[j] == [Rules[k].0, Rules[k].1, Rules[k].2];
    if RuleFires(board, k) {
      assert LineMatches(board[Rules[k].2 := board[Rules[k].0]], j);
    }
  }

  /** The rules as the loop visits them: rule 2i is row i's pair, rule 2i+1 column i's. */
  lemma RulesFollowLoop(i: nat)
    requires i < 3
    ensures Rules[2 * i] == (i * 3, i * 3 + 1, i * 3 + 2)
    ensures Rules[2 * i + 1] == (i, i + 3, i + 6)
  {
  }

  /** When neither pair check of iteration `i` returns, neither of its rules
      fires, so no rule up to the next iteration's has fired. */
  lemma PairRulesSilent(board: Grid, i: nat)
    requires |board| == 9 && i < 3
    requires forall k :: 0 <= k < 2 * i ==> !RuleFires(board, k)
    requires !(board[i * 3] == board[i * 3 + 1] && board[i * 3] != Empty && board[i * 3 + 2] == Empty)
    requires !(board[i] == board[i + 3] && board[i] != Empty && board[i + 6] == Empty)
    ensures forall k :: 0 <= k < 2 * (i + 1) ==> !RuleFires(board, k)
  {
    RulesFollowLoop(i);
    forall k | 0 <= k < 2 * (i + 1)
      ensures !RuleFires(board, k)
    {
      if k >= 2 * i {
        assert k == 2 * i || k == 2 * i + 1;
      }
    }
  }

  /** A rule that fires after only silent rules is the one and only first firing rule. */
  lemma FirstFiringIs(board: Grid, k: nat)
    requires |board| == 9 && k < 8
    requires RuleFires(board, k)
    requires forall j :: 0 <= j < k ==> !RuleFires(board, j)
    ensures forall j: nat :: FirstFiringAt(board, j) <==> j == k
    ensures exists j :: 0 <= j < 8 && RuleFires(board, j)
  {
  }

  /** The heuristic move: the target of the first rule that fires, else the
      empty cell at the random position `pick`, else `None`. */
  method CalcNextMove(board: Grid, pick: nat) returns (move: Option<nat>)
    requires |board| == 9
    requires |FreeCellsBelow(board, 9)| > 0 ==> pick < |FreeCellsBelow(board, 9)|
    ensures move.Some? ==> move.value < 9 && board[move.value] == Empty
    ensures move.None? <==> Full(board)
    ensures forall k: nat :: FirstFiringAt(board, k) ==> move == Some(Rules[k].2)
    ensures (forall k :: 0 <= k < 8 ==> !RuleFires(board, k)) && !Full(board) ==>
              move == Some(FreeCellsBelow(board, 9)[pick])
  {
    move := PairRuleMove(board);
    if move.Some? {
      return;
    }
    var emptyCells := CollectEmptyCells(board);
    if |emptyCells| > 0 {
      return Some(emptyCells[pick]);
    }
    return None;
  }

  /** The rule checks of the heuristic, in the order the loop and the two
      diagonal tests visit them: the target of the first rule that fires. */
  method PairRuleMove(board: Grid) returns (move: Option<nat>)
    requires |board| == 9
    ensures move.Some? ==> move.value < 9 && board[move.value] == Empty
    ensures move.None? <==> forall k :: 0 <= k < 8 ==> !RuleFires(board, k)
    ensures forall k: nat :: FirstFiringAt(board, k) ==> move == Some(Rules[k].2)
  {
    var i := 0;
    while i < 3
      invariant i <= 3
      invariant forall k :: 0 <= k < 2 * i ==> !RuleFires(board, k)
    {
      RulesFollowLoop(i);
      if board[i * 3] == board[i * 3 + 1] && board[i * 3] != Empty {
        if board[i * 3 + 2] == Empty {
          FirstFiringIs(board, 2 * i);
          return Some(i * 3 + 2);
        }
      }
      if board[i] == board[i + 3] && board[i] != Empty {
        if board[i + 6] == Empty {
          FirstFiringIs(board, 2 * i + 1);
          return Some(i + 6);
        }
      }
      PairRulesSilent(board, i);
      i := i + 1;
    }
    if board[0] == board[4] && board[0] != Empty {
      if board[8] == Empty {
        FirstFiringIs(board, 6);
        return Some(8);
      }
    }
    if board[2] == board[4] && board[2] != Empty {
      if board[6] == Empty {
        FirstFiringIs(board, 7);
        return Some(6);
      }
    }
    assert forall k :: 0 <= k < 8 ==> !RuleFires(board, k);
    return None;
  }

  /** The fallback's list of empty cells, collected in index order. */
  method CollectEmptyCells(board: Grid) returns (emptyCells: seq<nat>)
    requires |board| == 9
    ensures emptyCells == FreeCellsBelow(board, 9)
  {
    emptyCells := [];
    var i := 0;
    while i < 9
      invariant i <= 9
      invariant emptyCells == FreeCellsBelow(board, i)
    {
      if board[i] == Empty {
        emptyCells := emptyCells + [i];
      }
      i := i + 1;
    }
  }
}
