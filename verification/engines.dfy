/** How the two engines relate on 3x3 boards: the same eight lines in the
    same order, and the same verdict on every board whose complete lines all
    carry one mark. They part only on boards with lines of both marks, where
    the production engine keeps the first match and the mock the last. */
module Engines {
  import opened Board
  import GameManager
  import MockApi

  /** The generated lines for side 3 are exactly the mock's fixed list. */
  lemma CombinationsOfThree()
    ensures GameManager.Combinations(3) == MockApi.Lines
  {
    var C := GameManager.Combinations(3);
    assert GameManager.Row(3, 0) == [0, 1, 2];
    assert GameManager.Row(3, 1) == [3, 4, 5];
    assert GameManager.Row(3, 2) == [6, 7, 8];
    assert GameManager.Column(3, 0) == [0, 3, 6];
    assert GameManager.Column(3, 1) == [1, 4, 7];
    assert GameManager.Column(3, 2) == [2, 5, 8];
    assert GameManager.MainDiagonal(3) == [0, 4, 8];
    assert GameManager.AntiDiagonal(3) == [2, 4, 6];
  }

  /** A mock line match is a complete production line. */
  lemma MatchIffComplete(board: Grid, k: nat)
    requires |board| == 9 && k < 8
    ensures MockApi.LineMatches(board, k) <==> GameManager.LineComplete(board, MockApi.Lines[k])
  {
    var line := MockApi.Lines[k];
    if GameManager.LineComplete(board, line) {
      assert board[line[1]] == board[line[0]] && board[line[2]] == board[line[0]];
    }
  }

  /** When every complete line carries the same mark, both engines agree on
      whether the game is over, on draws, and on the winner. */
  lemma EnginesAgree(board: Grid)
    requires |board| == 9
    requires forall j, k :: 0 <= j < 8 && 0 <= k < 8 && MockApi.LineMatches(board, j) && MockApi.LineMatches(board, k)
               ==> MockApi.LineOwner(board, j) == MockApi.LineOwner(board, k)
    ensures MockApi.FindWinner(board).gameOver == GameManager.Evaluate(board, 3).gameOver
    ensures MockApi.FindWinner(board).isDraw <==> GameManager.Evaluate(board, 3).winner == Draw
    ensures !MockApi.FindWinner(board).isDraw ==>
              MockApi.FindWinner(board).winner == GameManager.Evaluate(board, 3).winner
  {
    CombinationsOfThree();
    forall k | 0 <= k < 8 {
      MatchIffComplete(board, k);
    }
    GameManager.EvaluateSpec(board, 3);
    var mock := MockApi.FindWinner(board);
    var prod := GameManager.Evaluate(board, 3);
    if mock.winner.Wins? && prod.winner.Wins? {
      var k: nat :| MockApi.LastMatchAt(board, k) && MockApi.LineOwner(board, k) == Mark(mock.winner.player);
      var j: nat :| GameManager.FirstCompleteAt(board, MockApi.Lines, j)
                    && board[MockApi.Lines[j][0]] == Mark(prod.winner.player);
      assert MockApi.LineOwner(board, j) == MockApi.LineOwner(board, k);
    }
  }

  /** A malformed board with a full X row above a full O row. */
  const TwoFullRows: Grid :=
    [Mark(PX), Mark(PX), Mark(PX), Empty, Empty, Empty, Mark(PO), Mark(PO), Mark(PO)]

  /** Production reports the first complete line of the two. */
  lemma ProductionTakesFirstLine()
    ensures GameManager.Evaluate(TwoFullRows, 3).winner == Wins(PX)
  {
    var board := TwoFullRows;
    CombinationsOfThree();
    MatchIffComplete(board, 0);
    assert GameManager.FirstComplete(board, GameManager.Combinations(3), 0) == Some(0);
  }

  /** On that board only the top and bottom rows match: every other line
      crosses the empty middle row. */
  lemma OnlyOuterRowsMatch(k: nat)
    requires k < 8
    ensures MockApi.LineMatches(TwoFullRows, k) <==> k == 0 || k == 2
  {
  }

  /** The mock reports the last complete line of the two. */
  lemma MockTakesLastLine()
    ensures MockApi.FindWinner(TwoFullRows).winner == Wins(PO)
  {
    forall k | 0 <= k < 8 {
      OnlyOuterRowsMatch(k);
    }
    assert MockApi.LineOwner(TwoFullRows, 2) == Mark(PO);
  }

  /** On that board the engines disagree: the first line wins in production,
      the last one in the mock. */
  lemma TieBreaksDiffer()
    ensures GameManager.Evaluate(TwoFullRows, 3).winner != MockApi.FindWinner(TwoFullRows).winner
  {
    ProductionTakesFirstLine();
    MockTakesLastLine();
  }
}
