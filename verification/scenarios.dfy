/** Concrete boards evaluated by the model. */
module Scenarios {
  import opened Board
  import opened GameManager
  import Engines

  /** The empty 3x3 board is not over and has no winner. */
  lemma EmptyBoardNotOver()
    ensures Evaluate(seq(9, _ => Empty), 3) == GameState(false, Nobody)
  {
    var board: Grid := seq(9, _ => Empty);
    EvaluateSpec(board, 3);
    assert !Full(board) by { assert board[0] == Empty; }
    Engines.CombinationsOfThree();
  }

  /** X O X / O X O / O X O. */
  const DrawnBoard: Grid :=
    [Mark(PX), Mark(PO), Mark(PX), Mark(PO), Mark(PX), Mark(PO), Mark(PO), Mark(PX), Mark(PO)]

  /** That board is a full 3x3 board without a complete line. */
  lemma DrawnBoardHasNoLine()
    ensures IsSquare(DrawnBoard, 3) && Full(DrawnBoard)
    ensures !HasCompleteLine(DrawnBoard, 3)
  {
    var board := DrawnBoard;
    Engines.CombinationsOfThree();
    forall k | 0 <= k < 8 ensures !LineComplete(board, Combinations(3)[k]) {
      Engines.MatchIffComplete(board, k);
      assert k in {0, 1, 2, 3, 4, 5, 6, 7};
    }
  }

  /** A full board without a complete line is a finished game and a draw. */
  lemma FullBoardWithoutLineIsDraw()
    ensures Evaluate(DrawnBoard, 3) == GameState(true, Draw)
  {
    DrawnBoardHasNoLine();
    EvaluateSpec(DrawnBoard, 3);
  }
}
