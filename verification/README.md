# Tic-tac-toe game engine in Dafny

This project models the game engine of a browser tic-tac-toe game in which
a human (X) plays against the computer (O). It covers three source files.

- `src/utils/gameManager.ts` is the production engine. It generates the
  2S+2 winning lines of an S x S board. It evaluates a board: the first
  complete line in generation order wins, and a full board without one is
  a draw. It runs an exhaustive minimax search in which O maximises, X
  minimises and scores are adjusted by depth. It selects a move: a random
  empty cell when a rounded percentage roll exceeds the difficulty's
  precision, otherwise the first empty cell with the strictly greatest
  minimax score. Finally it handles the make-move request.
- `src/mock-api/utils.ts` is the older fixed 3x3 mock engine. Its winner
  check lets the last matching line win and carries a separate draw flag.
  Its move heuristic completes pairs, then falls back to a random empty
  cell.
- `src/utils/gameStatistics.ts` holds the X-win, O-win and draw counters.

Modules:

- `Board` holds the shared vocabulary: marks, cells, flattened boards,
  outcomes and their string encoding.
- `GameManager` is the production engine, written as pure functions on
  immutable boards.
- `InPlaceSearch` is the same search as the source runs it. It works on
  one mutable array that each branch fills and empties again. Each method
  is proved to restore the array and to compute exactly the pure model's
  value.
- `MockApi` is the mock engine.
- `Engines` relates the two engines: when they agree, and a board on which
  they do not.
- `GameStatistics` holds the counters.
- `Scenarios` holds concrete boards evaluated by the model.

The source's random draws become parameters. `roll` is the rounded
percentage, 0 to 100, and `pick` is the position drawn among the empty
cells. The board side S also becomes a parameter, standing in for
`Math.sqrt(board.length)`.

## Model

| member | source | states |
|---|---|---|
| GameManager.Precision | src/utils/gameManager.ts:14-24 | HARD gives 92, MEDIUM gives 68, and every other level falls through to the EASY value 36; every precision is at most 100 |
| Board.WinnerString | src/utils/gameManager.ts:67-80 | the outcome is stored as one of `''`, "X", "O" and "DRAW", and as `''` exactly when nobody has won and the game is not drawn |
| Board.WinnerStringInjective | src/utils/gameManager.ts:67-80 | distinct outcomes get distinct strings, so the stored string identifies the outcome |
| GameManager.EmptyFrom | src/utils/gameManager.ts:26-28 | the empty indices from k on: each listed index is in range and empty, every empty index is listed, they strictly increase, and their number is the count of empty cells |
| GameManager.EmptyCells | src/utils/gameManager.ts:26-28 | an index is listed exactly when it is an in-range empty cell, and the list strictly increases, so it has no duplicates |
| GameManager.NoEmptyCellsIffFull | src/utils/gameManager.ts:26-28 | the empty-cell list is empty exactly when every cell is filled |
| GameManager.PlaceShrinksEmpty | src/utils/gameManager.ts:99-102 | filling one empty cell removes exactly one empty cell, which is why the search terminates |
| GameManager.CombinationsShape | src/utils/gameManager.ts:30-62 | there are 2S+2 lines, each line has S indices, and every index lies inside the S*S board |
| GameManager.CalcWinnerCombinations | src/utils/gameManager.ts:30-62 | the nested loops produce exactly the rows, then the columns, then the main and anti diagonals |
| GameManager.RowCombination | src/utils/gameManager.ts:34-40 | the inner loop builds row r as r*S+0 .. r*S+S-1 |
| GameManager.ColumnCombination | src/utils/gameManager.ts:43-49 | the inner loop builds column c as 0*S+c .. (S-1)*S+c |
| GameManager.Diagonals | src/utils/gameManager.ts:52-57 | one loop builds both diagonals, i*S+i and i*S+(S-1-i) |
| GameManager.LineCompleteOneMark | src/utils/gameManager.ts:70-71 | a line counts as complete exactly when it is non-empty and all its cells hold one and the same player's mark |
| GameManager.FirstComplete | src/utils/gameManager.ts:69-75 | the scan stops at the first complete line: the one returned is complete and none before it is; None means no line is complete |
| GameManager.Evaluate | src/utils/gameManager.ts:64-86 | the game is over exactly when there is a winner or a draw |
| GameManager.EvaluateSpec | src/utils/gameManager.ts:64-86 | a player wins exactly when some line is complete, with the mark of the first complete line; a draw is a full board without a complete line; otherwise play goes on |
| GameManager.NotOverHasEmptyCell | src/utils/gameManager.ts:77-83 | a board whose game is not over has an empty cell left |
| GameManager.CompleteLineDecides | src/utils/gameManager.ts:69-75 | when every complete line carries the mark p, the verdict is a finished game won by p |
| GameManager.TerminalScore | src/utils/gameManager.ts:90-93 | at every depth an O win scores 10 less the depth and an X win the depth less 10, while a draw or an unfinished game scores 0; before depth 10 an O win is strictly positive and an X win strictly negative, so neither ties a draw |
| GameManager.Combine | src/utils/gameManager.ts:103-113 | the running best becomes either the new score or the old best, whichever is better for the side to move (Math.max for O at 103, Math.min for X at 113); the first score replaces the infinite seed |
| GameManager.Minimax | src/utils/gameManager.ts:88-117 | every score is 0 or the score of a win reached between the current depth and the depth at which the board fills up |
| GameManager.ChildScore | src/utils/gameManager.ts:99-113 | the child reached by the side to move filling an empty cell scores a win at least one level deeper, or 0 |
| GameManager.BestChild | src/utils/gameManager.ts:97-115 | the running Math.max/Math.min fold from the infinite seed stays within the same score range |
| GameManager.MinimaxUnfold | src/utils/gameManager.ts:96-116 | on a board that is not over, the value is the fold over its empty cells |
| GameManager.BestChildStep | src/utils/gameManager.ts:99-104 | one loop iteration fills a cell (one empty cell fewer), scores the child with the other side to move, and combines the score into the best so far |
| GameManager.BestChildExtremum | src/utils/gameManager.ts:96-116 | the fold's result is the seed or some child's score, and it is at least as good for the side to move as the seed and as every child |
| GameManager.MinimaxSpec | src/utils/gameManager.ts:88-117 | a finished board scores 10-depth for an O win, depth-10 for an X win and 0 for a draw; otherwise the value is attained by some empty cell and is at least as good as every empty cell for the side to move |
| GameManager.MoveScore | src/utils/gameManager.ts:132-133 | O's move scores 0 or a win reached within the board's size in moves, and a move that wins on the spot scores 10 |
| GameManager.ScanStep | src/utils/gameManager.ts:136-139 | one candidate replaces the best only on a strictly greater score, so the best stays the first strict maximum of the scores seen |
| GameManager.ScanBest | src/utils/gameManager.ts:128-142 | the scan finds nothing exactly when there are no candidates, and otherwise the position of the first strictly greatest score |
| GameManager.BestMove | src/utils/gameManager.ts:128-142 | the optimal branch returns null exactly when the board is full; otherwise it returns an empty cell whose score is the first strict maximum over the empty cells in index order |
| GameManager.BestMoveMaximal | src/utils/gameManager.ts:131-140 | no empty cell scores more than the chosen move |
| GameManager.NextMove | src/utils/gameManager.ts:119-143 | null exactly when the board is full, otherwise an empty cell; a roll above the precision on a board with empty cells gives the picked random empty cell, and any other roll gives the optimal move |
| GameManager.HarderLevelsStayOptimal | src/utils/gameManager.ts:119-126 | whenever a level plays the optimal move, every level with at least its precision does too; a roll of at most 36 makes EASY, MEDIUM and HARD all search |
| GameManager.MoveScoreOfWin | src/utils/gameManager.ts:88-93 | on boards of at most 20 cells, a move that wins for O at once scores 10 and every other move scores at most 9 |
| GameManager.TakesImmediateWin | src/utils/gameManager.ts:128-142 | whenever O can win at once, the optimal move wins at once |
| GameManager.MakeMove | src/utils/gameManager.ts:154-181 | a finished board comes back unchanged with a null move and its own verdict; otherwise O fills exactly one empty cell, nothing else changes, and the verdict is that of the new board; the cell taken is exactly the selector's choice for the given level, roll and pick |
| InPlaceSearch.MinimaxInPlace | src/utils/gameManager.ts:88-117 | the mutating search leaves the array as it found it and returns the pure minimax value |
| InPlaceSearch.SearchChildren | src/utils/gameManager.ts:96-116 | the loop over the empty cells restores the array and returns the fold of the pure model |
| InPlaceSearch.SearchChild | src/utils/gameManager.ts:99-102 | setting the mark, recursing and clearing the cell restores the array and gives the child's pure score |
| InPlaceSearch.CalcNextMoveInPlace | src/utils/gameManager.ts:119-143 | the selector on the working array restores it and returns the pure model's move |
| InPlaceSearch.ScoreMoveInPlace | src/utils/gameManager.ts:132-134 | scoring O's move on the working array restores it and returns the pure move score |
| InPlaceSearch.BestMoveInPlace | src/utils/gameManager.ts:128-142 | the optimal branch on the working array restores it and returns the pure optimal move |
| InPlaceSearch.ScanCellsInPlace | src/utils/gameManager.ts:131-140 | the strict-improvement loop restores the array and finds the same first maximum as the pure scan |
| InPlaceSearch.MakeMoveOnCopy | src/utils/gameManager.ts:154-181 | the handler that copies the request board and searches on the copy gives exactly the pure response |
| MockApi.LineMatchesOneMark | src/mock-api/utils.ts:54-55 | a mock line matches exactly when its three cells hold one and the same player's mark |
| MockApi.ScanLines | src/mock-api/utils.ts:52-58 | with no matching line the winner is unchanged; otherwise it is the mark of the last matching line |
| MockApi.FindWinner | src/mock-api/utils.ts:39-66 | the winner is never the draw sentinel; it is empty exactly when no line matches, else the mark of the last matching line; the draw flag is a full board without a winner; game over is a winner or a draw, and never both |
| MockApi.FreeCellsBelow | src/mock-api/utils.ts:20-25 | the collected cells are empty and below n, every empty cell below n is collected, and they strictly increase, so none repeats |
| MockApi.FiringRuleCompletesLine | src/mock-api/utils.ts:2-18 | each of the eight rules is one of the eight lines read as pair then target; when a rule fires, writing the pair's mark into the target completes that line |
| MockApi.RulesFollowLoop | src/mock-api/utils.ts:2-10 | iteration i checks the row pair (3i, 3i+1) aiming at 3i+2, then the column pair (i, i+3) aiming at i+6 |
| MockApi.PairRulesSilent | src/mock-api/utils.ts:2-10 | an iteration that does not return leaves no rule up to its own fired |
| MockApi.FirstFiringIs | src/mock-api/utils.ts:1-18 | a rule that fires after only silent rules is the unique first firing rule |
| MockApi.CalcNextMove | src/mock-api/utils.ts:1-31 | the move is the target of the first firing pair rule; with none it is the picked empty cell; it is null exactly on a full board; any move is an empty cell |
| MockApi.PairRuleMove | src/mock-api/utils.ts:2-18 | the rule checks return the first firing rule's target, which is empty, and nothing exactly when no rule fires |
| MockApi.CollectEmptyCells | src/mock-api/utils.ts:20-25 | the fallback loop collects exactly the empty cells in index order |
| Engines.CombinationsOfThree | src/utils/gameManager.ts:30-62 | on a 3x3 board the production lines are the mock's eight lines in the same order |
| Engines.MatchIffComplete | src/mock-api/utils.ts:53-57 | a mock line match is exactly a complete production line |
| Engines.EnginesAgree | src/mock-api/utils.ts:39-66 | when all matching lines share one mark, both engines agree on game over, on draws, and on the winner |
| Engines.ProductionTakesFirstLine | src/utils/gameManager.ts:69-75 | with full X and O rows on one board, production reports X, the first complete line |
| Engines.MockTakesLastLine | src/mock-api/utils.ts:52-58 | on the same board the mock reports O, the last matching line |
| Engines.TieBreaksDiffer | src/mock-api/utils.ts:52-58 | the two engines name different winners for that board |
| GameStatistics.Update | src/utils/gameStatistics.ts:35-49 | "X", "O" and "DRAW" each add one to their own counter and touch nothing else; any other string leaves the counters unchanged |
| GameStatistics.Reset | src/utils/gameStatistics.ts:51-55 | every counter is zero, and so is the total |
| GameStatistics.UpdateMonotone | src/utils/gameStatistics.ts:35-49 | no counter decreases, and the total grows by one exactly for a recognised outcome |
| GameStatistics.FinishedGameCountedOnce | src/utils/gameStatistics.ts:35-49 | a finished game's verdict string adds one to the total and to its own counter; an unfinished game's empty string changes nothing |
| GameStatistics.ReplayCounts | src/utils/gameStatistics.ts:35-49 | after a series of games each counter has grown by the number of games with its outcome |
| GameStatistics.ReplayFromDefault | src/utils/gameStatistics.ts:9-13 | from the default counters, a series of games leaves exactly the numbers of X wins, O wins and draws in it |
| Scenarios.EmptyBoardNotOver | src/utils/gameManager.ts:64-86 | the empty 3x3 board is not over and has no winner |
| Scenarios.DrawnBoardHasNoLine | src/utils/gameManager.ts:69-77 | the board X O X / O X O / O X O is a full 3x3 board with no complete line |
| Scenarios.FullBoardWithoutLineIsDraw | src/utils/gameManager.ts:77-85 | that board evaluates to a finished game and a draw |

## Left out

- Persistence of the counters is left out. The source reads and writes them through `localStorage` and JSON. Here the current counters come in as a value and the updated counters go out as one.
- The one-second `sleep` of the make-move handler is left out. The `/api/rooms` endpoint, the 404 default and the mock server's route wiring are left out too. They are I/O and timing, with no engine logic.
- `Math.random` is not modelled. It becomes the parameters `roll` and `pick`, whose ranges are stated as preconditions.
- GameManager.NextMove: the roll ranges over 0 to 100 inclusive, the values `Math.round(Math.random() * 100)` yields; its distribution is not modelled.
- GameManager.Evaluate: the side S is a parameter with S >= 1 and a board of exactly S*S cells, standing in for `Math.sqrt`. Non-square lengths and the empty board are not modelled; the source would compute a fractional or zero side for them.
- Board.Cell has no `null` cell. The mock's `Array<string | null>` boards are modelled without nulls. A `null` counts as empty in the mock's winner check but as filled in its move heuristic; that difference is not modelled.
- MockApi.FindWinner: the board has exactly 9 cells. The mock's lines are fixed 3x3, so on other lengths they look only at cells 0..8 while `isDraw` scans the whole board; those boards are not modelled.
- MockApi.CalcNextMove: the board has exactly 9 cells. Its rules and its fallback loop are fixed 3x3 and look only at cells 0..8; other lengths are not modelled.
- GameManager.MoveScoreOfWin: stated only for boards of at most 20 cells. Beyond depth 10 the source's depth adjustment flips sign: a late X win scores above a draw for O. The property therefore does not hold on larger boards.
- GameManager.TakesImmediateWin: limited to boards of at most 20 cells, for the same reason.
- Global game-theoretic claims are not stated. An example is "HARD never loses on 3x3"; it would need the full game tree to be explored by the prover.
- The UI, the providers, routing and game history are not part of this model.
