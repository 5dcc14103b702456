# Checkers rules and decision engine

A Dafny model of the game logic in `checkers_2.c`: the move rules
(`isNotWithinBounds`, `isValidMove`, `makeMove`), move enumeration and
terminal detection (`hasValidMoves`, `getPossibleMoves`, `isGameOver`),
board set-up and copying (`initializeBoard`, `copyBoard`), the static
evaluator (`evaluatePosition`), minimax with alpha-beta pruning
(`minimax`), and the root of the AI's search. That root covers the
contiguous slice of root moves each worker rank searches, the worker's
local best in `getBestMoveForOpponent`, and the arg-max over the gathered
scores in `main`.

The board is an immutable 8×8 `seq<seq<int>>` whose cells hold the
source's codes:
- 0 is empty;
- 1 and 2 are the men of side 1 (the human) and side 2 (the AI);
- 3 and 4 are their kings.

The source copies the board before every trial move, so each mutating
function is a pure function from board to board. The side to move stays a
plain `int`, as in the source. Every value in play stays far inside 32
bits (|score| ≤ 9999), so unbounded integers model C's `int` exactly.

Modules, one file each:
- `Wrappers` (wrappers.dfy): `Option`.
- `BoardState` (board.dfy):
  - squares, moves and the board;
  - piece counting;
  - the legality invariant: codes 0..4, pieces on dark squares only, at most 12 pieces a side;
  - `initializeBoard` and `copyBoard`.
- `RulesEngine` (rules.dfy): `isNotWithinBounds`, `isValidMove` and `makeMove`.
- `MoveGeneration` (movegen.dfy): the row-major scans of `hasValidMoves` and `getPossibleMoves`, and `isGameOver`.
- `Evaluator` (evaluator.dfy): `evaluatePosition`.
- `SearchEngine` (search.dfy):
  - `minimax`, as mutually recursive functions for the maximising and minimising loops;
  - an unpruned reference minimax with the same sentinels.
- `Coordinator` (coordinator.dfy):
  - the slice arithmetic;
  - both reductions;
  - the worker;
  - the AI ply, with the workers run one after another.

The model keeps the source's quirks rather than fixing them:
- `isValidMove` never checks that the moving piece belongs to the side to
  move. Only the scans filter by owner (`IsCandidate`).
- A king's path check skips the square just before the destination.
- `makeMove` empties the square before a king's destination
  unconditionally. That removes a piece of either side, or nothing at all.
  `KingRemovesOwnPieceExample` shows a king clearing its own man.
- A man of side 1 moves towards row 0. Every other `turn` value moves
  towards row 7.
- `isGameOver` asks whether either side is stuck, not only the side to
  move.

Alpha-beta soundness is proved as the fail-soft window property
(`MinimaxFailSoft`) for every window -9999 ≤ alpha < beta ≤ 9999. For
positions with at most 12 pieces a side, the evaluation is bounded by
4520, so the full-window search returns exactly the unpruned minimax
value (`AlphaBetaMatchesMinimax`).

## Model

| member | source | states |
|---|---|---|
| RulesEngine.OutOfBounds | checkers_2.c:210-212 | a square is out of bounds exactly when it is not on the 8×8 board |
| RulesEngine.IsValidMove | checkers_2.c:215-270 | an accepted move lands on the board, starts from a non-empty square, ends on an empty square and is a non-zero diagonal; every other move is rejected |
| RulesEngine.ManMoveRule | checkers_2.c:215-254 | a piece that is not a king of the mover is accepted iff the basic shape holds, it moves forward for its side, and it goes one square or jumps two over a square holding a piece of neither the mover nor empty |
| RulesEngine.KingMoveRule | checkers_2.c:215-267 | a king of the mover is accepted iff the basic shape holds and every square strictly between the origin and the square before the destination is empty, at any distance |
| RulesEngine.KingPathClearIff | checkers_2.c:256-266 | the path loop from step i succeeds iff every path square from step i up to, but excluding, the square before the destination is empty |
| RulesEngine.CapturedSquare | checkers_2.c:290-305 | the square makeMove clears besides the origin is on the board and never the destination |
| RulesEngine.MakeMove | checkers_2.c:273-306 | the origin becomes empty; the destination receives the moving piece, crowned (+2) exactly when it is a man (code 1 or 2) and the destination is on the mover's crowning row (row 0 for side 1, row 7 for side 2); kings are never demoted; the captured square is emptied; every other square is unchanged |
| RulesEngine.MakeMoveCount | checkers_2.c:273-306 | each side's piece count after the move equals the count before, minus what stood on the destination, minus what stood on the cleared square (when that is not the origin) |
| RulesEngine.ValidMoveCount | checkers_2.c:243-305 | a legal move removes zero or one piece; a man's two-square jump removes exactly one; any one-square move removes none |
| RulesEngine.MakeMoveNeverAddsPieces | checkers_2.c:273-306 | no side gains pieces from a move |
| RulesEngine.DiagonalKeepsColour | checkers_2.c:225-228 | a diagonal move from a dark square ends on a dark square |
| RulesEngine.MakeMoveKeepsDarkSquares | checkers_2.c:273-306 | a legal move keeps every piece on a dark square |
| RulesEngine.MakeMoveKeepsCellCodes | checkers_2.c:280-287 | a legal move keeps every cell code in 0..4: crowning adds 2 only to codes 1 and 2 |
| RulesEngine.MakeMoveKeepsLegalPosition | checkers_2.c:273-306 | a legal move from a legal position yields a legal position: codes in range, pieces on dark squares, at most 12 a side |
| RulesEngine.CaptureAndCrownExample | checkers_2.c:280-292 | a side-1 man jumping a side-2 man onto row 0 is accepted, removes the jumped man and is crowned to 3 |
| RulesEngine.KingRemovesOwnPieceExample | checkers_2.c:296-305 | a side-2 king's long move is accepted and empties the square before its destination even when that square holds a side-2 man |
| BoardState.InitializeBoard | checkers_2.c:133-148 | the starting position is legal, has 12 pieces a side, all men; side 2 stands in rows 0-2 and side 1 in rows 5-7 |
| BoardState.CopyBoard | checkers_2.c:201-207 | the copy equals the source board |
| BoardState.CountZeroIffNoPieces | checkers_2.c:311-322 | the counted piece total of a side is zero exactly when no square holds a man or king of that side |
| MoveGeneration.HasValidMoves | checkers_2.c:362-379 | true iff some square holds a piece of the side whose move to some square is accepted |
| MoveGeneration.GetPossibleMoves | checkers_2.c:382-406 | lists exactly the accepted moves of the side's pieces: nothing else, nothing missing, in row-major order of origin then destination, without duplicates |
| MoveGeneration.HasValidMovesIffMoveListNonEmpty | checkers_2.c:362-406 | a side can move exactly when its move list is non-empty |
| MoveGeneration.IsGameOver | checkers_2.c:309-330 | the game is over iff one side has no pieces or either side has no accepted move |
| MoveGeneration.GameOverIffSomeSideStuck | checkers_2.c:309-330 | the piece-count test adds nothing: the game is over exactly when one of the two sides cannot move |
| MoveGeneration.InitialPositionNotOver | checkers_2.c:309-330 | the starting position is not over: both sides have a move |
| Evaluator.EvaluatePosition | checkers_2.c:409-455 | with at most 12 pieces a side the score lies within ±4520, strictly inside the ±9999 search sentinels |
| Evaluator.EvaluateNoPieces | checkers_2.c:409-455 | a board with no pieces of either side scores 0 |
| Evaluator.EvaluateEmptyBoard | checkers_2.c:409-455 | the empty board scores 0 |
| Evaluator.EvaluateSwapColours | checkers_2.c:409-455 | exchanging the two sides' pieces (1↔2, 3↔4) negates the score |
| SearchEngine.Minimax | checkers_2.c:458-521 | terminates whenever depth ≤ maxDepth; on boards with at most 12 pieces a side the result lies within the ±9999 sentinels |
| SearchEngine.MinimaxLeafValues | checkers_2.c:458-521 | at the horizon the result is the static evaluation; a side with no moves yields -9999 when side 2 is to move and 9999 otherwise |
| SearchEngine.MinimaxFailSoft | checkers_2.c:458-521 | for every window inside ±9999 the pruned result equals the unpruned value inside the window; at or below alpha it is an upper bound not above alpha; at or above beta a lower bound not below beta |
| SearchEngine.MaxLoopFailSoft | checkers_2.c:469-492 | the maximising loop with its beta cut-off keeps the fail-soft relation to the unpruned maximum over the remaining moves |
| SearchEngine.MinLoopFailSoft | checkers_2.c:494-520 | the minimising loop with its alpha cut-off keeps the fail-soft relation to the unpruned minimum over the remaining moves |
| SearchEngine.AlphaBetaMatchesMinimax | checkers_2.c:458-521 | with the full window (-9999, 9999) and at most 12 pieces a side, pruning does not change the minimax value |
| Coordinator.SlicesAbut | checkers_2.c:533-537 | each rank's slice ends exactly where the next rank's starts |
| Coordinator.PartitionShape | checkers_2.c:533-537 | every rank's slice lies within the move list; rank 0 starts at 0; the last rank ends at the list's end; each slice has numMoves / numProcesses moves or one more; a rank at or beyond numMoves gets an empty slice |
| Coordinator.SlicesBalanced | checkers_2.c:533-537 | any two ranks' slice sizes differ by at most one |
| Coordinator.SlicesOrdered | checkers_2.c:533-537 | a lower rank's slice ends no later than a higher rank's starts, so slices are disjoint |
| Coordinator.SlicesCover | checkers_2.c:533-537 | every root move index belongs to some rank's slice |
| Coordinator.SearchSlice | checkers_2.c:541-559 | the worker's loop with strict `>` returns the earliest best-scoring index of its slice, or -1 with -9999 when no score beats -9999 |
| Coordinator.BestMoveForOpponent | checkers_2.c:524-568 | the worker reports the earliest best root move of its own slice with its score, or no move and -9999 |
| Coordinator.GlobalWinner | checkers_2.c:81-88 | main's loop with strict `<` returns the earliest index of the largest gathered score, or 0 when no score beats -9999 |
| Coordinator.ReductionsAgree | checkers_2.c:553-559 | over the same score list, the worker's reduction and main's reduction select the same earliest maximum |
| Coordinator.TwoLevelSelection | checkers_2.c:72-91 | taking each slice's earliest maximum and then the earliest maximum over the ranks selects the earliest maximum of the whole score list |
| Coordinator.SelectAcrossWorkers | checkers_2.c:72-91 | gathering every rank's result and picking the winner yields the earliest best-scoring root move, or none when no score beats -9999 |
| Coordinator.OpponentMove | checkers_2.c:70-102 | the AI's chosen move is the earliest best-scoring root move of the full move list, whatever the number of ranks |

## Left out

- MPI: initialisation, broadcasts, the gather and finalisation are collective communication. The ranks are simulated one after another and their results collected in a sequence.
- OpenMP: `getPossibleMoves` and the worker's loop are modelled sequentially.
  - The parallel appends in `getPossibleMoves` are a data race.
  - Under parallel execution the worker's tie-break need not pick the earliest maximum. The model's earliest-maximum result holds for sequential execution only.
- Terminal I/O is not modelled: `printBoard`, reading the human's move (`getPlayerMove`), the depth prompt and the final winner printout. `getPlayerMove` checks `isValidMove` without checking that the piece is the player's own; that is outside this model.
- The fixed 100-entry move buffers are sequences. A position with more than 100 legal moves would overflow the buffer in C; the model does not track that bound.
- RulesEngine.IsValidMove: requires the origin to be on the board, because the source reads it before any check.
- RulesEngine.MakeMove: requires both squares on the board and, for a king, non-zero row and column displacement, because the source indexes and divides by these without checks.
- SearchEngine.Minimax: requires depth ≤ maxDepth. With a negative maxDepth the source never reaches its base case and recurses until the stack runs out; it does not treat a non-positive depth as 0. The model follows the code: maxDepth 0 evaluates the root position, and a negative maxDepth is excluded.
- Coordinator.BestMoveForOpponent: reports no move where the source reads `moves[-1]`, which happens when the slice is empty or no score beats -9999. The missing return value of `getBestMoveForOpponent` is not modelled.
- Coordinator.OpponentMove: computes the move list once rather than once per rank; the scan is deterministic, so every rank sees the same list. Broadcasting the new board from the winning rank is replaced by returning the chosen move, which `MakeMove` applies.
- checkers.c is not part of this model. It only fills a global board, with the opposite square colour, and prints it.
