# Minimax on a 16-cell board, modelled in Dafny

This project models two Java programs, `MiniMaxBlack` and `MiniMaxImproved`. Both
search a one-dimensional game board with plain minimax and no pruning.

- **Board.** A position is 16 cells. Each cell holds a White king `W`, a Black
  king `B`, a White pawn `w`, a Black pawn `b`, or is empty (`x`).
- **White's move rule.** White pieces move toward higher indices. A piece goes
  to the first empty cell after it. A piece on cell 15, or one with every
  later cell occupied, leaves the board instead. If the piece lands two cells
  ahead over one Black piece, it captures that piece: the captured piece moves
  to the highest-indexed empty cell, unless that cell is the one just vacated.
- **Black's move rule.** Black moves with the same rule on the mirrored board
  (`flip_position`), and the result is mirrored back.
- **Estimators.** Each program scores a position with its own static estimator:
  - The basic estimator (`MiniMaxBlack`) adds the first index of each king and
    subtracts 15.
  - The improved estimator (`MiniMaxImproved`) takes five times the White
    king's last index minus the Black king's last index, then adds White's
    pawn advancement and subtracts Black's.
  - In both, a board without the White king scores +100. Otherwise a board
    without the Black king scores -100.
- **Search.** The search stops at depth 0, or at a position scored exactly
  ±100. Every scored leaf is appended to one shared list, and the program
  reports that list's length.
  - An inner node returns its own position with the first best child value.
  - The root returns the chosen child's own result.
  - In `MiniMaxBlack` the root moves Black. In `MiniMaxImproved` it moves White.

Modules, one file each:

- `seqindex.dfy`, module `SeqIndex`: the first and last occurrence of a value
  in a sequence. These are the scans `white_win`, `black_win`, the improved
  estimator's loop and the backward scan of a capture.
- `board.dfy`, module `Board`:
  - the `Cell` datatype;
  - the colour swap and the mirror `Flip` as specification functions;
  - `FlipPosition`, the in-place array version of `flip_position`.
- `movegen.dfy`, module `MoveGenerator`:
  - `Moved` and `BlackMoved` as specification functions;
  - `GenerateMove` and `RelocateCaptured`, the array method with its two loops;
  - the properties of a move.
- `estimate.dfy`, module `Estimator`: both estimators as functions, and the
  scanning loops of the Java code as methods proved equal to them.
- `search.dfy`, module `Search`:
  - the search as specification functions over values: `Value`, `Children`,
    `Leaves` and `RootResult`;
  - the shared list as the class `MoveLog`;
  - `evaluate_moves` and `evaluate_moves_first` as recursive methods, proved to
    return `Value` or `RootResult` and to append exactly `Leaves` to the log;
  - lemmas on the chosen child, the value bound and the number of leaves.
- `scenarios.dfy`, module `Scenarios`: concrete boards and what the estimators
  and the search make of them.

Seven definitions carry the model itself but have no row of their own in the
table below. They are stated through the lemmas and methods that have rows:

- `Board.Flip` models `flip_position` (src/MiniMaxBlack.java:62-88). See
  `FlipPosition`, `FlipInvolution`, `FlipUpdate` and `FlipCount`.
- `MoveGenerator.Moved` models White's move in `generate_move`
  (src/MiniMaxBlack.java:222-258). See `GenerateMove` and the `Move…` lemmas.
- `MoveGenerator.Jumped` models the capture branch
  (src/MiniMaxBlack.java:240-251). See `RelocateCaptured`, `MoveCaptures`,
  `CaptureNoRoom` and `CaptureBeyond`.
- `MoveGenerator.BlackMoved` models Black's move through the mirror
  (src/MiniMaxBlack.java:183). See `ChildPosition` and the `BlackMove…` lemmas.
- `Search.Value` models the value returned by `evaluate_moves`
  (src/MiniMaxBlack.java:133-199). See `EvaluateMoves`, `InnerNode`,
  `FirstBest` and `ValueBound`.
- `Search.Leaves` models the list that `evaluate_moves` fills
  (src/MiniMaxBlack.java:133-199). See `EvaluateMoves`, `LeafCount` and
  `ValueIsLoggedLeaf`.
- `Search.RootResult` models `evaluate_moves_first`
  (src/MiniMaxBlack.java:91-130). See `EvaluateMovesFirst`, `InnerRoot` and
  `RootIsFirstBestChild`.

Behaviour of the code that the model keeps as written:

- **Sign of the ±100 scores.** The comment above `estimate_position`
  (src/MiniMaxBlack.java:262) says it returns 100 or -100 when White or Black
  has won. The code returns +100 when `W` is absent (src/MiniMaxBlack.java:268-269,
  src/MiniMaxImproved.java:286-288). It returns -100 only when `W` is present
  and `B` is absent.
- **Side to move at the root.** `MiniMaxBlack` iterates Black pieces at the
  root and keeps the first strictly least value below 1000. `MiniMaxImproved`
  iterates White pieces and keeps the first strictly greatest value above -1000.
- **Range of estimates.** The improved estimate is proved within ±315
  (`ImprovedEstimate`). With both kings on the board it can exceed ±100: W on
  15, B on 0 and a `w` on 14 score 103 (`ImprovedAboveHundred`). A position
  holding both kings can also score exactly ±100, and the search then stops
  there (`ImprovedHundredWithKings`).
- **Worked example.** On "WxxxxxxxxxxxxxxB" at depth 1, White's king steps to
  the first empty cell, cell 1.
  - `MiniMaxImproved` reports "xWxxxxxxxxxxxxxB" with -70
    (`ImprovedSearchExample`).
  - In `MiniMaxBlack`, Black's king moves down to cell 14 and the root value is
    -1 (`BasicSearchExample`).

## Model

| member | source | states |
|---|---|---|
| Board.Swap | src/MiniMaxBlack.java:75-85 | the colour swap turns White into Black and Black into White, and keeps the empty cell empty |
| Board.FlipInvolution | src/MiniMaxBlack.java:62-88 | mirroring twice gives back the board |
| Board.FlipUpdate | src/MiniMaxBlack.java:62-88 | mirroring a board with one cell changed changes the mirrored cell to the swapped symbol |
| Board.FlipCount | src/MiniMaxBlack.java:75-85 | the mirror holds as many cells of a symbol as the board holds of the swapped symbol |
| Board.FlipSameCounts | src/MiniMaxBlack.java:62-88 | boards with the same symbol counts have mirrors with the same symbol counts |
| Board.FlipPosition | src/MiniMaxBlack.java:62-88 | returns a fresh array holding the mirror of the input, and leaves the input unchanged |
| SeqIndex.FirstIndexOf | src/MiniMaxBlack.java:278-286 | the result is -1 exactly when the value is absent, and otherwise an index holding it |
| SeqIndex.FirstIndexOfIsFirst | src/MiniMaxBlack.java:278-286 | no cell before the returned index holds the value |
| SeqIndex.FirstIndexOfAt | src/MiniMaxBlack.java:279-283 | the index where a forward scan stops is the first occurrence |
| SeqIndex.LastIndexOf | src/MiniMaxImproved.java:268-275 | the result is -1 exactly when the value is absent, and otherwise an index holding it |
| SeqIndex.LastIndexOfIsLast | src/MiniMaxImproved.java:268-275 | no cell after the returned index holds the value |
| SeqIndex.LastIndexOfAt | src/MiniMaxBlack.java:242-249 | the index where a backward scan stops is the last occurrence |
| SeqIndex.FirstIndexOfAppend | src/MiniMaxBlack.java:165-168 | appending a value moves the first occurrence of x only when x was absent and the appended value is x |
| MoveGenerator.NextEmpty | src/MiniMaxBlack.java:230-238 | the destination is -1 exactly when every later cell is occupied, and otherwise an empty cell after the piece |
| MoveGenerator.NextEmptyIsFirst | src/MiniMaxBlack.java:230-238 | every cell the piece passes over is occupied |
| MoveGenerator.NextEmptyAt | src/MiniMaxBlack.java:230-238 | an empty cell with only occupied cells before it is the destination |
| MoveGenerator.GenerateMove | src/MiniMaxBlack.java:222-258 | returns a fresh array holding `Moved(board, i)`, and leaves the board unchanged |
| MoveGenerator.RelocateCaptured | src/MiniMaxBlack.java:240-251 | the backward scan sends the jumped Black piece to the last empty cell, unless that cell is the vacated one |
| MoveGenerator.SwapCellsPreserves | src/MiniMaxBlack.java:244-247 | exchanging two cells keeps every symbol count |
| MoveGenerator.MoveEscapes | src/MiniMaxBlack.java:225-234 | a piece on cell 15, or with every later cell occupied, leaves the board, and no other cell changes |
| MoveGenerator.MoveAdvances | src/MiniMaxBlack.java:235-238 | without a capture the piece goes to the first empty cell, its cell empties, and nothing else changes |
| MoveGenerator.MoveLands | src/MiniMaxBlack.java:235-253 | after every move to an empty cell, the piece stands on that cell and its old cell is empty, capture or not |
| MoveGenerator.MoveVacates | src/MiniMaxBlack.java:222-258 | the starting cell is empty after every move |
| MoveGenerator.MoveCaptures | src/MiniMaxBlack.java:240-251 | a capture sends the Black piece to the last empty cell of the board, which lies beyond the landing cell; with no empty cell beyond it, nothing is relocated |
| MoveGenerator.CaptureNoRoom | src/MiniMaxBlack.java:241-249 | a capture with no empty cell beyond the landing cell leaves the captured piece in place |
| MoveGenerator.CaptureBeyond | src/MiniMaxBlack.java:241-249 | a capture with an empty cell beyond the landing cell moves the captured piece to the last empty cell |
| MoveGenerator.MoveConserves | src/MiniMaxBlack.java:222-258 | a move keeps every symbol count; a piece that leaves the board turns exactly one cell of its symbol into an empty cell |
| MoveGenerator.MoveCounts | src/MiniMaxBlack.java:222-258 | only the mover's symbol count can change, and the empty count grows by one exactly when an occupied cell's piece leaves the board |
| MoveGenerator.MoveKeepsBelow | src/MiniMaxBlack.java:222-258 | a White move leaves every cell below its piece unchanged |
| MoveGenerator.BlackMoveVacates | src/MiniMaxBlack.java:183 | Black's move empties the cell it starts from |
| MoveGenerator.BlackMoveLands | src/MiniMaxBlack.java:183 | a Black piece goes to the nearest empty cell below it |
| MoveGenerator.FlipOccupied | src/MiniMaxBlack.java:183 | a run of occupied cells is a run of occupied cells on the mirror, at the mirrored indices |
| MoveGenerator.BlackMoveAdvances | src/MiniMaxImproved.java:153 | without a capture a Black piece goes to the nearest empty cell below it, its cell empties, and nothing else changes |
| MoveGenerator.FlipAdvance | src/MiniMaxImproved.java:172-198 | mirroring a plain advance gives the mirrored advance with the swapped piece |
| MoveGenerator.FlipCapture | src/MiniMaxImproved.java:172-198 | mirroring a capture with relocation gives the mirrored capture with the swapped pieces |
| MoveGenerator.FlipCaptureInPlace | src/MiniMaxImproved.java:172-198 | mirroring a capture that relocates nothing gives the mirrored capture |
| MoveGenerator.FlipFirstEmpty | src/MiniMaxImproved.java:172-198 | the last empty cell of the mirror is the mirror of the board's first empty cell |
| MoveGenerator.BlackMoveCaptures | src/MiniMaxImproved.java:153 | a Black piece jumping down over one White piece sends it to the lowest empty cell of the board, which lies below the landing cell; with no empty cell below it, nothing is relocated |
| MoveGenerator.BlackCaptureBelow | src/MiniMaxImproved.java:153 | a Black capture with an empty cell below the landing cell moves the captured piece to the first empty cell |
| MoveGenerator.BlackCaptureNoRoom | src/MiniMaxImproved.java:153 | a Black capture with no empty cell below the landing cell leaves the captured piece in place |
| MoveGenerator.BlackMoveEscapes | src/MiniMaxBlack.java:183 | a Black piece with every lower cell occupied leaves the board off cell 0, and no other cell changes |
| MoveGenerator.BlackMoveKeepsAbove | src/MiniMaxImproved.java:153 | a Black move leaves every cell above its piece unchanged |
| MoveGenerator.BlackMoveConserves | src/MiniMaxImproved.java:153 | a Black move keeps every symbol count, unless its piece escapes, which removes exactly that piece |
| MoveGenerator.BlackMoveStays | src/MiniMaxImproved.java:153 | a Black piece with an empty cell below it keeps every symbol count |
| Estimator.BasicEstimate | src/MiniMaxBlack.java:264-275 | no White king gives 100; a White king without a Black king gives -100; with both kings the score is within [-14, 14], so ±100 means a king is missing |
| Estimator.KingIndex | src/MiniMaxBlack.java:278-297 | the scan returns the first index of the king, or -1 |
| Estimator.EstimateBasic | src/MiniMaxBlack.java:264-275 | the method returns `BasicEstimate` of the board |
| Estimator.WhitePawnScoreBound | src/MiniMaxImproved.java:276-278 | the White pawn score of the first n cells is at most n(n-1) |
| Estimator.NoWhitePawns | src/MiniMaxImproved.java:276-278 | a board without White pawns scores 0 for them |
| Estimator.WhitePawnScoreAdd | src/MiniMaxImproved.java:276-278 | placing a White pawn on cell j adds 2j |
| Estimator.BlackPawnScoreBound | src/MiniMaxImproved.java:279-281 | the Black pawn score of the first n cells is at most 30n - n(n-1) |
| Estimator.NoBlackPawns | src/MiniMaxImproved.java:279-281 | a board without Black pawns scores 0 for them |
| Estimator.BlackPawnScoreAdd | src/MiniMaxImproved.java:279-281 | placing a Black pawn on cell j adds 2(15-j) |
| Estimator.ImprovedEstimate | src/MiniMaxImproved.java:286-291 | no White king gives 100; otherwise no Black king gives -100; every score is within ±315 |
| Estimator.EstimateImproved | src/MiniMaxImproved.java:261-298 | the one-pass loop returns `ImprovedEstimate` of the board |
| Estimator.Estimate | src/MiniMaxImproved.java:261-298 | both variants give +100 without the White king, -100 without the Black king, and stay within ±315 |
| Estimator.EstimatePosition | src/MiniMaxBlack.java:264-275 | the method returns `Estimate` of the board for its variant |
| Estimator.KingsPresent | src/MiniMaxBlack.java:268-274 | a score other than ±100 means both kings are on the board |
| Search.MoveLog.Add | src/MiniMaxBlack.java:101 | appending a scored leaf adds exactly that entry at the end of the list |
| Search.MoversSpec | src/MiniMaxBlack.java:160-161 | the movers are exactly the cells holding a piece of the side to move, each once, in ascending order |
| Search.ExtremeSpec | src/MiniMaxBlack.java:165-168 | the chosen value is one of the child values, and no child value is strictly better |
| Search.Children | src/MiniMaxBlack.java:160-171 | there is one child result per mover |
| Search.ChildrenAt | src/MiniMaxBlack.java:160-171 | the k-th child result is the k-th mover's position with its value one ply down for the other side |
| Search.NonLeafHasMover | src/MiniMaxBlack.java:147-174 | a node that is not a leaf has a piece to move, so the chosen index is in range |
| Search.SelectUpdate | src/MiniMaxBlack.java:186-189 | the strict comparison keeps the best value and the first index attaining it, given a sentinel worse than every estimate |
| Search.SelectedChoice | src/MiniMaxBlack.java:174 | once a child has been seen, the kept index is the first index of the best child value |
| Search.InnerNode | src/MiniMaxBlack.java:155-198 | an inner node's value is the best child value, and its leaves are its children's leaves in order |
| Search.InnerRoot | src/MiniMaxBlack.java:113-129 | an inner root returns the child result at the first index of the best child value |
| Search.ValueBound | src/MiniMaxBlack.java:155-198 | every node value lies within ±315, so the first child always beats the sentinel (`Integer.MIN_VALUE`, `Integer.MAX_VALUE` or ±1000) |
| Search.ChildrenBound | src/MiniMaxBlack.java:160-171 | every child value lies within ±315 |
| Search.FirstBest | src/MiniMaxBlack.java:155-198 | the node value is a child value that no child beats, and every earlier child is strictly worse |
| Search.RootIsFirstBestChild | src/MiniMaxBlack.java:113-129 | the root returns its first child whose value is the root's value; the same holds for the White-to-move root of src/MiniMaxImproved.java:84-99 |
| Search.LeafCount | src/MiniMaxBlack.java:140-153 | a search logs at least one leaf and at most 16^depth |
| Search.ChildLeafCount | src/MiniMaxBlack.java:160-171 | the moves below n log at least one leaf each, and at most 16^d each |
| Search.ValueIsLoggedLeaf | src/MiniMaxBlack.java:140-198 | a node's value is the estimate of one of the leaves it logs |
| Search.ChildrenLogged | src/MiniMaxBlack.java:160-171 | each child value is the estimate of a leaf logged below the moves |
| Search.ChildPosition | src/MiniMaxBlack.java:183 | the child array is White's move, or for Black `flip(generate_move(flip(pos), 15 - i))` |
| Search.SearchMoves | src/MiniMaxBlack.java:160-171 | the loop collects the child results in order and appends their leaves to the log, keeping the first best value and its index |
| Search.EvaluateMoves | src/MiniMaxBlack.java:133-199 | returns its own position with the node's minimax value, and appends exactly the node's leaves to the log |
| Search.EvaluateMovesFirst | src/MiniMaxBlack.java:91-130 | the root (Black to move here, White to move in src/MiniMaxImproved.java:62-100) returns `RootResult` and appends exactly the root's leaves to the log |
| Scenarios.BasicKingsOnly | src/MiniMaxBlack.java:273 | with only the two kings on the board, the basic score is w + b - 15 |
| Scenarios.ImprovedKingsOnly | src/MiniMaxImproved.java:294-297 | with only the two kings on the board, the improved score is 5(w - b) |
| Scenarios.BasicExample | src/MiniMaxBlack.java:264-275 | "xxxWxxxxxxxxBxxx" scores 0 |
| Scenarios.ImprovedExample | src/MiniMaxImproved.java:277-297 | "WxxxwxxxxxxxxxxB" scores -75 + 8 = -67 |
| Scenarios.ImprovedAboveHundred | src/MiniMaxImproved.java:276-297 | "BxxxxxxxxxxxxxwW" holds both kings and scores 5 * 15 + 2 * 14 = 103 |
| Scenarios.ImprovedHundredWithKings | src/MiniMaxImproved.java:118-123 | "BxxxxxxxxxxxxxWw" holds both kings, scores 100, and is a leaf at every depth |
| Scenarios.ImprovedMinusHundredWithKings | src/MiniMaxImproved.java:118-123 | "bWxxxxxxxxxxxxxB" holds both kings, scores -100, and is a leaf at every depth |
| Scenarios.WhiteKingStepsUp | src/MiniMaxBlack.java:235-238 | on "WxxxxxxxxxxxxxxB" White's king steps to cell 1 |
| Scenarios.BlackKingStepsDown | src/MiniMaxBlack.java:183 | on "WxxxxxxxxxxxxxxB" Black's king steps to cell 14 |
| Scenarios.ImprovedChildrenExample | src/MiniMaxImproved.java:86-97 | below "WxxxxxxxxxxxxxxB", White's one move leads to a leaf scored -70 |
| Scenarios.ImprovedSearchExample | src/MiniMaxImproved.java:62-100 | at depth 1 the root returns "xWxxxxxxxxxxxxxB" with -70, the one logged leaf |
| Scenarios.BasicChildrenExample | src/MiniMaxBlack.java:115-127 | below "WxxxxxxxxxxxxxxB", Black's one move leads to a leaf scored -1 |
| Scenarios.BasicRootNotLeaf | src/MiniMaxBlack.java:106-111 | "WxxxxxxxxxxxxxxB" scores 0, so the search goes below it |
| Scenarios.BasicSearchExample | src/MiniMaxBlack.java:91-130 | at depth 1 the root value is -1, and the one logged leaf is "WxxxxxxxxxxxxxBx" with -1 |

## Left out

- Both `main` methods and all of `src/Main.java` are I/O and are not modelled:
  - reading the input line;
  - `Integer.parseInt` of the depth;
  - printing the result and the list size;
  - writing the output file.
- Object aliasing in the search is not modelled. In the code, an inner node
  reuses the last child's `Move` object and overwrites it with `setMove`
  (src/MiniMaxBlack.java:174, 196; src/MiniMaxImproved.java:144, 166). This
  overwrites entries already in the `moves` list. Results and list entries are
  immutable values here. The program only observes the list's size, and the
  model states the whole list: `EvaluateMovesFirst` appends exactly
  `Leaves` to it, so its size is exact. `LeafCount` bounds that size by
  [1, 16^depth].
- String symbols compared with `.equals` are modelled as the five-constructor
  `Cell` datatype. Input symbols outside the five are not modelled.
- Boards of any length other than 16 are not modelled: every operation
  requires a 16-cell board.
- A negative depth is not modelled: depth is a `nat`. With a negative depth the
  code never reaches its depth-0 test, and searches until a ±100 position or a
  stack overflow.
- `int` overflow is not modelled: values are unbounded integers. Every
  estimate and node value is proved within ±315 (`ValueBound`), far inside the
  32-bit range. The `Integer.MIN_VALUE` and `Integer.MAX_VALUE` sentinels are
  kept as constants.
- `SearchMoves` is not a Java method of its own. It is the loop that
  `evaluate_moves_first` and both branches of `evaluate_moves` share,
  extracted with its sentinel as a parameter.
