# Javascript-Playground in Dafny

A model of the puzzles and utilities of the Javascript-Playground repository, with proofs of what they do.

The main part is the sliding-tile puzzle of `slidePuzzle.js`:
- **Board.** An n×n board stored as a flat array of n² numbers, with 0 as the blank.
- **Validation.** The constructor checks solvability with an inversion-parity rule.
- **Slides.** Four in-place slides move the tile next to the blank into it.
- **Heuristic.** `findH` estimates the moves left. It combines:
  - Manhattan distance plus linear conflicts, computed from scratch or updated incrementally after one slide;
  - Takahashi's inversion distance.
- **Search.** `_exploreStates` is a depth-bounded best-first search. `solve` calls it with thresholds that rise by 2.

The secondary parts:
- **Binary heaps.** `heapClass.js`, `heapClass.ts`, `heapify.js` and the copies inside `astar.ts`/`astar.js`.
- **Grid A\* search.** `astar.ts`/`astar.js`.
- **Rubik's cube.**
  - `RubikClass.js`: face, layer and whole-cube turns, plus move parsing.
  - `RubikSolver.js`: a second version of the face and outer-layer turns.
- **Matrix powers.** The memoised 2×2 matrix powers of `eulerproblem2.js`.
- **Polynomial fitting.** The finite-difference polynomial fitter of `findPolynomialFromSeries.js`. `PolyRecovery` proves that it recovers any polynomial of degree at most 10 from enough of its own values.
- **Nested arrays.** The nested-array generator and depth function of `genNDArray.js`.

**How the source's state is modelled.**
- **Objects updated in place become classes.** Their methods carry `modifies` clauses and are proved against functions on values:
  - `SlidePuzzles.SlidePuzzle`, over an `array<int>` board;
  - `Heaps.Heap`;
  - `RubikClass.RubikCube` and `RubikSolver.RubikCube`;
  - `MatrixPower.Memo`;
  - `PolySeries.Series` and `PolySeries.FractionList`.
- **Loops stay loops.** Each loop of the source is a method with its invariants. Examples:
  - the ring and strip loops of the cube (`CubeRingLoops`, `CubePathLoops`, `RubikClass.RubikCube.ReadLayer`);
  - the inversion scan;
  - the search loop;
  - the memo loop;
  - the fitting loop.
- **Numbers.** JavaScript numbers are unbounded `int`s. The fractions of `fraction.js` are `real`s. JavaScript's `%`, which truncates toward zero, is written out (`SlideHeuristic.JsRem`) where a negative operand occurs.
- **Shared layers.** `Wrappers`, `Arith`, `Seqs`, `IntSums`, `SlideBoard` and the `Cube*` modules hold shared datatypes, arithmetic and the geometry of boards and cubes.

## Model

| member | source | states |
|---|---|---|
| SlideBoard.Sqrt | slidePuzzle.js:119-129 | `_sqrt`: the side whose square is the length, or "Invalid size" exactly when no natural number squares to it |
| SlideBoard.Xor | slidePuzzle.js:64-66 | `_XOR` is true exactly when its arguments differ |
| SlideBoard.Opposite | slidePuzzle.js:688-760 | the slide that undoes a slide is a different slide on the same axis (R/L, U/D) |
| SlideBoard.ValidMoves | slidePuzzle.js:285-317 | `validMoves` lists the legal slides in the order R, L, U, D |
| SlideBoard.MoveAllowed | slidePuzzle.js:285-317 | R is listed exactly when the blank is off the first column, L exactly off the last column, U exactly off the last row, D exactly off the first row |
| SlideBoard.ValidMovesAreNeighbours | slidePuzzle.js:285-317 | a slide is listed exactly when the cell it pulls from is on the board and next to the blank |
| Seqs.Swap | slidePuzzle.js:137-139 | `_swapItems` (and the heaps' `swap`) exchanges the two entries, leaves every other entry alone and keeps the multiset |
| SlideBoard.SwapPermutation | slidePuzzle.js:137-139 | a swap keeps the board a permutation of 0..n²-1 |
| SlideBoard.PermutationHasEveryValue | slidePuzzle.js:12-33 | a permutation board holds every number below its length, so the constructor's blank search finds a blank |
| SlideBoard.SlideUndo | slidePuzzle.js:183-279 | the opposite slide is legal from the new blank and restores both the board and the blank index |
| SlideBoard.Colour | slidePuzzle.js:622-627 | the colour `solve` computes for odd and even sides is 0 or 1 |
| SlideBoard.ColourIsCheckerboard | slidePuzzle.js:622-627 | that colour is the parity of row plus column in both branches |
| SlideBoard.SlideFlipsColour | slidePuzzle.js:183-279 | every legal slide moves the blank to the other colour |
| SlideBoard.GoalBlankColour | slidePuzzle.js:34-46 | the goal board's blank has colour 0 |
| SlideBoard.Replay | slidePuzzle.js:183-279 | a replay of slides that succeeds gives a board of the same size with the blank on it |
| SlideBoard.ReplayColour | slidePuzzle.js:622-641 | after a replay the blank's colour has changed by the parity of the number of slides |
| SlideBoard.ReplayKeepsBoard | slidePuzzle.js:183-279 | replaying keeps the board a permutation with the blank where the replay says |
| SlideBoard.InPlaceIsGoal | slidePuzzle.js:578-580 | `isSolved` (each cell holds its own number or the blank) holds on a permutation board exactly when it is the goal board |
| SlideBoard.SolutionParity | slidePuzzle.js:622-641 | every solution from blank `b` has the parity of `b`'s colour, which is why `solve` starts there and steps by 2 |
| SlideHeuristic.JsRem | slidePuzzle.js:360-368 | JavaScript's `%` agrees with the Euclidean one on non-negative operands and keeps the dividend's sign otherwise (the blank's goal column is -1) |
| SlideHeuristic.ManhattanLinearAtLeastManhattan | slidePuzzle.js:352-424 | the from-scratch `acc` is at least the Manhattan distance, which is never negative |
| SlideHeuristic.GoalScoresZero | slidePuzzle.js:348-424 | the goal board scores 0 |
| SlideHeuristic.ZeroScoreIsGoal | slidePuzzle.js:348-424 | a permutation board that scores 0 is the goal board |
| SlideInversions.NonZero | slidePuzzle.js:146-175 | the `appeared` list holds only non-blank entries of the board |
| SlideInversions.InversionsArePairs | slidePuzzle.js:146-175 | `_inversionCount` counts exactly the out-of-order pairs of non-blank tiles |
| SlideInversions.AscendingNoInversions | slidePuzzle.js:146-175 | a board whose tiles are in increasing order has no inversions |
| SlideInversions.InversionsOfNonZero | slidePuzzle.js:146-175 | the count depends only on the order of the non-blank tiles |
| SlideInversions.InversionsAtAgrees | slidePuzzle.js:146-175 | the index-based reading of the scan agrees with the accumulated count on every prefix |
| SlideInversions.Takahashi | slidePuzzle.js:540-568 | ⌊inv/(n-1)⌋ + inv mod (n-1) is at most `inv`, and 0 exactly when `inv` is 0 |
| SlideInversions.TransposeInvolution | slidePuzzle.js:51-55 | the column-major index map stays on the board and is its own inverse |
| SlideInversions.IdealHorPermutation | slidePuzzle.js:51-55 | `_idealHor` holds each of 1..n² exactly once |
| SlideInversions.HorView | slidePuzzle.js:146-175 | the horizontal reading has the board's length |
| SlideInversions.GoalInversions | slidePuzzle.js:146-175 | both readings of the goal board have no inversions |
| SlideInversions.FirstZero | slidePuzzle.js:91-96 | the `for … in` blank search: the index of the first blank, or none when there is none |
| SlideInversions.GoalSolvable | slidePuzzle.js:72-113 | the goal board passes the solvability rule |
| SlideIncremental.IncrementalAccExact | slidePuzzle.js:424-538 | the incremental `acc` after a slide along either axis equals the from-scratch `acc` of the new board |
| SlideIncremental.IncrementalIsExact | slidePuzzle.js:424-538 | after any legal slide, `findH`'s incremental branch gives the from-scratch `acc` of the new board |
| SlideIncremental.AdjacentBlankSwap | slidePuzzle.js:540-568 | exchanging the blank with its neighbour in a reading keeps the inversion count |
| SlideIncremental.SameTilesSameInversions | slidePuzzle.js:146-175 | boards with the same tiles in the same order have the same count |
| SlideIncremental.RowSlideKeepsInversions | slidePuzzle.js:540-568 | a left or right slide keeps the row-major count, so the carried `vert` equals a fresh count |
| SlideIncremental.ColumnSlideKeepsHorInversions | slidePuzzle.js:540-568 | an up or down slide keeps the column-major count, so the carried `hor` equals a fresh count |
| SlidePuzzles.ValidBoardAccepted | slidePuzzle.js:774-775 | the valid example board (62 inversions, blank third row from the bottom) passes the rule |
| SlidePuzzles.InvalidBoardRejected | slidePuzzle.js:774-775 | the invalid example board (56 inversions, blank second row from the bottom) fails the rule |
| SlidePuzzles.GoalPermutation | slidePuzzle.js:34-46 | the goal board is a permutation whose only blank is the last cell |
| SlidePuzzles.CountAbove | slidePuzzle.js:160-166 | the `reduce` over `appeared` counts the entries above the tile |
| SlidePuzzles.InversionCount | slidePuzzle.js:146-175 | `_inversionCount` returns the inversions of the board, or of its relabelled column-major reading in horizontal mode |
| SlidePuzzles.FindBlank | slidePuzzle.js:23-29 | the constructor's loop finds the first blank |
| SlidePuzzles.ValidatePuzzle | slidePuzzle.js:72-113 | "Invalid size" when the length is not a square, otherwise whether the board passes the parity rule (even inversions on odd sides; XOR of blank row from the bottom odd and inversions odd on even sides) |
| SlidePuzzles.BestIndex | slidePuzzle.js:614-615 | the state popped from the frontier has no state before it in the order max g, then min f |
| SlidePuzzles.NodeCostBounds | slidePuzzle.js:672-683 | every state on the frontier has h ≥ acc ≥ 0 and f ≥ g |
| SlidePuzzles.FoundIsGoal | slidePuzzle.js:683 | a state of heuristic 0 is the goal board, and its moves solve the root board |
| SlidePuzzles.ChildOk | slidePuzzle.js:688-765 | a child made by a legal slide that does not undo the last one keeps the frontier invariant |
| SlidePuzzles.ChildBoard | slidePuzzle.js:688-765 | the child's board is a permutation with the blank where the tile was, and the extended moves replay to it |
| SlidePuzzles.ChildPath | slidePuzzle.js:688-765 | extending the moves keeps them free of reversals |
| SlidePuzzles.WeightRemove | slidePuzzle.js:672-680 | popping a state takes its weight off the frontier's, the measure that makes `_exploreStates` terminate |
| SlidePuzzles.SlidePuzzle.MakeIdealHor | slidePuzzle.js:51-55 | the constructor's loop fills `_idealHor` as the column-major relabelling table |
| SlidePuzzles.SlidePuzzle.OfSize | slidePuzzle.js:34-46 | `new SlidePuzzle(n)` holds [1, …, n²-1, 0] with the blank at n²-1 |
| SlidePuzzles.SlidePuzzle.FromBoard | slidePuzzle.js:12-33 | the array branch keeps the caller's array and finds its first blank |
| SlidePuzzles.SlidePuzzle.Create | slidePuzzle.js:9-33 | "invalid state" when verification is on and the rule rejects the board, "Invalid size" when the length is not a square, otherwise an instance over the caller's array |
| SlidePuzzles.SlidePuzzle.SlideArray | slidePuzzle.js:183-279 | a slide on a supplied array swaps the tile into the blank and returns the new blank when listed, and otherwise throws "invalid move" and leaves the array alone |
| SlidePuzzles.SlidePuzzle.UpdateValidMoves | slidePuzzle.js:285-317 | `validMoves()` stores the legal slides of the current blank and changes nothing else |
| SlidePuzzles.SlidePuzzle.Slide | slidePuzzle.js:183-279 | a legal slide on the instance's own board moves the tile and the blank and keeps the board a permutation; an illegal one throws and changes nothing; the scores h, md, invVert, invHor, g and f are never touched |
| SlidePuzzles.SlidePuzzle.FindH | slidePuzzle.js:348-575 | from scratch, `acc` is Manhattan plus conflicts; otherwise the incremental update. Only the inversion score of the moved axis is recomputed, and `h` is max(acc, vert + hor) |
| SlidePuzzles.SlidePuzzle.Child | slidePuzzle.js:688-708 | a child has g + 1, the parent's moves plus the slide, and scores that match its board |
| SlidePuzzles.SlidePuzzle.Expand | slidePuzzle.js:688-765 | each of the four blocks pushes at most one valid child and adds at most its weight |
| SlidePuzzles.SlidePuzzle.ExploreStates | slidePuzzle.js:650-769 | the search terminates; a returned state is the goal board reached by legal, non-reversing moves within the bound, whose number has the parity of the blank's colour |
| SlidePuzzles.SlidePuzzle.Solve | slidePuzzle.js:603-642 | `solve` records the from-scratch scores (with `hor` 0); a returned state solves the board without reversals, in a number of moves of the start colour's parity |
| HeapOrder.ParentIndex | heapClass.js:91-102 | (i+1 - (i+1)%2)/2 - 1 is the parent slot: i is one of its two children |
| HeapOrder.AlmostUpStep | heapClass.js:91-102 | one bubbling step moves the only defect of a heap one level up |
| HeapOrder.AlmostDownStep | heapClass.js:17-48 | one sinking step moves the only defect of a heap one level down |
| HeapOrder.RootIsBest | heapClass.js:7-16 | the root of a heap has the largest rank, so `pop` returns the maximum, or the minimum for "min" |
| HeapOrder.RootDominates | heapClass.js:7-16 | every element of a heap is dominated by the root |
| HeapOrder.IsValidHeap | heapClass.js:103-119 | `isValidHeap` as written accepts every heap |
| HeapOrder.IsValidHeapMissesRightChild | heapify.js:85-92 | as written, the check accepts [5, 4, 9], which is no max-heap |
| HeapOrder.IsValidHeapBothChildrenExact | heapClass.ts:110-117 | with the right child compared too, the check accepts exactly the heaps |
| HeapOrder.DrainStep | heapClass.js:123-132 | popping the root of a heap continues a drain in rank order |
| Heaps.Heap.constructor | heapClass.js:2-6 | the heap holds the given array, order and compared key |
| Heaps.Heap.Compare | heapClass.js:49-86 | `_compare` is strict without `equals` and non-strict with it, on the key, for either order |
| Heaps.Heap.Insert | heapClass.js:87-90 | `insert` adds exactly one element and keeps a heap a heap |
| Heaps.Heap.BubbleUp | heapClass.js:91-102 | `_bubbleUp` keeps the elements and repairs a heap whose only defect is at the start slot |
| Heaps.Heap.PopOrUndefined | heapify.js:7-13 | `pop` of `heapify.js`: undefined on an empty heap, otherwise the old root, with one copy of it removed and the heap kept |
| Heaps.Heap.Pop | heapClass.js:7-16 | `pop` throws "Error popping heap" on an empty heap, otherwise returns the old root, removes one copy of it and keeps the heap |
| Heaps.Heap.Heapify | heapClass.js:17-48 | `_heapify` keeps the elements and repairs a heap whose only defect is at the start slot |
| Heaps.Heap.InitHeapify | heapClass.js:133-144 | `_initHeapify` rebuilds a heap of the same elements |
| Heaps.Heap.Sort | heapClass.js:123-132 | `sort` returns every element in rank order and leaves the heap empty |
| Heaps.Heap.Rekey | astar.ts:285-288 | a change of the compared field of stored nodes keeps the array and changes only the key |
| HeapFixtures.MaxFixtureValid | heapClass.test.js:41-44 | the max-heap fixture passes `isValidHeap` |
| HeapFixtures.MinFixtureInvalidAsMax | heapClass.test.js:46-49 | the min-heap fixture fails `isValidHeap` as a max-heap |
| HeapFixtures.PopFixture | heapClass.test.js:23-27 | popping the max-heap fixture yields 150 |
| HeapFixtures.SortMaxFixture | heapClass.test.js:29-33 | sorting the max-heap fixture yields its elements largest first |
| HeapFixtures.SortMinFixture | heapClass.test.js:35-39 | sorting the min-heap fixture yields its elements smallest first |
| HeapFixtures.InsertMaxFixture | heapClass.test.js:51-55 | inserting 300 into the max-heap fixture keeps it valid |
| HeapFixtures.InsertMinFixture | heapClass.test.js:57-61 | inserting -1 into the min-heap fixture keeps it valid |
| HeapFixtures.SizeFixture | heapClass.test.js:63-67 | a heap over r zeros has size r |
| GridSearch.Taxicab | astar.ts:222-230 | the taxicab distance is 0 exactly when the positions are equal |
| GridSearch.TaxicabSymmetric | astar.js:194-200 | the distance is symmetric |
| GridSearch.TaxicabTriangle | astar.ts:222-230 | the distance obeys the triangle inequality |
| GridSearch.UnitDistance | astar.ts:202-220 | the cells at distance 1 are the four orthogonal neighbours |
| GridSearch.FindNeighbors | astar.ts:202-220 | `findNeighbors` returns at most four cells, exactly the in-grid cells at distance 1 |
| GridSearch.NeighbourList | astar.js:176-193 | the neighbours come in the order up, down, left, right |
| GridSearch.TraverseNode | astar.ts:232-240 | `traverseNode` as written ends with the node's own field and reports a cost for every ancestor |
| GridSearch.TraverseNodeReportsCost | astar.js:201-210 | on a one-link chain, asking for positions yields the parent's cost, not its position |
| GridSearch.Path | astar.ts:232-240 | the chain as evidently meant: positions from the root of the parent chain down to the node, each linked to the one before |
| GridSearch.PathIsWalk | astar.ts:256-258 | along links between neighbours, that chain is a walk of unit steps |
| GridSearch.PathOfRoot | astar.ts:237 | a node without a parent is reported alone |
| GridSearch.Initial | astar.ts:243-250 | the start's g is its cost and f = g + h: the records start consistent |
| GridSearch.VisitShrinks | astar.ts:276-280 | a first visit shrinks the set of unvisited cells, the measure of the inner loop |
| GridSearch.ConsiderNeighbour | astar.ts:265-292 | closed and wall neighbours are skipped; a first visit computes h; a relaxation gives g = current g + cost and f = g + h; the end (h = 0) is never linked |
| GridSearch.Expand | astar.ts:261-293 | closing a popped cell and considering its neighbours keeps the records consistent and the open list described |
| GridSearch.SearchStep | astar.ts:252-259 | popping the end reports the one-cell path and its f, which happens only when start is end |
| GridSearch.Search | astar.ts:242-296 | `search` terminates and finds a path exactly when start equals end |
| GridSearch.DefaultEnd | astar.ts:298 | the default end as written puts the row count in the column slot |
| GridSearch.DefaultEndOffGrid | astar.js:255-261 | on the one-row grid [[1, 1]] that default end is off the grid |
| GridSearch.BottomRight | astar.ts:298 | the bottom-right cell, on the grid whenever the grid is rectangular and non-empty |
| GridSearch.DefaultEndOnSquareGrid | astar.ts:298 | on square grids the default end as written is the bottom-right cell |
| GridSearch.SearchFrom | astar.ts:242-244 | a search from a start to an end succeeds exactly when both lie on the grid, and then finds a path exactly when they are equal |
| GridSearch.Run | astar.ts:298-303 | `run` as written: it succeeds exactly when the start (default top-left) and the end (default `DefaultEnd`, row count in the column slot) lie on the grid, and an empty grid without an end fails |
| GridSearch.FixedRun | astar.ts:298-303 | `run` with the corrected default end `BottomRight`: without a start or end it always reaches the search on a rectangular non-empty grid |
| CubeCells.PutAt | RubikClass.js:168-179 | one sticker assignment changes that cell and no other |
| CubeCells.GatherScatter | RubikClass.js:142-181 | reading back a path of distinct cells just written yields what was written |
| CubeCells.ScatterGather | RubikClass.js:142-181 | writing back what a path holds changes nothing |
| CubeCells.ScatterOff | RubikClass.js:168-179 | a write along a path leaves every other cell alone |
| CubeTurns.RotRightCompose | RubikClass.js:315-326 | rotating a list by a and then by b rotates it by a + b |
| CubeTurns.RotRightMultiset | RubikClass.js:315-326 | a rotation keeps the items |
| CubeTurns.ScatterStickers | RubikClass.js:142-181 | a write along distinct cells trades the stickers overwritten for those written |
| CubeTurns.TurnPathAt | RubikClass.js:142-181 | after turning a path by m, each cell holds what the cell m places before it held |
| CubeTurns.TurnPathStickers | RubikClass.js:142-181 | turning a path keeps the cube's stickers |
| CubeFaces.RingsSeparate | RubikClass.js:144-160 | the rings of a face lie on the cube and share no cell |
| CubeFaces.Quarters | RubikClass.js:95-103 | the direction and `twice` flags give ±1 or ±2 quarter turns |
| CubeFaces.TurnFaceRing | RubikClass.js:142-181 | a face turn moves ring i by s - 1 - 2i places per quarter turn |
| CubeFaces.TurnFaceOnlyFace | RubikClass.js:142-181 | a face turn changes only that face |
| CubeFaces.TurnFaceInverse | RubikClass.js:142-181 | clockwise and counter-clockwise turns of the same kind undo each other |
| CubeFaces.TurnFaceFour | RubikClass.js:142-181 | four clockwise quarter turns restore the cube |
| CubeFaces.TurnFaceTwice | RubikClass.js:162-165 | a half turn is two quarter turns |
| CubeFaces.TurnFaceStickers | RubikClass.js:142-181 | a face turn keeps the cube's stickers |
| CubeSpin.TurnFaceCell | RubikClass.js:142-181 | after a face turn each cell of the face holds what its source cell held |
| CubeSpin.SpinSlot | RubikClass.js:332-433 | a face turn replaces that face's grid by its spun grid, whatever the slot |
| CubeSpin.SpinCompose | RubikClass.js:332-433 | spins add up |
| CubeSpin.SpinStickers | RubikClass.js:332-433 | a spin keeps the face's stickers |
| CubePathLoops.ReadPath | RubikClass.js:201-262 | pushing the stickers of a path appends them in path order |
| CubePathLoops.WritePath | RubikClass.js:277-311 | writing `list.shift()` into each cell of a path writes the list's first part along it |
| CubeRingLoops.RingSides | RubikClass.js:144-160 | the four side loops visit exactly the cells of the ring, in ring order |
| CubeRingLoops.ReadRing | RubikClass.js:146-160 | the four push loops read ring i in ring order |
| CubeRingLoops.WriteRing | RubikClass.js:167-179 | the four shift loops write the list back along the ring |
| RubikMoves.LogicXor | RubikClass.js:44-46 | `logicXor` is exclusive or |
| RubikMoves.RotateList | RubikClass.js:315-326 | `_rotateList` keeps the length and the items |
| RubikMoves.RotateListRotates | RubikClass.js:315-326 | clockwise it moves the last k items to the front; counter-clockwise it moves the first k to the back |
| RubikMoves.RotateListInverse | RubikClass.js:315-326 | the two directions with the same size undo each other, whatever the size |
| RubikMoves.PartnersAxis | RubikClass.js:184-189 | a layer turn about face f crosses the four faces off f's axis, in increasing order |
| RubikMoves.ReadStrip | RubikClass.js:201-262 | the read path of a layer has 4s distinct cells on the cube |
| RubikMoves.SegmentOrder | RubikClass.js:201-311 | each partner's cells are written in the order read or the reverse, the same order off faces 1 and 4 |
| RubikMoves.TurnListRotates | RubikClass.js:264-275 | the list is rotated by s places per quarter turn |
| RubikMoves.TurnLayerShifts | RubikClass.js:183-313 | a layer turn writes the read stickers rotated by the layer's shift along the write path |
| RubikMoves.StripStickers | RubikClass.js:183-313 | the read and write paths hold the same stickers |
| RubikMoves.TurnLayerStickers | RubikClass.js:183-313 | a layer turn keeps the cube's stickers |
| RubikMoves.TurnLayerOff | RubikClass.js:183-313 | a layer turn leaves every cell off the strip alone |
| RubikMoves.StripCells | RubikClass.js:183-313 | every written cell is on a partner face, in the turned layer |
| RubikMoves.TurnLayerInverse | RubikClass.js:183-313 | off faces 1 and 4, a layer turn and the opposite turn undo each other |
| RubikMoves.FrontLayerTurnBack | RubikClass.js:219-232 | as written, the outer layer about face 1 turned and turned back is not restored when face 0's last row has different ends |
| RubikMoves.FixedTurnLayerAgrees | RubikClass.js:183-313 | the layer turn written back along its read path agrees with the source off faces 1 and 4 |
| RubikMoves.FixedTurnLayerInverse | RubikClass.js:183-313 | with that fix every layer turn is undone by the opposite turn |
| RubikMoves.FixedTurnLayerStickers | RubikClass.js:183-313 | the fixed turn keeps the cube's stickers |
| RubikCommands.DecimalValueOf | RubikClass.js:119-127 | a layer number written in decimal reads back as itself |
| RubikCommands.ParseCommand | RubikClass.js:87-104 | input that does not match the move pattern throws "invalid"; a parsed layered move names a face and a layer |
| RubikCommands.ParseCommandText | RubikClass.js:87-127 | reading back a written move gives the same move, whatever follows it that is not `'` or `2` |
| RubikCommands.FaceLayerCommute | RubikClass.js:134-140 | the face turn and the layer turn of one move commute |
| RubikCommands.FaceLayerTurnInverse | RubikClass.js:134-140 | off faces 1 and 4, a move and the opposite move undo each other |
| RubikCommands.FrontMoveNotUndone | RubikClass.js:87-140 | as written, `rotate("F")` then `rotate("F'")` does not restore a cube whose face 0 has different stickers at the ends of its last row |
| RubikCommands.PerformStickers | RubikClass.js:87-132 | every parsed move keeps the cube's stickers |
| RubikCommands.FixedFaceLayerTurnAgrees | RubikClass.js:134-140 | the fixed move agrees with the source off faces 1 and 4 |
| RubikCommands.FixedFaceLayerTurnInverse | RubikClass.js:134-140 | with the fix every move is undone by the opposite move |
| RubikReorient.ParseReorientation | RubikClass.js:332-347 | a parsed whole-cube turn starts with x, y or z |
| RubikReorient.ParseReorientationText | RubikClass.js:332-347 | reading back a written whole-cube turn gives the same turn, whatever follows it that is not `'` or `2` |
| RubikReorient.ParseReorientationRefuses | RubikClass.js:336 | an input is refused exactly when it is empty or does not start with x, y or z |
| RubikReorient.Reoriented | RubikClass.js:332-433 | a whole-cube turn gives a cube of the same size |
| RubikReorient.ReorientedInverse | RubikClass.js:332-433 | a quarter turn of the cube and the opposite quarter turn undo each other, about every axis |
| RubikReorient.ReorientedTwice | RubikClass.js:332-433 | a half turn of the cube is two quarter turns |
| RubikReorient.ReorientedStickers | RubikClass.js:332-433 | turning the whole cube keeps its stickers |
| RubikClass.SolvedTurnFace | RubikClass.js:48-64 | a face turn keeps a solved cube solved |
| RubikClass.RingsTurnedAll | RubikClass.js:144-180 | turning every ring of a face in turn is the face turn |
| RubikClass.RingListTurn | RubikClass.js:161-166 | turning a ring's list as `rotateFace` does rotates it by the ring's steps |
| RubikClass.TurnRing | RubikClass.js:145-180 | one pass of `rotateFace`'s loop turns ring i by its steps |
| RubikClass.PartnerFaces | RubikClass.js:184-189 | the loop collects the faces off f's axis |
| RubikClass.RubikCube.constructor | RubikClass.js:11-36 | the cube holds its six faces of one size |
| RubikClass.RubikCube.CheckIfSolved | RubikClass.js:48-64 | `checkIfSolved` is true exactly when every face shows one colour |
| RubikClass.RubikCube.RotateFace | RubikClass.js:142-181 | `rotateFace` turns face f by its quarter turns |
| RubikClass.RubikCube.SpinFace | RubikClass.js:142-181 | seen from the whole cube, face f's grid is spun and the other faces stay |
| RubikClass.RubikCube.ReadLayer | RubikClass.js:201-262 | the first half of `rotateLayer` reads the partners' segments into one list |
| RubikClass.RubikCube.WriteLayer | RubikClass.js:277-311 | the second half writes the list along the write path |
| RubikClass.RubikCube.RotateLayer | RubikClass.js:183-313 | `rotateLayer` is the layer turn of the model |
| RubikClass.RubikCube.RotateFaceLayer | RubikClass.js:134-140 | the face turns too when layer 1 moves, then the layer turns |
| RubikClass.RubikCube.Rotate | RubikClass.js:87-132 | "invalid" leaves the cube; a numbered U, F, D or B move whose layer is not on the cube fails with the cube unchanged (the row `rotateLayer` reads first is undefined); otherwise the parsed move is performed, and a lower-case face turns layers 1..s/2 |
| RubikClass.RubikCube.RotateWide | RubikClass.js:105-117 | the lower-case branch turns layers 1, 2, … up to half the size |
| RubikClass.RubikCube.RotateCube | RubikClass.js:332-433 | "invalid rotation" leaves the cube; otherwise the cube is turned as a whole |
| RubikClass.RubikCube.RotateX | RubikClass.js:349-375 | the x branch turns the cube about the L–R axis |
| RubikClass.RubikCube.RotateY | RubikClass.js:376-396 | the y branch turns the cube about the U–D axis |
| RubikClass.RubikCube.RotateZ | RubikClass.js:397-431 | the z branch turns the cube about the F–B axis |
| RubikSolver.PopUnshift | RubikSolver.js:89-91 | `pop` then `unshift` rotates the list one place right |
| RubikSolver.ShiftPush | RubikSolver.js:92-95 | `shift` then `push` rotates it one place left |
| RubikSolver.ShiftList | RubikSolver.js:153-162 | n passes of the inner loop rotate the list n places, right when clockwise and left otherwise |
| RubikSolver.ShiftTwice | RubikSolver.js:152-165 | the `continue`/`break` loop turns once, or twice when `twice` is set |
| RubikSolver.ShiftPasses | RubikSolver.js:84-97 | `temp` passes of `size` shifts turn the layer once or twice |
| RubikSolver.ShiftRing | RubikSolver.js:134-180 | one pass of `rotateFace`'s loop turns ring i by its steps |
| RubikSolver.SolverSegmentOrder | RubikSolver.js:40-127 | each partner's cells are written in the order read or the reverse |
| RubikSolver.SolverTurnLayerShifts | RubikSolver.js:82-97 | the strip is rotated by s places per quarter turn, in the direction `logicXor(f % 3 == 1, f >= 3)` flips |
| RubikSolver.SolverStripCells | RubikSolver.js:40-127 | the layer turn writes exactly the cells it read |
| RubikSolver.SolverFaceLayerTurnStickers | RubikSolver.js:27-130 | `rotateFaceLayer` keeps the cube's stickers |
| RubikSolver.SolverTurnLayerOff | RubikSolver.js:40-127 | every cell off the strip keeps its sticker |
| RubikSolver.SolverTurnLayerAgrees | RubikSolver.js:27-130 | off faces 2 and 5 the layer turn is the outer-layer turn of `RubikClass.js` |
| RubikSolver.SideLayerTurnBack | RubikSolver.js:74-78 | as written, the outer layer about face 2 turned and turned back is not restored when face 0's first column has different ends |
| RubikSolver.ReadSolverLayer | RubikSolver.js:41-80 | the first partner loop reads the strip into one list |
| RubikSolver.WriteSolverLayer | RubikSolver.js:99-127 | the second partner loop writes the list along the write strip |
| RubikSolver.RubikCube.constructor | RubikSolver.js:2-14 | the cube holds its six faces of one size |
| RubikSolver.RubikCube.RotateFace | RubikSolver.js:132-181 | `rotateFace` turns face f by its quarter turns |
| RubikSolver.RubikCube.RotateFaceLayer | RubikSolver.js:27-130 | `rotateFaceLayer` turns the face and then its outer layer |
| MatrixPower.Product | eulerproblem2.js:23-59 | the product of an m×n and an n×p matrix is m×p |
| MatrixPower.MatrixMult | eulerproblem2.js:23-59 | `matrixMult` returns the product entry by entry, or "error: incompatible matrices" when the inner dimensions differ |
| MatrixPower.ProductGrid | eulerproblem2.js:23-59 | on 2×2 arrays the program's product is the matrix product |
| MatrixPower.PowAdd | eulerproblem2.js:62-87 | powers of one matrix add their exponents |
| MatrixPower.ToBinary | eulerproblem2.js:104-108 | `toBinary` returns at least one digit |
| MatrixPower.BinaryDigits | eulerproblem2.js:104-108 | the digits are bits, most significant first, led by 1 unless the number is 0, and their value is the number |
| MatrixPower.SquareStep | eulerproblem2.js:97 | squaring memo entry i - 1 gives start^(2^i) |
| MatrixPower.StoreSquare | eulerproblem2.js:90-101 | storing start^(2^i) at slot i keeps every memo entry a power and keeps the entries already there |
| MatrixPower.NextSquare | eulerproblem2.js:97 | the program's square of entry i - 1 is start^(2^i) |
| MatrixPower.ExpStep | eulerproblem2.js:81-83 | multiplying the running total by entry k adds 2^k to the exponent |
| MatrixPower.MultiplyIn | eulerproblem2.js:81-83 | the program's product of the running total with entry k is twice start^(e + 2^k) |
| MatrixPower.Memo.constructor | eulerproblem2.js:18-20 | the memo starts as [start] |
| MatrixPower.Memo.AddToMemo | eulerproblem2.js:90-101 | `addToMemo` fills the missing entries up to `ind` with powers of start and keeps those that were there |
| MatrixPower.Memo.MatrixExp | eulerproblem2.js:62-87 | `matrixExp(p)` is twice start^p, since its "identity" is 2·I; the memo only grows |
| MatrixPower.FibTriple | eulerproblem2.js:1-18 | F(k+6) = 4·F(k+3) + F(k), the recurrence `start` encodes |
| MatrixPower.EvenFibonacci | eulerproblem2.js:1-18 | twice start^n holds F(3n+3), F(3n) and F(3n-3): every third Fibonacci number, the even ones |
| PolySeries.EvalSnoc | findPolynomialFromSeries.js:79-84 | appending a constant term multiplies the polynomial by x and adds the term |
| PolySeries.Horner | findPolynomialFromSeries.js:79-84 | `horner` evaluates Σ poly[j]·x^(len-1-j) and leaves only the leading coefficient in the array it pops |
| PolySeries.SeriesOf | findPolynomialFromSeries.js:64-71 | [P(1), …, P(n)] has n terms, none when n is not positive |
| PolySeries.GeneratePolySeries | findPolynomialFromSeries.js:64-71 | `generatePolySeries` returns P(1), …, P(n), and the caller's coefficients survive because each `horner` gets a copy |
| PolySeries.Fact | findPolynomialFromSeries.js:50-56 | every factorial is at least 1 |
| PolySeries.GenerateFactorials | findPolynomialFromSeries.js:50-56 | `generateFactorials(n)[i]` is i! for 0 ≤ i ≤ n, and [1] when n < 1 |
| PolySeries.DiffSnoc | findPolynomialFromSeries.js:35-40 | extending a series extends its differences by the new step |
| PolySeries.FindDegree | findPolynomialFromSeries.js:31-44 | `findDegree`'s loop and recursion compute the degree function of the model |
| PolySeries.DegreeOfFound | findPolynomialFromSeries.js:31-44 | it fails exactly on the empty series; otherwise the reported depth's difference series is constant and its first entry is the coefficient |
| PolySeries.DegreeOfFirst | findPolynomialFromSeries.js:31-44 | no shallower difference series is constant |
| PolySeries.ArithmeticDegree | findPolynomialFromSeries.js:31-44 | an arithmetic progression of two or more terms has degree 1 and its step as coefficient |
| PolySeries.DiffPrefixSums | findPolynomialFromSeries.js:172-174 | differencing the running sums gives back the series without its first term |
| PolySeries.RoundFails | findPolynomialFromSeries.js:131-139 | a round fails only on an empty residual or on a degree outside the factorial table |
| PolySeries.FitMeaning | findPolynomialFromSeries.js:121-160 | `findPolynomial` fails only on an empty series or a degree past 10; otherwise it places coefficients, keeps the residual, and stops at degree 0 or after the 20th count |
| PolySeries.FitExact | findPolynomialFromSeries.js:149-153 | a zero residual means the coefficients reproduce the series |
| PolySeries.Subtract | findPolynomialFromSeries.js:150-153 | the loop takes the polynomial's values off the series entry by entry |
| PolySeries.PlayRound | findPolynomialFromSeries.js:131-153 | one loop body is one round of the fit |
| PolySeries.FitLoop | findPolynomialFromSeries.js:128-154 | the `do … while (degree)` loop with its counter computes the fit |
| PolySeries.Series.Init | findPolynomialFromSeries.js:9-11 | an instance holds the given coefficients and series |
| PolySeries.Series.FindPolynomial | findPolynomialFromSeries.js:121-160 | it succeeds exactly when the fit does and then stores its coefficients, reporting when the 20-round cap was hit; a throw leaves `_poly` alone |
| PolySeries.Series.FindSummationPoly | findPolynomialFromSeries.js:165-178 | the series is replaced in place by its running sums, then fitted |
| PolySeries.Series.ExpandSeries | findPolynomialFromSeries.js:184-194 | the series becomes the first n values of the held polynomial, fitting one first when none is held |
| PolySeries.NewSeries | findPolynomialFromSeries.js:9-23 | 'polynomial' fills the coefficients, 'series' the terms, and anything else throws "Invalid type" |
| PolyRecovery.EvalVal | findPolynomialFromSeries.js:79-84 | the leading-first value Σ poly[j]·x^(len-1-j) is Horner's rule from the constant term of the reversed list |
| PolyRecovery.ValDelta | findPolynomialFromSeries.js:35-37 | P(t + 1) - P(t) is the value at t of the forward difference `Delta(P)`, a polynomial one degree lower |
| PolyRecovery.DiffS | findPolynomialFromSeries.js:35-37 | differencing the samples P(1), …, P(n) gives the samples of `Delta(P)` |
| PolyRecovery.DeltaExact | findPolynomialFromSeries.js:35-37 | differencing a polynomial of exact degree e ≥ 1 leaves exact degree e - 1 with top coefficient e times the old one |
| PolyRecovery.DegreeOfTop | findPolynomialFromSeries.js:31-44 | on at least e + 1 samples of a polynomial of exact degree e ≥ 1, `findDegree` reports degree e and coefficient e! times the top coefficient |
| PolyRecovery.DegreeOfFlat | findPolynomialFromSeries.js:31-44 | on the samples of a constant, `findDegree` reports its starting degree with coefficient 0 |
| PolyRecovery.FirstRound | findPolynomialFromSeries.js:129-153 | the first round succeeds, sizes the list by the polynomial's degree (2 for a constant) and places the top coefficient |
| PolyRecovery.NextRound | findPolynomialFromSeries.js:129-153 | every later round succeeds, lowers the degree, and leaves the list equal to the polynomial from that degree up and zero below |
| PolyRecovery.RoundsFinish | findPolynomialFromSeries.js:128-154 | from a tracking state the loop ends at degree 0 without failing |
| PolyRecovery.TrackedZero | findPolynomialFromSeries.js:149-153 | once the degree reaches 0 the recomputed residual is all zero |
| PolyRecovery.FitRecovers | findPolynomialFromSeries.js:119-160 | on the first n values of a polynomial of degree d ≤ 10 with n ≥ d + 1, `findPolynomial` succeeds before the 20-round cap, at degree 0, with a zero residual and coefficients that agree with the polynomial at every x |
| NdArray.GenerateShaped | genNDArray.js:1-7 | a generated grid has n levels of l children, and every leaf is an integer from 0 to 99 |
| NdArray.ShapedDepth | genNDArray.js:12-16 | the depth of such a grid is n when l ≥ 1; with no children `findDepth` fails on `undefined` |
| NdArray.GeneratedDepth | genNDArray.js:12-16 | `findDepth(generateNDimensionalSquareGrid(n, l))` is n for every draw of the leaves once l ≥ 1 |

## Left out

- Demo, timing and logging code is left out because it is console output and wall-clock timing:
  - the demo at slidePuzzle.js:774-796 (its two boards are kept as `SlidePuzzles.ValidBoard` and `SlidePuzzles.InvalidBoard`);
  - RubikSolver.js:184-211, heapify.js:95-107, eulerproblem2.js:117-137, findPolynomialFromSeries.js:199-206, genNDArray.js:9-10 and 18;
  - `print` in both cube files and `printPolynomial`;
  - the "could not be determined" log, which is reported as the `gaveUp` result instead.
- `shuffle` is left out because it draws from `Math.random` and clamps a floating-point variance.
- The frontier's heap module is not part of this model. The frontier is a sequence, and a pop takes any state that comes first in the order "largest g, then smallest f".
- `_sqrt` is an exact integer square root. Its floating-point tolerance only matters for lengths far beyond any board.
- `fibo` is left out because it uses `Math.log` and `Math.sqrt`.
- The Fraction values of `fraction.js` are `real`s, and the library's parsing is not part of this model. Two behaviours of it are assumed:
  - `new Fraction(undefined)` is 0.
  - A division by `factorials[degree]` outside the table throws "Division by Zero".
- The empty `findH` stub of the cube class and the trivial getters are left out.
- Positions of the grid search are integer pairs, not "x,y" strings. `init` and the node objects are records in maps keyed by position. The heap's key is reassigned whenever f changes (`Heaps.Heap.Rekey`), in place of the in-place change to objects the heap holds.
- The `aStar` wrapper returns nothing and is left out; its inner functions are modelled.
- SlidePuzzles.SlidePuzzle.Solve: the search loop of `solve` has no upper bound on the threshold, so the method takes a `fuel` bound on the number of thresholds and returns none when the bound runs out.
- SlidePuzzles.SlidePuzzle.FindH: requires n ≥ 2, because for n = 1 the source divides by n - 1 = 0.
- SlidePuzzles.SlidePuzzle.Create: requires the board to be a permutation of 0..n²-1, which the source never checks.
- SlidePuzzles.SlidePuzzle.Create: with verification skipped, an empty array is accepted by the source and gives an instance with no blank and size 0; the model requires a non-empty board in that case, because such an instance breaks the class invariant (a blank on a board of side at least 1).
- SlidePuzzles.SlidePuzzle.OfSize: requires n ≥ 1. `new SlidePuzzle(0)` builds an empty board whose blank index is -1, and a negative number builds a board of n² cells with that negative number as its size; such instances break the class invariant and are outside this model.
- The constructor's "invalid input" branch for an argument that is neither an array nor a number is left out, because the model's arguments are typed.
- PolySeries.Horner: requires at least one coefficient. On an empty list the source pops `undefined` and recurses without end.
- NdArray.GenerateShaped: the dimension is a natural number. With a negative dimension and a positive side length the source recurses without end; with a side length of 0 or less `Array.from` never calls back and the source returns `[]` for every non-zero dimension, negative ones included; the model does not cover negative dimensions in that case either.
- The leaves of `generateNDimensionalSquareGrid` come from a draw function `rand` in [0, 1), given as a parameter keyed by leaf position, in place of `Math.random`.
- MatrixPower.MatrixMult: requires non-empty matrices with rows of equal length. The source reads `mat1[0].length` and fails on an empty matrix.
- HeapOrder.IsValidHeap: the source returns `[true]` at a leaf, which is truthy; the model returns `true`.
- `heapClass.ts` and `heapify.js` repeat `heapClass.js` line for line apart from `pop` on an empty heap, so one class `Heaps.Heap` models all three. The same goes for the heap copies in `astar.ts` and `astar.js`.
- RubikClass.RubikCube.Rotate: requires that a numbered L or R move names a layer on the cube. The regex also accepts "0R" or "4L" on a 3-cube; `rotateLayer` then reads missing stickers as `undefined` and writes them at column -1 or at column s and beyond, lengthening face rows without an error. Faces of ragged rows are outside this model.
- The cube class methods follow the source as written, including the two layer turns that do not undo (see Findings). The corrected turns are proved beside them.

## Findings

| source | as written | input that shows it | evidently intended | confidence | as-written member | corrected member |
|---|---|---|---|---|---|---|
| heapClass.js:103-119 | `isValidHeap` compares each slot with its left child only | the max-heap [5, 4, 9] passes the check | compare both children, so the check accepts exactly the heaps | high; not executed | HeapOrder.IsValidHeapMissesRightChild | HeapOrder.IsValidHeapBothChildrenExact |
| astar.ts:232-240 | the recursive call of `traverseNode` drops `prop`, so every ancestor reports its cost | `traverseNode(node, "pos")` on a one-link chain over [[1, 7]] yields [1, "1,0"] | the positions from the root to the node | high; not executed | GridSearch.TraverseNodeReportsCost | GridSearch.PathIsWalk |
| astar.ts:298 | the default end is `[grid.length - 1, grid[0].length - 1]`, read as [x, y] | on [[1, 1]] the end (0, 1) is off the grid | the bottom-right cell [width - 1, height - 1] | high; not executed | GridSearch.DefaultEndOffGrid | GridSearch.FixedRun |
| RubikClass.js:219-232 | a layer turn about face 1 or 4 reads two partner segments backwards but writes them forwards | F then F' on a cube whose face 0 has different stickers at the ends of its last row | a layer turn and the opposite turn undo each other | high; not executed | RubikMoves.FrontLayerTurnBack | RubikMoves.FixedTurnLayerInverse |
| RubikClass.js:87-140 | `rotate("F")` followed by `rotate("F'")` keeps that reversal | the same cube | every move is undone by the opposite move | high; not executed | RubikCommands.FrontMoveNotUndone | RubikCommands.FixedFaceLayerTurnInverse |
| RubikSolver.js:74-78 and RubikSolver.js:118-124 | a turn about face 2 reads every partner column top to bottom (74-78) but writes faces 3 and 4 bottom to top (118-124) | face 2's outer layer turned counter-clockwise and back, on a cube whose face 0 has different stickers at the ends of its first column | the turn of `RubikClass.js`, which its opposite undoes | high; not executed | RubikSolver.SideLayerTurnBack | RubikMoves.TurnLayerInverse |
