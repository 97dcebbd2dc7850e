# HotSpot and TGFF in Dafny

This project models the algorithmic cores of two tools and proves what they are for. HotSpot lays out the blocks
of a chip and computes their temperatures; TGFF generates random task graphs with schedules. Floating-point numbers
are real numbers here, a fatal error is an explicit result or is proved unreachable, and random choices are
parameters or nondeterministic.

- **Slicing floorplanner** (`Npe`, `NpeState`, `MoveEffects`, `Shape`, `SlicingTree`, `Parse`, `TreeNode`, `Sizing`,
  `SizingState`, `Compaction`, `TilingMeasure`, `Rim`, `RimState`, `Annealing`, `Floorplan`). Annealing walks over normalized Polish expressions and repairs four index arrays
  incrementally; each expression is parsed with a stack, shape curves are merged bottom-up, the entry of least area is
  taken, and a recursion over owned curves places the blocks and absorbs small dead space. The main results are the
  invariant of every run, what each move does to the order of the units and which words the moves reach, the parser round
  trips, which pairs of orientations a sum of curves keeps, optimality against all combinations of orientations, exact
  tiling under compaction with bounds on what it adds, exact rim frames, and `Floorplan.Anneal`, which composes all of
  them on the heap: its floorplan is a best one among all those tried.
- **Linear systems** (`RealMatrix`, `Lup`, `LupState`, `GaussJordan`, `GaussJordanState`). The factors and the inverse
  computed in place are related to the original matrix; Gauss-Jordan elimination succeeds exactly on the non-singular
  matrices and then holds the unique solution.
- **Physical networks built on them** (`PressureCircuit`, `PressureState`, `Conductance`, `ConductanceState`).
  Duct conductances and their scaling laws, flow conservation, the discrete maximum principle and solvability of
  microchannel circuits; the series law of the couplings, symmetry, positive definiteness and the ambient bound of the
  block model. Builders and solvers are composed.
- **Grid model** (`GridMap`, `GridState`, `ChipMap`, `GridMatrix`, `GridMatrixState`, `GridNetwork`, `Csc`). Mapping
  blocks to cells conserves power and, for every floorplan that tiles the chip, fills every cell; the annealed chip with
  its rim is such a floorplan. The nine-way case split of the sparse matrix emits every linked pair once, the matrix is
  a resistor network that is positive definite exactly when some node is cooled, and the conversion to compressed
  columns is complete exactly under a condition that this builder always meets.
- **Task graphs** (`Digraph`, `Traversal`, `TopSort`, `MaxDepth`, `Erase`, `RawGraph`). Traversals by recursion over
  shared visited flags, longest paths, and erasure with renumbering.
- **Schedules and random numbers** (`Schedule`, `PGraph`, `RGen`). Tasks packed on processors, gaps reserved for
  communication, and the lagged Fibonacci generator against its published recurrence.

Files ending in `State` (and `TreeNode`, `RawGraph`, `PGraph`, `RGen`) hold the imperative code: classes, arrays and
loops, proved against the functions and relations of the other files. `dafny verify dfyconfig.toml` checks everything.

## How to read the main results

A word of the floorplanner lists units as non-negative numbers and cuts as two negative constants. `IsExpression`
is the invariant of the annealing state; `NPE.Valid` adds that all index arrays equal recomputation. `Tiling` means
that every point of a box is covered exactly once (rectangles are half open), which says more than equal areas; the
areas are a separate theorem. `ChipOf` is what one evaluation of an expression leaves in the unit array, and `FloorOf` that it is the one floorplan the
word stands for; `Cost` is the metric of that floorplan. `Passes` follows the numbers drawn to the word that
`make_random_move` returns, and `After` is the search after a number of trials.

`Effective` in `GaussJordan` is the matrix that the array stands for during elimination: a processed column is a unit
column, whatever inverse data has overwritten it. `SolvesScaled` treats the system and its kernel in one statement.

`Grounded` and `Connected` are reachability of a port or of the ambient. They are the exact conditions for the
networks: the pressure solver goes through if and only if every fluid cell is grounded, and B is positive definite if
and only if every node is connected.

`Ready` in `TopSort` is an unvisited vertex with all predecessors visited. That each call leaves nothing newly ready is
why the recursion visits everything. `Depths` in `MaxDepth` carries the argument for unfinished predecessors: whatever
is still in its loop lies on the recursion stack, and the branch is already deeper than the whole stack.

Where the code does less than its comments say, the model follows the code. `make_random_move` gives up whenever its
counter reaches the limit, even if the last attempt succeeded. `coo2csc` leaves the pointers of trailing empty columns
unwritten (`TrailingEmptyColumn` is an input, `CompleteIffLastColumn` the exact condition). `top_sort` from several
starts lists a source once for each time it is given (`RepeatedStart` is an input, `TopSortFromAll` has the exact
condition). `matinv` divides by zero on some singular
matrices instead of aborting: those whose decomposition goes through with a last pivot of zero, which are exactly the
singular matrices among those not caught before (`LastPivotUnchecked` is an input, `NonSingularIffLastPivot` and `Matinv`
state the condition). Rim blocks overlap around tiles without area,
which placement without compaction can leave (`FlatTileBreaksRim`; `RimTilesChipIff` is the exact condition). Powers of
units without area are divided by zero (`DensitiesDefinedIff`). `com_possible` means to find the largest open space in a
window but never looks before the first use (`LeadingGapIsMissed` is an input, `WidestIsLargestIff` the exact condition),
and it selects the resource by space times rate before it asks whether a reservation fits (`FastResourceHidesRoom` is an
input; `SameRateRoomIff` and `FastestHasRoom` say when that does no harm).

`Complete` in `PGraph` says that no arc is missing without a reason. For arcs between processors the reason refers to the
reservations at that moment, which are recovered from the final schedule: those that belong to the arcs created before.

## Model

| member | source | states |
|---|---|---|
| `PolishExpression.UnitPositionsExact` | HotSpot-7.0/npe.c:16-25 | the unit index lists exactly the positions of units, in increasing order |
| `PolishExpression.FlipPositionsExact` | HotSpot-7.0/npe.c:27-37 | the flip index lists exactly the positions where a unit meets a cut, in increasing order |
| `PolishExpression.ChainPositionsExact` | HotSpot-7.0/npe.c:39-61 | the chain index lists exactly the first cut of every run of cuts, in increasing order |
| `PolishExpression.InitialIsExpression` | HotSpot-7.0/npe.c:93-98 | the starting word 0, 1, V, 2, V, ... has every unit once and n-1 cuts, is balloted and has no two equal adjacent cuts |
| `PolishExpression.SwapUnitsKeepsExpression` | HotSpot-7.0/npe.c:157-172 | M1 (exchange a unit with the next unit) yields a normalized balloted expression again |
| `PolishExpression.InvertChainKeepsExpression` | HotSpot-7.0/npe.c:175-198 | M2 (invert a run of cuts) yields a normalized balloted expression again |
| `PolishExpression.InvertRearBreaksExpression` | HotSpot-7.0/npe.c:175-198 | inverting only the rear part of a run of cuts always breaks normalization: M2 may be applied at the first cut of a run only |
| `PolishExpression.SwapAtKeepsExpression` | HotSpot-7.0/npe.c:225-264 | an M3 exchange that passes the two tests yields a normalized balloted expression again |
| `PolishExpression.RejectedSwapLeavesExpressions` | HotSpot-7.0/npe.c:230-246 | the two tests of M3 are exact: the exchanged word is an expression if and only if they pass |
| `PolishExpression.SwapAtUnitPositions` | HotSpot-7.0/npe.c:201-218 | after M3 the unit index differs from the old one in one entry, moved by one place: the incremental update equals recomputation |
| `PolishExpression.MoveKeepsExpression` | HotSpot-7.0/npe.c:267-321 | every one of the three moves keeps the expression invariant |
| `PolishExpression.RunsKeepExpressions` | HotSpot-7.0/npe.c:267-321 | every word of every finite run of moves from the starting word is a normalized balloted expression over the same units |
| `PolishExpressionState.NPE.FillUnitPos` | HotSpot-7.0/npe.c:16-25 | fills the array with the unit index of the stored word, within capacity |
| `PolishExpressionState.NPE.FillFlipPos` | HotSpot-7.0/npe.c:27-37 | fills the array with the flip index of the stored word, within capacity |
| `PolishExpressionState.NPE.FillChainPos` | HotSpot-7.0/npe.c:39-61 | fills the array with the chain index; running past the end of the word is reported and does not happen for expressions |
| `PolishExpressionState.NPE.FillBallotCount` | HotSpot-7.0/npe.c:63-72 | fills the array with the number of cuts in every prefix |
| `PolishExpressionState.NPE.GetInitial` | HotSpot-7.0/npe.c:75-105 | a fresh object holding the starting word with all four index arrays correct |
| `PolishExpressionState.NPE.Duplicate` | HotSpot-7.0/npe.c:324-356 | a fresh copy that shares no array, with the same word and correct indices |
| `PolishExpressionState.NPE.SwapAdjacentUnits` | HotSpot-7.0/npe.c:157-172 | M1 in place: fails exactly when no unit follows; otherwise the unit at the position and the one after it have changed places in the order of units, no cut has moved, and the four index arrays are right |
| `PolishExpressionState.NPE.InvertChainAt` | HotSpot-7.0/npe.c:175-198 | M2 in place: fails exactly when the position holds a unit; otherwise every cut from there to the end of its run has become one of the other kind and nothing else has changed; the object stays valid, all four index arrays included, exactly when the position starts a chain |
| `PolishExpressionState.NPE.UpdateUnitPos` | HotSpot-7.0/npe.c:201-218 | binary search in the sorted unit index: finds the position exactly when it is there and shifts only that entry |
| `PolishExpressionState.NPE.SwapCutUnit` | HotSpot-7.0/npe.c:225-264 | M3 in place: aborts exactly at the ends, refuses exactly when a test fails and then changes nothing, otherwise exchanges the two neighbours and keeps all four indices equal to recomputation |
| `PolishExpressionState.SwapAtIndices` | HotSpot-7.0/npe.c:239-252 | the single ballot count and unit position that M3 adjusts are the only ones that change |
| `PolishExpressionState.ChoicesAreLegal` | HotSpot-7.0/npe.c:273-310 | for two or more units every index array offers a choice and every choice is a legal move position, so no position abort is reachable |
| `PolishExpressionState.TryMove` | HotSpot-7.0/npe.c:275-310 | one pass of the move loop makes on the copy the move that the drawn numbers stand for, or leaves it equal to the original after MAX_MOVES refused draws |
| `PolishExpressionState.MakeRandomMove` | HotSpot-7.0/npe.c:267-321 | the copy holds the word that the drawn numbers lead to, one move away on success; it fails exactly when the pass counter reached MAX_MOVES (also when the last pass had succeeded, as in the code), each earlier pass being MAX_MOVES tries of M3 at refused positions; if no position is refused it succeeds in the first pass |
| `PolishExpressionState.GivesUpNeedsRefusedFlips` | HotSpot-7.0/npe.c:295-318 | giving up needs an expression with a position that M3 refuses |
| `PolishExpressionState.PassesAreMoves` | HotSpot-7.0/npe.c:267-321 | whatever is drawn, the passes make exactly one move of the three kinds, or none when their number runs out |
| `PolishExpressionState.EveryMoveIsDrawn` | HotSpot-7.0/npe.c:275-310 | conversely, a word is one move away if and only if some numbers drawn lead to it: no legal move is out of reach of the random choice |
| `MoveEffects.SwapUnitsExchanges` | HotSpot-7.0/npe.c:157-172 | after M1 the cuts are the same at the same places, and the units in order are the old ones with two neighbours exchanged |
| `MoveEffects.SwapUnitsAt` | HotSpot-7.0/npe.c:157-172 | M1 at the m-th position of the unit index exchanges the m-th and the next unit of the order |
| `MoveEffects.EveryOrderIsReached` | HotSpot-7.0/npe.c:157-172 | M1 moves alone lead from a word to every word with the same cuts and the same units in any order |
| `MoveEffects.InvertChainInverts` | HotSpot-7.0/npe.c:175-198 | after M2 at the start of a run every cut of the run is of the other kind and nothing else has changed |
| `MoveEffects.InvertTwice` | HotSpot-7.0/npe.c:175-198 | M2 applied twice at the same place restores the word |
| `MoveEffects.InitialIsRow` | HotSpot-7.0/npe.c:93-98 | the starting word lists the units in order, each further one followed by a vertical cut |
| `ShapeCurve.WalkDominates` | HotSpot-7.0/shape.c:138-195 | the merge walk over two descending sequences passes, for every index pair, a step that is at least as good in both |
| `ShapeCurve.SumIsRealised` | HotSpot-7.0/shape.c:164-195 | every entry of a sum is the bounding box of the two child entries its stored positions name, with the median at the cut |
| `ShapeCurve.SumIsWellShaped` | HotSpot-7.0/shape.c:125-198 | the sum of two well-shaped curves is non-empty, positive, with non-decreasing widths and non-increasing heights |
| `ShapeCurve.SumDominates` | HotSpot-7.0/shape.c:125-198 | for both cut types every pair of child entries is dominated by some entry of the sum: the linear merge loses nothing against all pairs |
| `ShapeCurve.WalkVisitsIff` | HotSpot-7.0/shape.c:138-195 | the walk visits exactly those index pairs of which neither index could be taken back without a larger key, ties going to the first sequence |
| `ShapeCurve.BesideEntriesIff` | HotSpot-7.0/shape.c:138-195 | two orientations make an entry of a vertical sum if and only if the entry before the first is at least as tall as the second and the entry before the second is taller than the first |
| `ShapeCurve.StackedEntriesIff` | HotSpot-7.0/shape.c:138-195 | the same for a horizontal sum, with widths, both curves read from their widest entries |
| `ShapeCurve.SumSteps` | HotSpot-7.0/shape.c:138-195 | from one entry of a sum to the next exactly one of the two orientations moves on by one |
| `ShapeCurve.SumIsShort` | HotSpot-7.0/shape.c:138-152 | so a sum has fewer entries than its two parts together, and at least one |
| `ShapeCurve.Shape.Duplicate` | HotSpot-7.0/shape.c:201-230 | a fresh curve with the same entries; the original is unchanged |
| `ShapeCurve.Shape.CountSteps` | HotSpot-7.0/shape.c:138-152 | the first pass counts exactly the steps of the walk |
| `ShapeCurve.Shape.Add` | HotSpot-7.0/shape.c:125-198 | the array curve equals the sum of the two curves; both operands are unchanged |
| `ShapeCurve.Shape.MinAreaPos` | HotSpot-7.0/shape.c:387-397 | the returned position is the first entry of least area |
| `SlicingTree.EntriesAreRealised` | HotSpot-7.0/shape.c:164-195 | every entry of a tree's curve is the size of some combination of leaf orientations |
| `SlicingTree.ChoicesAreDominated` | HotSpot-7.0/shape.c:125-198 | every combination of leaf orientations is dominated by some entry of the root curve |
| `SlicingTree.MinAreaIsLowerBound` | HotSpot-7.0/shape.c:387-397 | the area at the chosen position is at most the bounding-box area of every combination of leaf orientations |
| `SlicingTree.MinAreaIsAttained` | HotSpot-7.0/shape.c:387-397 | the area at the chosen position is the bounding-box area of a combination of leaf orientations |
| `SlicingTree.MinAreaIsOptimal` | HotSpot-7.0/shape.c:387-397 | global optimality: the chosen area is the minimum over the exponentially many combinations of leaf orientations |
| `TreeParsing.RunSucceeds` | HotSpot-7.0/shape.c:299-332 | reading a word works if and only if every prefix leaves between 1 and 128 nodes on the stack |
| `TreeParsing.ExpressionsParse` | HotSpot-7.0/shape.c:299-332 | an expression over at most 128 units is read without under- or overflow and leaves exactly one node |
| `TreeParsing.RunSpellsInput` | HotSpot-7.0/shape.c:299-332 | the post-order of the nodes on the stack is always the word read so far |
| `TreeParsing.PrintOfParse` | HotSpot-7.0/shape.c:299-332 | printing the parsed tree in post-order gives the word back |
| `TreeParsing.ParseOfPrint` | HotSpot-7.0/shape.c:299-332 | parsing the post-order of any described tree that fits the stack gives that tree back |
| `TreeParsing.NormalizedIsSkewed` | HotSpot-7.0/shape.c:299-332 | the word has no two equal adjacent cuts if and only if no cut node has its own cut type as right child |
| `TreeNodes.NodeStack.Push` | HotSpot-7.0/shape.c:269-276 | pushes unless the stack is full, which is reported |
| `TreeNodes.NodeStack.Pop` | HotSpot-7.0/shape.c:279-288 | pops the last node pushed, or reports the empty stack |
| `TreeNodes.ReadElement` | HotSpot-7.0/shape.c:311-328 | one element on the pointer structure matches one step of the value parser; every node owns its own curve |
| `TreeNodes.TreeFromNPE` | HotSpot-7.0/shape.c:299-332 | builds a tree of freshly allocated nodes and curves that denotes the parse of the word; aborts exactly when the value parser fails; the description's curves are untouched |
| `Sizing.SplitBesideIsExact` | HotSpot-7.0/shape.c:439-491 | dividing a box at a vertical cut, absorbing the dead block or not, covers every point of the box once and gives each child enough room |
| `Sizing.SplitStackedIsExact` | HotSpot-7.0/shape.c:492-536 | the same at a horizontal cut |
| `Sizing.ArrangeTiles` | HotSpot-7.0/shape.c:405-539 | blocks and counted dead blocks cover every point of the root box exactly once, whatever was absorbed |
| `Sizing.ArrangeKeepsArea` | HotSpot-7.0/shape.c:405-539 | the areas of blocks and counted dead blocks sum to the area of the root box |
| `Sizing.ArrangeIsPositive` | HotSpot-7.0/shape.c:405-539 | with compaction on, no tile is empty |
| `Sizing.ArrangeCounts` | HotSpot-7.0/shape.c:405-539 | one block per leaf in leaf order and at most n-1 dead blocks, so every index stays inside the 2n-1 slots |
| `Sizing.BlocksHoldOrientations` | HotSpot-7.0/shape.c:405-539 | every block is at least as wide and as tall as its chosen orientation |
| `Compaction.BesideAbsorbs` | HotSpot-7.0/shape.c:455-491 | at a vertical cut the dead space lies over the lower child and is absorbed if and only if compaction is on and its area is at most the ratio times that child's own area; otherwise it is counted and the child keeps its size |
| `Compaction.StackedAbsorbs` | HotSpot-7.0/shape.c:508-536 | the same at a horizontal cut, beside the narrower child |
| `Compaction.GrowthIsBounded` | HotSpot-7.0/shape.c:405-539 | every block exceeds its orientation by at most what the box exceeds its entry, and the share of the box's side that the ratio allows for each cut above it |
| `Compaction.ExactWithoutCompaction` | HotSpot-7.0/shape.c:405-539 | without compaction, or with ratio zero, in a box of the entry's size every block has exactly the size of its orientation |
| `Compaction.BlocksInside` | HotSpot-7.0/shape.c:405-539 | every block lies inside the box |
| `Compaction.OperandsInOrder` | HotSpot-7.0/shape.c:430-536 | the blocks of the first operand lie left of those of the second under a vertical cut and below them under a horizontal one |
| `SizingState.Divide` | HotSpot-7.0/shape.c:430-536 | stretching the two child curve entries in place, absorbing small dead space and writing the dead block agrees with the division of the box, and nothing else changes |
| `SizingState.RecursiveSizing` | HotSpot-7.0/shape.c:405-539 | the recursion that mutates curves and units in place writes exactly the layout of the values, each unit at its own slot and dead blocks from the running count, and nothing else |
| `SizingState.StoredBlocks` | HotSpot-7.0/shape.c:545-570 | blocks stored at their unit numbers cover each point as often as the layout's blocks do |
| `SizingState.WrittenTiles` | HotSpot-7.0/shape.c:545-570 | the n blocks and the counted dead blocks in the array tile the root box |
| `SizingState.TreeToFlp` | HotSpot-7.0/shape.c:545-570 | uses the first entry of least area, leaves exactly its layout, the n blocks in their slots and the counted dead blocks after them, which tile the box, and returns 2n-1 minus their number |
| `Rim.TilesInside` | HotSpot-7.0/flp.c:706-789 | tiles of positive size lie inside the box they tile |
| `Rim.RimTilesFrame` | HotSpot-7.0/flp.c:706-789 | the rim blocks tile exactly the frame between the core and the chip, corners included, for every tiling of the core by tiles with area |
| `Rim.RimTilesChipIff` | HotSpot-7.0/flp.c:706-789 | for every tiling of the core, tiles without area included: tiles and rim blocks tile the chip if and only if no tile without area gets a rim block with area |
| `Rim.FlatTileBreaksRim` | HotSpot-7.0/flp.c:706-789 | two equal blocks divided without compaction: the dead block of height zero gets rim blocks over those of its neighbours |
| `Rim.RimFits` | HotSpot-7.0/flp.c:267-275 | with tiles of positive size there are never more than 2n+2 rim blocks, so the 3n+2 placeholder suffices |
| `Rim.RimRoom` | HotSpot-7.0/flp.c:267-275 | for every tiling, each tile without area may take two slots more than the reserve counts for it |
| `Rim.ShiftedTiling` | HotSpot-7.0/flp.c:334-350 | translating a tiling gives a tiling of the translated box |
| `RimState.TotalWidth` | HotSpot-7.0/flp.c:1501-1515 | the difference of the extreme edges of all units |
| `RimState.TotalHeight` | HotSpot-7.0/flp.c:1517-1531 | the difference of the extreme edges of all units |
| `RimState.Translate` | HotSpot-7.0/flp.c:334-350 | moves every unit so that the smallest coordinates become the given ones |
| `RimState.WrapRim` | HotSpot-7.0/flp.c:706-789 | in place: core shifted by the rim thickness, the rim blocks appended, at most 2n+2 of them when all tiles have area; all units together tile the chip if and only if tiles without area got no block with area |
| `Floorplan.UnitsOfExpression` | HotSpot-7.0/flp.c:797-997 | the tree of an expression over n units has each unit 0..n-1 as exactly one leaf |
| `Floorplan.RestoreDeadBlocks` | HotSpot-7.0/flp.c:310-331 | undoes rim and compaction counts and clears the dead-block slots, nothing else |
| `Floorplan.PlaceExpression` | HotSpot-7.0/flp.c:890-902 | tree, placement and rim of one expression: on success the units are the chip of a minimal-area entry, tiled without overlap; at most 128 units never overflow the node stack |
| `Floorplan.Trial` | HotSpot-7.0/flp.c:887-906 | one annealing trial makes the move that the drawn numbers stand for, returns the metric of the resulting floorplan and restores the slots for the next trial; it gives up exactly when the move used up its passes, nearly all refused throughout, and finishes when no position of the expression is refused |
| `Floorplan.Choose` | HotSpot-7.0/flp.c:913-941 | a cheaper expression is always kept, a dearer one if and only if it passes the Boltzmann test, and a cheaper one that beats the best cost is copied as the best |
| `Floorplan.EvaluateExpression` | HotSpot-7.0/flp.c:890-908 | the metric returned is that of the one floorplan the word stands for, and the placeholder is restored |
| `Floorplan.Anneal` | HotSpot-7.0/flp.c:797-997 | the whole loop, whatever the metric, the numbers drawn and the outcomes of the Boltzmann test: up to 128 units it finishes unless a random move gives up; the final floorplan is the one of the best word of the search, reachable by moves, tiled point by point and in area, rim included, and no word tried has a floorplan of smaller metric |
| `Annealing.OneFloor` | HotSpot-7.0/flp.c:890-908 | a word has at most one floorplan: the choice of the entry, the layout, the slots and the rim leave nothing open |
| `Annealing.BestIsLeast` | HotSpot-7.0/flp.c:913-941 | after any number of trials the best word has been tried, and no word tried, kept or not, is cheaper |
| `Annealing.TriedAreReached` | HotSpot-7.0/flp.c:886-960 | each word tried is one move away from one tried before it, and a search that is not stuck has tried one word a trial |
| `Annealing.OnlyUphillRaises` | HotSpot-7.0/flp.c:913-916 | a trial that does not pass the Boltzmann test never makes the word held dearer |
| `Annealing.ColdSearchDescends` | HotSpot-7.0/flp.c:913-941 | when no trial passes that test, the word held is always the best |
| `Annealing.HotSearchWalks` | HotSpot-7.0/flp.c:913-941 | when every trial passes it, the word held is always the one tried last |
| `Annealing.StuckStays` | HotSpot-7.0/flp.c:886-960 | after a random move has given up nothing changes any more |
| `Annealing.AreaCost` | HotSpot-7.0/flp.c:39-45 | with the area as metric and no rim, a word costs the least bounding-box area over all orientations of its blocks |
| `Annealing.AnnealedAreaIsLeast` | HotSpot-7.0/flp.c:913-941 | then the best chip is no larger than any box that any orientations of the blocks need under any word tried |
| `TilingMeasure.NoLoadNoMass` | HotSpot-7.0/shape.c:545-570 | intervals whose weights cancel at every point cancel over every window |
| `TilingMeasure.TilingFillsWindow` | HotSpot-7.0/shape.c:545-570 | for every tiling of a box, slicing or not, the parts of the tiles inside any window add up to the part of the box inside it |
| `TilingMeasure.TilingArea` | HotSpot-7.0/shape.c:545-570 | the areas of the tiles of any tiling add up to the area of the box |
| `ChipMapping.ChipFillsGrid` | HotSpot-7.0/temperature_grid.c:341-456 | on a grid over the annealed chip, with or without rim, every unit passes the checks of the mapping and the occupancies of every cell sum to one |
| `ChipMapping.MapChip` | HotSpot-7.0/temperature_grid.c:1888-1929 | mapping the annealed chip never aborts, and translating the powers of its units to cells loses nothing |
| `Lup.SwapKeepsFactored` | HotSpot-7.0/RCutil.c:94-97 | a row exchange keeps the partial factorization of the permuted original matrix |
| `Lup.EliminateKeepsFactored` | HotSpot-7.0/RCutil.c:99-103 | one elimination stage moves one more term of every product into the stored factors |
| `Lup.LupIsCorrect` | HotSpot-7.0/RCutil.c:76-104 | when the decomposition returns, p is a permutation and row p[i] of the original is row i of L times U, with non-zero diagonal except perhaps the last entry |
| `Lup.MultipliersAtMostOne` | HotSpot-7.0/RCutil.c:84-103 | no entry of L exceeds one in magnitude, because the pivot is the largest entry left in its column |
| `Lup.DecomposeStuck` | HotSpot-7.0/RCutil.c:84-92 | when the decomposition aborts, the matrix factored so far has a remaining column that is wholly below the tolerance |
| `Lup.AbortsIffColumnVanishes` | HotSpot-7.0/RCutil.c:82-92 | it aborts if and only if at some of its own stages before the last the column to be eliminated is wholly below the tolerance |
| `Lup.ForwardSolves` | HotSpot-7.0/RCutil.c:167-172 | forward substitution solves L y = P b |
| `Lup.BackwardSolves` | HotSpot-7.0/RCutil.c:174-179 | backward substitution solves U x = y |
| `Lup.LusolveSolves` | HotSpot-7.0/RCutil.c:163-180 | with a non-zero last pivot the substitution solves the original system A x = b |
| `Lup.ZeroPivotMeansSingular` | HotSpot-7.0/RCutil.c:174-179 | if the last pivot is zero the original matrix maps a non-zero vector to zero |
| `Lup.NonSingularIffLastPivot` | HotSpot-7.0/RCutil.c:174-179 | with correct factors the original matrix is non-singular if and only if the last pivot is not zero: lusolve divides by zero exactly for the singular matrices that were not caught |
| `Lup.LastPivotUnchecked` | HotSpot-7.0/RCutil.c:82-92 | a concrete singular matrix that the decomposition accepts with last pivot zero |
| `LupState.FindPivot` | HotSpot-7.0/RCutil.c:84-90 | the in-place search returns the largest magnitude and its first row, the previous pivot when the column vanishes |
| `LupState.EliminateBelow` | HotSpot-7.0/RCutil.c:99-103 | the double loop equals one elimination stage on values |
| `LupState.LupdcmpInPlace` | HotSpot-7.0/RCutil.c:76-104 | aborts exactly when the value decomposition does, otherwise leaves correct factors and permutation in the arrays |
| `LupState.LusolveArrays` | HotSpot-7.0/RCutil.c:163-180 | the two loops compute the substitution on values, leaving the factors, p and b unchanged |
| `LupState.InvertColumns` | HotSpot-7.0/RCutil.c:805-818 | solving for the unit vectors fills inv with a right inverse of the original matrix |
| `LupState.Matinv` | HotSpot-7.0/RCutil.c:805-818 | aborts exactly when a column falls below the tolerance at some stage; otherwise it leaves a right inverse if and only if the original matrix is non-singular, and divides by zero on the singular ones |
| `GaussJordan.SwapRowsEquivalent` | HotSpot-7.0/util.c:656-660 | a row exchange keeps all solutions, homogeneous ones included |
| `GaussJordan.ReduceIsRowReduction` | HotSpot-7.0/util.c:667-684 | dividing the pivot row and reducing all others, although processed columns are overwritten with inverse data, is a row reduction of the effective system |
| `GaussJordan.PivotStepKeepsSolutions` | HotSpot-7.0/util.c:656-684 | one whole pivot step keeps the solutions of the effective system |
| `GaussJordan.AllPivoted` | HotSpot-7.0/util.c:631-685 | with all columns processed b is the one solution of the original system and the kernel is trivial |
| `GaussJordan.NoPivotMeansSingular` | HotSpot-7.0/util.c:664-665 | the abort happens only for matrices with a non-trivial kernel |
| `GaussJordanState.SearchPivot` | HotSpot-7.0/util.c:632-646 | full pivoting: the last largest entry among unprocessed rows and columns; an unprocessed column always yields a candidate, so the indices are never unset |
| `GaussJordanState.PivotOn` | HotSpot-7.0/util.c:656-684 | exchange, division and reduction in place equal the step on values; stops exactly on a zero pivot |
| `GaussJordanState.Gaussj` | HotSpot-7.0/util.c:621-685 | succeeds if and only if the original matrix has a trivial kernel, and then b holds the unique solution of the original system |
| `PressureCircuit.HydroIsPositive` | HotSpot-7.0/microchannel.c:361-376 | the duct conductance is positive for positive dimensions and viscosity, in all three branches |
| `PressureCircuit.SidesExchange` | HotSpot-7.0/microchannel.c:361-376 | it does not matter which side of a duct is called its thickness |
| `PressureCircuit.HydroIsReducedSlit` | HotSpot-7.0/microchannel.c:361-376 | a duct conducts like a slit of its shorter and longer side, s^3 l / (12 viscosity length), reduced by a factor of the shape alone that lies between 0.37 and 1 |
| `PressureCircuit.HydroBounds` | HotSpot-7.0/microchannel.c:361-376 | hence between 0.37 of the slit's conductance and all of it, in all three branches |
| `PressureCircuit.HydroScales` | HotSpot-7.0/microchannel.c:361-376 | a duct k times as long, or a coolant k times as viscous, carries a k-th of the flow |
| `PressureCircuit.HydroGrowsCubically` | HotSpot-7.0/microchannel.c:361-376 | a duct k times as large in every dimension carries k cubed times the flow |
| `PressureCircuit.FluidRow` | HotSpot-7.0/microchannel.c:451-500 | the row of a fluid cell times the pressures is the net flow out of the cell through its four sides |
| `PressureCircuit.FixedRow` | HotSpot-7.0/microchannel.c:502-535 | the row of an inlet or outlet fixes its pressure |
| `PressureCircuit.FlowIsConserved` | HotSpot-7.0/microchannel.c:567-571 | at every solution the signed flow rates around every FLUID cell sum to zero |
| `PressureCircuit.InletsFeedOutlets` | HotSpot-7.0/microchannel.c:567-571 | total inlet flow equals total outlet flow |
| `PressureCircuit.MaximumPrinciple` | HotSpot-7.0/microchannel.c:446-537 | balanced pressures of a grounded network nowhere exceed the largest port pressure |
| `PressureCircuit.MinimumPrinciple` | HotSpot-7.0/microchannel.c:446-537 | and nowhere fall below the smallest |
| `PressureCircuit.PressuresAreBounded` | HotSpot-7.0/microchannel.c:446-537 | with a non-negative pumping pressure all pressures lie between zero and it |
| `PressureCircuit.InletsPump` | HotSpot-7.0/microchannel.c:567-571 | and coolant flows away from every inlet through each of its sides |
| `PressureCircuit.SolvableIffGrounded` | HotSpot-7.0/microchannel.c:446-537 | the system has a trivial kernel if and only if every fluid cell is connected through fluid cells to an inlet or outlet |
| `PressureState.NumberCells` | HotSpot-7.0/microchannel.c:399-410 | numbers the fluid cells in row-major order, -1 elsewhere |
| `PressureState.FillRow` | HotSpot-7.0/microchannel.c:449-537 | the case split for one cell writes exactly that cell's row and right-hand side |
| `PressureState.FillMatrix` | HotSpot-7.0/microchannel.c:446-537 | all rows together are the pressure system of the network |
| `PressureState.Microchannel.BuildPressureMatrix` | HotSpot-7.0/microchannel.c:378-565 | numbering, matrix and right-hand side of the ideal-pump circuit, in fresh arrays |
| `PressureState.Microchannel.SolvePressureCircuit` | HotSpot-7.0/microchannel.c:246 | builder and Gauss-Jordan composed: goes through if and only if every fluid cell is connected to a port, and then flow is conserved, inlets feed outlets, ports have their pressures and all pressures are bounded |
| `PressureState.Microchannel.FlowRateBetween` | HotSpot-7.0/microchannel.c:567-571 | the pressure drop from the first fluid cell to the second times the conductance of a duct with the cell's thickness and width as sides and its height as length |
| `Conductance.RowIsHeat` | HotSpot-7.0/temperature_block.c:251-274 | a row of B times temperatures is the heat leaving the node |
| `Conductance.QuadraticIsDissipation` | HotSpot-7.0/temperature_block.c:279-289 | x^T B x is the sum of squares weighted by conductances |
| `Conductance.PositiveDefiniteIffConnected` | HotSpot-7.0/temperature_block.c:279-289 | B is positive definite if and only if every node has a conducting path to ambient |
| `Conductance.NonSingularIffConnected` | HotSpot-7.0/temperature_block.c:279-294 | the matrix of a network is non-singular if and only if every node has a conducting path to ambient |
| `Conductance.NothingBelowAmbient` | HotSpot-7.0/temperature_block.c:398-411 | where no heat is drawn, no temperature is below ambient |
| `Conductance.HeatIsConserved` | HotSpot-7.0/temperature_block.c:251-274 | all heat put in leaves to ambient |
| `ConductanceState.BIsNetwork` | HotSpot-7.0/temperature_block.c:250-274 | for all non-negative g and g_amb, B is symmetric with non-positive couplings and its row sums are the ambient conductances |
| `ConductanceState.CouplingIsSeries` | HotSpot-7.0/temperature_block.c:250-261 | for positive g_ij and g_ji and any two temperatures there is exactly one interface temperature at which the flow through both halves agrees, and that flow is minus B_ij times the temperature difference |
| `ConductanceState.NoCoupling` | HotSpot-7.0/temperature_block.c:250-261 | if either half conducts nothing, B_ij is zero |
| `ConductanceState.HeatToAmbient` | HotSpot-7.0/temperature_block.c:262-274 | heat leaves for ambient under the heat sink of each block and at the sink's own periphery, nowhere else |
| `ConductanceState.FillB` | HotSpot-7.0/temperature_block.c:250-274 | the two loops store that matrix: couplings of two halves in series and diagonals that make the row sums the ambient conductances |
| `ConductanceState.NoBlockBelowAmbient` | HotSpot-7.0/temperature_block.c:382-411 | for non-negative block power no steady-state temperature is below ambient, provided every node is connected to ambient |
| `ConductanceState.PowerLeavesToAmbient` | HotSpot-7.0/temperature_block.c:382-411 | in steady state the block power equals the heat passed to ambient |
| `ConductanceState.BlockModel.PopulateR` | HotSpot-7.0/temperature_block.c:250-294 | B is built and factored; it aborts if and only if a column to be eliminated falls below the tolerance, and otherwise the last pivot is non-zero if and only if every node is connected to ambient |
| `ConductanceState.BlockModel.SetInternalPower` | HotSpot-7.0/temperature_block.c:382-389 | sets the virtual nodes' power and leaves the silicon blocks' power alone |
| `ConductanceState.BlockModel.SteadyStateTemp` | HotSpot-7.0/temperature_block.c:398-411 | on a connected network the stored factors yield temperatures that solve the original system, without division by zero |
| `Traversal.DfsRecurse` | tgff-3.5/Graph.cc:459-480 | marks and lists exactly once what it newly reaches, and everything one step from what it processed |
| `Traversal.Dfs` | tgff-3.5/Graph.cc:217-222 | each vertex reachable from the start exactly once, the start first |
| `Traversal.IsConnectedFrom` | tgff-3.5/Graph.cc:194-197 | true if and only if every vertex is reachable from the start |
| `Traversal.CyclicRecurse` | tgff-3.5/Graph.cc:442-456 | finds a non-empty path back to the start, or has been everywhere without meeting one |
| `Traversal.IsCyclic` | tgff-3.5/Graph.cc:183-190 | true if and only if some vertex lies on a cycle, self-loops included |
| `TopSort.TopSortRecurse` | tgff-3.5/Graph.cc:516-546 | appends each newly visited vertex after all its predecessors and leaves no vertex newly ready |
| `TopSort.NothingReadyMeansDone` | tgff-3.5/Graph.cc:516-546 | when no vertex is ready, an acyclic graph has been visited completely |
| `TopSort.PreVisitUnreachable` | tgff-3.5/Graph.cc:344-355 | depth-first search and inversion pre-visit exactly the unreachable vertices |
| `TopSort.TopSortFrom` | tgff-3.5/Graph.cc:317-336 | on an acyclic graph, forwards or in reverse, each reachable vertex exactly once with predecessors first |
| `TopSort.TopSortFromAll` | tgff-3.5/Graph.cc:340-362 | from several sources: everything reachable, predecessors first, and without repetition if and only if the given sources are distinct |
| `TopSort.RepeatedStart` | tgff-3.5/Graph.cc:340-362 | a lone vertex given twice as start is listed twice |
| `MaxDepth.BranchIsFinal` | tgff-3.5/Graph.cc:579-593 | when a vertex is processed its recorded depth is already its longest path, even while predecessors are still in their own loops on the recursion stack |
| `MaxDepth.EnteredKeepsDepth` | tgff-3.5/Graph.cc:595-609 | a depth that has been used is never raised later |
| `MaxDepth.MaxDepthRecurse` | tgff-3.5/Graph.cc:579-610 | keeps every recorded depth the length of a path and every processed depth final |
| `MaxDepth.MaxDepthFrom` | tgff-3.5/Graph.cc:376-392 | on an acyclic graph each reachable vertex gets the length of its longest path from the start, every other vertex -1 |
| `Digraphs.ArcReversed` | tgff-3.5/Graph.cc:49-58 | the in-lists and out-lists describe the same arcs |
| `Digraphs.LongPathCycles` | tgff-3.5/Graph.cc:183-190 | a path longer than the number of vertices runs round a cycle |
| `Digraphs.AcyclicBothWays` | tgff-3.5/Graph.cc:317-336 | a graph without cycles has none against its edges either, so the reverse traversals need no further test |
| `Erase.EraseEdgeKeepsConsistent` | tgff-3.5/Graph.cc:105-142 | after erasing an edge every edge index again occurs exactly once in its source's out-list and its target's in-list and nowhere else, parallel edges and self-loops included |
| `Erase.EraseEdgeKeepsOrder` | tgff-3.5/Graph.cc:105-142 | every adjacency list keeps its order and loses exactly the erased edge |
| `Erase.DropVertexKeepsConsistent` | tgff-3.5/Graph.cc:85-100 | removing a bare vertex and renumbering end points keeps that invariant |
| `Erase.DropVertexKeepsOrder` | tgff-3.5/Graph.cc:85-100 | every surviving vertex keeps its adjacency lists, end points renumbered |
| `RawGraphs.RawGraph.AddVertex` | tgff-3.5/Graph.cc:33-39 | appends a bare vertex |
| `RawGraphs.RawGraph.AddEdge` | tgff-3.5/Graph.cc:49-58 | appends the edge and its index to one out-list and one in-list, keeping the invariant |
| `RawGraphs.RawGraph.EraseEdge` | tgff-3.5/Graph.cc:105-142 | in place: find, erase and renumber equal the erasure on values and keep the invariant |
| `RawGraphs.RawGraph.EraseVertex` | tgff-3.5/Graph.cc:73-102 | in place, with self-loops and parallel edges: the edges left are the original ones not at the vertex, in order, with end points renumbered, and so for every adjacency list |
| `RawGraphs.RawGraph.TopologicalSort` | tgff-3.5/Graph.cc:317-336 | after a negative cycle test, a topological order of everything reachable in either direction |
| `RawGraphs.RawGraph.LongestPaths` | tgff-3.5/Graph.cc:376-392 | after a negative cycle test, longest path lengths in either direction |
| `RandomGenerator.SplitSeedRanges` | tgff-3.5/RGen.cc:68-78 | a non-negative seed gives generator seeds in the published ranges |
| `RandomGenerator.SeedIsRecovered` | tgff-3.5/RGen.cc:68-78 | the seed is recovered from its four numbers, up to multiples of 30082 * 177 * 177 |
| `RandomGenerator.SameSeedIff` | tgff-3.5/RGen.cc:68-78 | two non-negative seeds give the same four numbers if and only if they differ by such a multiple |
| `RandomGenerator.ProductIsModular` | tgff-3.5/RGen.cc:87 | the first seed generator multiplies its three numbers modulo 179 |
| `RandomGenerator.FirstGenerator` | tgff-3.5/RGen.cc:87-89 | in every run its numbers are the products of the three before modulo 179 |
| `RandomGenerator.SecondGenerator` | tgff-3.5/RGen.cc:91 | the second one after n steps in closed form |
| `RandomGenerator.BitOf` | tgff-3.5/RGen.cc:93-96 | the k-th bit drawn for a slot has the k-th highest weight in its value |
| `RandomGenerator.SecondGeneratorPeriod` | tgff-3.5/RGen.cc:91 | it has the full period 169: its values after m and n steps agree if and only if m and n differ by a multiple of 169 |
| `RandomGenerator.RGen.FillRing` | tgff-3.5/RGen.cc:81-100 | each of the 97 slots gets 24 fresh bits of the combined seed generators, most significant first, the generators running on |
| `RandomGenerator.RGen.SetSeeds` | tgff-3.5/RGen.cc:81-108 | whatever the arguments, the state is valid: ring, cursors 33 apart and carry in range |
| `RandomGenerator.CursorTerms` | tgff-3.5/RGen.cc:111-118 | the two cursors always point at the terms from 97 and from 33 calls ago |
| `RandomGenerator.RGen.Flat01` | tgff-3.5/RGen.cc:111-129 | the n-th result is (x_n - c_n) mod 2^24 of the published recurrences, hence in [0, 1), and the ring keeps the history |
| `RandomGenerator.RunObeysRecurrence` | tgff-3.5/RGen.cc:111-116 | in every run x_n = x_(n-97) - x_(n-33) mod 2^24, although the ring is overwritten in place |
| `RandomGenerator.CarryClosedForm` | tgff-3.5/RGen.cc:119-121 | the carry after n calls is (362436 - 7654321 n) mod 16777213 |
| `Schedule.NextToStart` | tgff-3.5/PGraph.cc:85-93 | the first of the earliest uses that start at t or later, or none |
| `Schedule.GapIsFree` | tgff-3.5/PGraph.cc:127-132 | between the end of a use and the next start nothing is reserved |
| `Schedule.NothingWiderFits` | tgff-3.5/PGraph.cc:114-155 | no free interval inside the window that follows some use is longer than the widest gap |
| `Schedule.WidestFits` | tgff-3.5/PGraph.cc:114-155 | and the widest gap is such an interval itself |
| `Schedule.WidestIsLargestIff` | tgff-3.5/PGraph.cc:106-108 | the gap found is the largest open space in the window if and only if the open space before the first use is no larger: that one is never looked at |
| `Schedule.LeadingGapIsMissed` | tgff-3.5/PGraph.cc:106-108 | an input with a wholly open window in which nothing is found |
| `Schedule.WidestGap` | tgff-3.5/PGraph.cc:114-155 | the loop computes the widest gap and where it starts; it ends because uses have positive length |
| `Schedule.SelectedLeads` | tgff-3.5/PGraph.cc:158-171 | the resource selected is the first of those with the largest positive product of gap and data rate |
| `Schedule.ComPossible` | tgff-3.5/PGraph.cc:101-186 | the answer is positive if and only if the selected resource's gap holds a reservation of unit length; then it is the largest product, and the fill part of the gap is reserved from its start; otherwise nothing changed; reservations stay disjoint |
| `Schedule.FastestHasRoom` | tgff-3.5/PGraph.cc:158-186 | a resource that no other outpaces and a long enough interval that fits on it make the answer positive |
| `Schedule.UnusedHasRoom` | tgff-3.5/PGraph.cc:117-121 | so does an unused resource that no other outpaces, when the window is long enough |
| `Schedule.SameRateRoomIff` | tgff-3.5/PGraph.cc:158-186 | when all resources run at one rate the answer is positive if and only if some long enough interval fits somewhere |
| `Schedule.FastResourceHidesRoom` | tgff-3.5/PGraph.cc:158-186 | with different rates it is not: an input where a fast resource with a short gap is selected although a slow one has room |
| `PeriodicGraphs.PackedIsValid` | tgff-3.5/PGraph.cc:277-302 | packed tasks never overlap |
| `PeriodicGraphs.TaskGraphsAreAcyclic` | tgff-3.5/PGraph.cc:325-381 | every task graph is acyclic, because arcs run forward in time |
| `PeriodicGraphs.PGraph.PackProcessor` | tgff-3.5/PGraph.cc:266-303 | tasks of one processor are back to back with the slack, inside the period, and fill it |
| `PeriodicGraphs.PGraph.AddTask` | tgff-3.5/PGraph.cc:288-300 | the task becomes one new vertex of one task graph, naming its processor and its place there |
| `PeriodicGraphs.PGraph.TryArc` | tgff-3.5/PGraph.cc:334-379 | an arc is added if and only if it runs forward in time, no degree limit is reached, and the data inside a processor is at least one unit or a communication resource has room, whose gap is then reserved |
| `PeriodicGraphs.PGraph.CreateArcs` | tgff-3.5/PGraph.cc:325-381 | every pair of tasks that could be joined is joined, unless a degree limit stands, the data inside a processor is less than a unit, or the reservations of the arcs created before left no room |
| `PeriodicGraphs.SettledStays` | tgff-3.5/PGraph.cc:325-381 | a new arc with its reservation invalidates the reason for no pair left out earlier |
| `PeriodicGraphs.NewTaskOnce` | tgff-3.5/PGraph.cc:293-300 | every packed task is a vertex of exactly one task graph, once |
| `PeriodicGraphs.PGraph.constructor` | tgff-3.5/PGraph.cc:207-381 | after construction the schedule is valid, every packed task is exactly one vertex, and no arc that could be there is missing without one of the three reasons |
| `PeriodicGraphs.PGraph.TasksFit` | tgff-3.5/PGraph.cc:277-302 | tasks on each processor are disjoint and inside the period |
| `PeriodicGraphs.PGraph.GraphIsAcyclic` | tgff-3.5/PGraph.cc:325-381 | every task graph of a constructed schedule is acyclic |
| `PeriodicGraphs.PGraph.ArcsAreReserved` | tgff-3.5/PGraph.cc:343-377 | every arc between processors has a reservation after its producer's end and before its consumer's start |
| `CompressedColumns.SortSorts` | HotSpot-7.0/util.c:562-568 | column-major order is reached by a rearrangement of the entries |
| `CompressedColumns.CopyOut` | HotSpot-7.0/util.c:588-607 | one pass writes rows, values and, up to one past the last non-empty column, the number of entries before each column |
| `CompressedColumns.ColumnsAreRight` | HotSpot-7.0/util.c:588-607 | complete pointers rise from 0 to nnz and delimit the columns, with ascending rows |
| `CompressedColumns.RowsAscend` | HotSpot-7.0/util.c:588-607 | without repeated coordinates the rows of a column ascend strictly |
| `CompressedColumns.CompleteIffLastColumn` | HotSpot-7.0/util.c:588-607 | all pointers are written, whatever the array held, if and only if the last column of the matrix has an entry |
| `CompressedColumns.TrailingEmptyColumn` | HotSpot-7.0/util.c:588-607 | a concrete matrix whose trailing empty column leaves a pointer unwritten |
| `CompressedColumns.Coo2Csc` | HotSpot-7.0/util.c:570-613 | the output represents a sorted rearrangement of the input |
| `GridMapping.OverlapSign` | HotSpot-7.0/temperature_grid.c:402-441 | inside the index range overlaps are never negative, and strictly inside it cells are covered completely: both occupancy branches agree and the abort is unreachable |
| `GridMapping.AxisSum` | HotSpot-7.0/temperature_grid.c:362-369 | an interval is the sum of its overlaps with the cells between floor and ceiling |
| `GridMapping.FittingUnitPasses` | HotSpot-7.0/temperature_grid.c:370-376 | units inside the chip pass all range checks |
| `GridMapping.UnitArea` | HotSpot-7.0/temperature_grid.c:386-452 | a unit, with or without area, is the sum of its parts in the cells |
| `GridMapping.PowerIsConserved` | HotSpot-7.0/temperature_grid.c:1902-1917 | translating block power to cells conserves the total power of a layer, each unit giving exactly its own |
| `GridMapping.TilesFillCell` | HotSpot-7.0/temperature_grid.c:402-441 | the tiles of any tiling of a box fill every cell exactly as the box does |
| `GridMapping.CellsAreFull` | HotSpot-7.0/temperature_grid.c:3752-3773 | in every cell of a chip that any floorplan tiles, slicing or not, the occupancies sum to one |
| `GridMapping.TilesPass` | HotSpot-7.0/temperature_grid.c:362-376 | units with area that tile the chip pass all range checks |
| `GridMapping.DensitiesDefinedIff` | HotSpot-7.0/temperature_grid.c:323-338 | the power averages divide by zero in no cell if and only if no unit is without area: units without area that pass the checks are listed too |
| `GridMapping.CellTemperatureBounds` | HotSpot-7.0/temperature_grid.c:1902-1922 | on a tiled chip no translated cell temperature lies outside the range of the unit temperatures |
| `GridMapping.SharedIsCommonArea` | HotSpot-7.0/temperature_grid.c:362-441 | what is stored for a unit and a cell is the area the unit has in common with that cell, columns counted from the left and rows from the top |
| `GridMapping.CellPowerIs` | HotSpot-7.0/temperature_grid.c:323-338 | the power of a cell is the sum over the units of power density times common area |
| `GridMapping.CellTemperatureIs` | HotSpot-7.0/temperature_grid.c:323-338 | the temperature of a cell times its area is the sum over the units of temperature times common area |
| `GridState.SetBgmap` | HotSpot-7.0/temperature_grid.c:341-456 | for units of any size that is not negative: aborts exactly when a unit's index range is unusable; otherwise each cell lists the units that reach it, in order, with their occupancies |
| `GridState.BlistAvg` | HotSpot-7.0/temperature_grid.c:323-338 | the occupancy-weighted power density or temperature of a list; powers need units with area |
| `GridState.XlateVectorB2G` | HotSpot-7.0/temperature_grid.c:1888-1929 | every cell of every layer gets its own layer's average density times the cell area, or average temperature; the powers of each layer's cells sum to the powers of its units; package entries are copied |
| `GridMatrix.NeighboursAreLinks` | HotSpot-7.0/temperature_grid.c:5399-6211 | each row emits exactly the nodes linked to its own, each once, in all nine positions and for all package nodes |
| `GridMatrix.EntryCount` | HotSpot-7.0/temperature_grid.c:5251-5264 | the number of emitted entries is exactly the closed-form nnz, so the final check cannot fail |
| `GridMatrix.PatternIsExact` | HotSpot-7.0/temperature_grid.c:5399-6211 | coordinates are pairwise distinct, the pattern is symmetric and has a full diagonal |
| `GridMatrixState.IndexInjective` | HotSpot-7.0/temperature_grid.c:5276-5280 | different cells and package nodes have different row numbers |
| `GridMatrixState.InLayerColumns` | HotSpot-7.0/temperature_grid.c:5399-6012 | the case split on grididx emits the grid neighbours' numbers in the builder's order |
| `GridMatrixState.EmitRow` | HotSpot-7.0/temperature_grid.c:5399-5495 | a row is written with its diagonal accumulated from what was emitted |
| `GridMatrixState.BuildCoo` | HotSpot-7.0/temperature_grid.c:5274-6211 | the arrays hold all entries, filling the allocation exactly |
| `GridMatrixState.LastColumnIsUsed` | HotSpot-7.0/temperature_grid.c:6015-6211 | the last column always has an entry, the condition under which the conversion is complete |
| `GridMatrixState.BuildCsc` | HotSpot-7.0/temperature_grid.c:6502-6505 | builder and conversion composed: complete column pointers for exactly the emitted entries, no coordinates twice and rows ascending strictly in every column |
| `GridMatrixState.EmittedDistinct` | HotSpot-7.0/temperature_grid.c:5399-6211 | no two emitted entries have the same coordinates |
| `GridNetwork.EmittedRepresents` | HotSpot-7.0/temperature_grid.c:5399-6211 | the emitted entries are exactly the non-zero positions of one matrix, with its values |
| `GridNetwork.RowSum` | HotSpot-7.0/temperature_grid.c:5399-6211 | every row of that matrix sums to its node's conductance to ambient |
| `GridNetwork.GridIsNetwork` | HotSpot-7.0/temperature_grid.c:5399-6211 | for conductances that are the same both ways and positive on links, the matrix is a resistor network |
| `GridNetwork.NodeHeat` | HotSpot-7.0/temperature_grid.c:5399-6211 | a row times the temperatures is the heat leaving its node: to ambient, and through the given conductances to exactly the nodes it is joined to |
| `GridNetwork.ConnectedIffCooled` | HotSpot-7.0/temperature_grid.c:5399-6211 | all nodes have a way to ambient if and only if some node passes heat to it: grid and package hang together |
| `GridNetwork.GridIsPositiveDefinite` | HotSpot-7.0/temperature_grid.c:6502-6505 | the matrix is positive definite if and only if some node passes heat to ambient, and then non-singular |
| `GridNetwork.NoNodeBelowAmbient` | HotSpot-7.0/temperature_grid.c:6502-6505 | where power is only put in, no solution has a node below ambient |
| `GridNetwork.BuildNetwork` | HotSpot-7.0/temperature_grid.c:5244-6505 | builder, conversion and physics composed: the compressed columns represent that network matrix |

## Left out

- Rounding: all arithmetic is exact. The tolerance of `eq` is kept in `lupdcmp`, where it decides the abort, and is
  exact equality elsewhere (rim edges, floors and ceilings of the grid map).
- LupState.Matinv: a system of dimension zero is not covered; the code never builds one.
- PressureState.Microchannel.BuildPressureMatrix: the ideal pump only, because the rows for the pump node are allocated
  without its column (microchannel.c:412-429). The counter nnz, which only the SuperLU path reads, is not kept.
- GaussJordanState.Gaussj: the final column exchanges (util.c:687-694) start at row 1 and touch only the stored inverse,
  not the solution vector; neither they nor the index records they use are modelled.
- ConductanceState.FillB: the conductances g and g_amb are given; how they follow from materials and geometry
  (temperature_block.c:64-248) is not modelled.
- GridState.SetBgmap: per-cell resistivities and capacities of the detailed 3-D mode are not kept with the lists.
- GridState.XlateVectorB2G: powers are translated for units with area only; the others would divide by zero.
- GridMatrixState.BuildCoo: conductances between nodes are parameters, so the resistance formulas of find_res, the
  secondary heat path and the microchannel terms are not part of the model; `GridNetwork` assumes of them only that they
  are the same both ways and positive.
- PeriodicGraphs.PGraph.PackProcessor: task times are any values above a positive bound, clipped to the period; the
  formula with rounding that draws them is not modelled.
- PeriodicGraphs.PGraph.constructor: names, costs, arc data sizes and execution-time tables are not kept.
- Floorplan.Anneal: the metric is any function of the placed units, and the outcomes of the Boltzmann test and the number
  of trials are given, so the temperature schedule is not modelled; neither are wrapping an L2 cache around the chip, wire
  densities and power vectors.
- RandomGenerator.RGen.Flat01: Gaussian and ranged variates, which need rounding and transcendental functions.
- MaxDepth.MaxDepthFrom: one start only; several starts overwrite depths found from earlier ones.
- Breadth-first search and shortest paths of Graph.cc: the first recurses child by child and has no level order, the
  second aborts on entry.
- shape_from_aspect and package resistances, which rest on roots, powers and exponentials; leaf curves are assumed
  positive and monotone.
- BLAS, LAPACK and SuperLU branches, file and command-line handling, printing.
- Memory: a curve without position arrays (a leaf) has empty arrays instead of null pointers; freeing is not modelled.
