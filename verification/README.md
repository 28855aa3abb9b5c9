# 8-puzzle solver, modelled in Dafny

A model of the 3×3 sliding-tile solver of the 8-puzzle-cs repository (C#):

- the board class `PuzzleState`:
  - its constructor and cached cost;
  - the Manhattan heuristic;
  - `CompareTo`;
  - successor generation;
  - the goal test;
- the scrambler `GenerateSolvableArray` and its inversion-parity test `IsSolvable`;
- the closed-set key `PuzzleToString` and its parse-back `ConvertStringToList`;
- the two best-first search loops:
  - the web service's, which runs until the frontier is empty and rebuilds the path to the last goal it saw;
  - the console program's, which stops at the first goal and collects the path with a stack;
- the controller's rule that cuts a long answer down to its first 50 and last 50 grids.

The console program (`8-puzzle/Program.cs`) carries a verbatim copy of `PuzzleState`. Its `PuzzleToString`, `GenerateSolvableArray` and `IsSolvable` are the service's too. One model serves both copies.

Modules, one per concern:

- `Common`: `Option`, C#'s truncating `/` and `%`, and sequence reversal.
- `Grid`: the board as a row-major `seq<int>` of nine cells; the two layouts; `Slide` (the successor's cell update); and `IsMove`, one legal move.
- `Heuristic`: `GetManhattanDistance`.
- `Parity`: `IsSolvable` and the inversion count, with the fact that a move keeps its parity.
- `Key`: `PuzzleToString`, `ConvertStringToList` and their round trip.
- `Puzzle`: `PuzzleState`: the constructor, `CompareTo`, `GenerateSuccessors`, `IsGoal`, parent chains.
- `Scrambler`: `GenerateSolvableArray`.
- `Search`: the service's `Solve`, `PrintSolution`, and the console `PuzzleSolver.Solve`.
- `Controller`: the truncation inside `Get`.

The frontier is a sequence. Dequeueing takes some entry of least cost: the .NET priority queue promises no order among equal costs, so the model promises none either.

The search loops are proved to terminate. Every grid a search can meet holds only values of the start grid and 0. There are finitely many such grids. Each round either closes a new key, or drops a queued entry whose key is already closed.

Two behaviours of the source are kept as written:

- `IsGoal` accepts `0 1 2 / 3 4 5 / 6 7 8`, while the heuristic aims at `1 2 3 / 4 5 6 / 7 8 0`. The accepted layout has heuristic 12, so the search is not A* toward its own goal.
- The service's loop does not break at a goal. It keeps the last goal it dequeued and explores until the frontier is empty.

## Model

| member | source | states |
|---|---|---|
| `Common.TruncDivision` | Application/Dtos/PuzzleState.cs:32-33 | C#'s `/` and `%` on `int` satisfy the division identity, with the remainder smaller than the divisor and carrying the dividend's sign |
| `Common.Reverse` | Application/Services/PuzzleSolverService.cs:62 | `List.Reverse`: same length, entry `i` is entry `n - 1 - i` of the input |
| `Common.ReverseCons` | Application/Services/PuzzleSolverService.cs:62 | reversing sends a front element to the back |
| `Grid.SlideCells` | Application/Dtos/PuzzleState.cs:58-60 | the successor grid differs from the parent's only at the blank cell (now the neighbour's value) and the neighbour cell (now 0) |
| `Grid.Slide` | Application/Dtos/PuzzleState.cs:58-60 | the copied grid keeps nine cells, holds 0 at the neighbour, and holds the neighbour's old value at the blank cell when the two differ |
| `Grid.SlideIsSwap` | Application/Dtos/PuzzleState.cs:58-60 | when the blank coordinates really locate a 0, the cell update is a swap of the blank with an orthogonal neighbour, that is one legal move |
| `Grid.SwapKeepsPermutation` | Application/Services/PuzzleSolverService.cs:98-102 | exchanging two cells of a permutation of 0..8 gives a permutation of 0..8 |
| `Grid.SlideStaysOver` | Application/Dtos/PuzzleState.cs:58-60 | a move brings in no value other than 0 and those already on the board |
| `Grid.PermutationHasBlank` | Application/Services/PuzzleSolverService.cs:15-26 | a permutation of 0..8 contains the blank that the locate loop searches for |
| `Grid.PermutationSingleBlank` | Application/Services/PuzzleSolverService.cs:15-26 | a permutation has only one blank cell |
| `Grid.NeighbourOffsets` | Application/Dtos/PuzzleState.cs:49 | in row-major order an orthogonal neighbour lies 1 or 3 cells away |
| `Heuristic.GetManhattanDistance` | Application/Dtos/PuzzleState.cs:22-39 | the nested loop returns the sum, over the nonzero cells, of the row and column distance to the cell ((v-1)/3, (v-1)%3); the sum is never negative |
| `Heuristic.TileDistanceZero` | Application/Dtos/PuzzleState.cs:29-35 | a tile contributes 0 exactly in the cell `v - 1`; the blank always contributes 0 |
| `Heuristic.PartialDistanceZero` | Application/Dtos/PuzzleState.cs:25-37 | a partial sum is 0 exactly when every cell it covers contributes 0 |
| `Heuristic.ManhattanZeroIff` | Application/Dtos/PuzzleState.cs:22-39 | over permutations of 0..8 the heuristic is 0 exactly for `1 2 3 / 4 5 6 / 7 8 0` |
| `Heuristic.GoalLayoutPrefix` | Application/Dtos/PuzzleState.cs:25-37 | the running sums of the heuristic over `0 1 2 / 3 4 5 / 6 7 8`, cell by cell |
| `Heuristic.ManhattanAtGoalLayout` | Application/Dtos/PuzzleState.cs:32-34 | the layout `IsGoal` accepts has heuristic 12 |
| `Heuristic.PartialDistanceUpdate` | Application/Dtos/PuzzleState.cs:25-37 | changing one cell changes the running sum by exactly that cell's change of contribution |
| `Heuristic.TileStep` | Application/Dtos/PuzzleState.cs:34 | moving a tile to a neighbouring cell changes its distance by exactly one |
| `Heuristic.SlideChangesManhattanByOne` | Application/Dtos/PuzzleState.cs:58-61 | one move of a tile changes the heuristic by exactly +1 or -1 |
| `Parity.IsSolvable` | Application/Services/PuzzleSolverService.cs:114-127 | true exactly when the number of pairs i < j with both values nonzero and `a[i] > a[j]` is even |
| `Parity.InversionsWithConcat` | Application/Services/PuzzleSolverService.cs:119-123 | the inversions one value forms with a concatenation add up over the parts |
| `Parity.InversionCountSwapPair` | Application/Services/PuzzleSolverService.cs:117-124 | exchanging two neighbouring entries changes the count only by the pair they form |
| `Parity.InversionCountAdjacentSwap` | Application/Services/PuzzleSolverService.cs:117-124 | the same fact stated at positions `p` and `p + 1` |
| `Parity.DownMoveCore` | Application/Dtos/PuzzleState.cs:58-60 | the blank moving down a row past distinct tiles keeps the parity of the count |
| `Parity.DownMoveKeepsParity` | Application/Dtos/PuzzleState.cs:58-60 | in a permutation, moving the blank down keeps the parity |
| `Parity.UpMoveKeepsParity` | Application/Dtos/PuzzleState.cs:58-60 | in a permutation, moving the blank up keeps the parity |
| `Parity.OffsetMoveKeepsParity` | Application/Dtos/PuzzleState.cs:49-60 | each of the four offsets of a move keeps the parity |
| `Parity.MoveKeepsParity` | Application/Dtos/PuzzleState.cs:49-60 | any legal move of the blank in a permutation keeps the parity of the inversion count |
| `Parity.LayoutsHaveNoInversions` | Application/Services/PuzzleSolverService.cs:114-127 | `0 1 2 / 3 4 5 / 6 7 8` and `1 2 3 / 4 5 6 / 7 8 0` both have no inversion, so both pass `IsSolvable` |
| `Parity.TargetHasNoInversions` | Application/Services/PuzzleSolverService.cs:114-127 | `1 2 3 / 4 5 6 / 7 8 0` has no inversion: the trailing blank adds none |
| `Parity.SortedNoInversions` | Application/Services/PuzzleSolverService.cs:117-124 | an ascending sequence has no inversion |
| `Parity.NoInversionsWithBlankLast` | Application/Services/PuzzleSolverService.cs:121 | a blank appended at the end adds no inversion |
| `Key.NatToString` | Application/Services/PuzzleSolverService.cs:136 | the decimal text of a number is nonempty and all digits |
| `Key.IntToString` | Application/Services/PuzzleSolverService.cs:136 | a cell's text is nonempty and holds no comma |
| `Key.PuzzleToString` | Application/Services/PuzzleSolverService.cs:129-141 | the key spends at least two characters on every cell, its text and a comma |
| `Key.KeyEndsWithComma` | Application/Services/PuzzleSolverService.cs:132-136 | the key of a nonempty grid ends with the comma after its last cell |
| `Key.Split` | Application/Services/PuzzleSolverService.cs:69 | `Split(",")` gives at least one piece and no piece holds a comma |
| `Key.NonEmpty` | Application/Services/PuzzleSolverService.cs:69 | a piece is in the result exactly when it is a nonempty piece of the input, and the result is no longer than the input |
| `Key.NonEmptySingle` | Application/Services/PuzzleSolverService.cs:69 | on one piece the filter keeps it when nonempty and drops it when empty |
| `Key.NonEmptyConcat` | Application/Services/PuzzleSolverService.cs:69 | the filter of a concatenation is the concatenation of the filters, so kept pieces keep their order and their duplicates |
| `Key.ParseAll` | Application/Services/PuzzleSolverService.cs:71 | the conversion succeeds exactly when every piece is a number, and then yields one value per piece |
| `Key.ConvertStringToList` | Application/Services/PuzzleSolverService.cs:67-72 | every value returned is the number written by some nonempty comma-free piece of the text, and there are no more values than pieces |
| `Key.KeyConcat` | Application/Services/PuzzleSolverService.cs:129-141 | the key of a concatenation is the concatenation of the keys |
| `Key.BuildKey` | Application/Services/PuzzleSolverService.cs:129-141 | the nested loop appends each cell's text and a comma, row by row, and builds the key of the grid |
| `Key.NatRoundTrip` | Application/Services/PuzzleSolverService.cs:71 | the decimal text of a number parses back to the number |
| `Key.ParseInt` | Application/Services/PuzzleSolverService.cs:71 | `Convert.ToInt32` succeeds exactly on an optional `-` followed by at least one digit; `IntRoundTrip` is its inverse partner |
| `Key.IntRoundTrip` | Application/Services/PuzzleSolverService.cs:71 | `Convert.ToInt32` reads back `int.ToString`, negative values included |
| `Key.SplitPiece` | Application/Services/PuzzleSolverService.cs:69 | a comma-free piece followed by a comma splits off as one part |
| `Key.SplitKey` | Application/Services/PuzzleSolverService.cs:69 | splitting a key gives the cells' texts and one empty trailing piece |
| `Key.NonEmptyTexts` | Application/Services/PuzzleSolverService.cs:69 | the filter drops exactly that trailing empty piece |
| `Key.ParseTexts` | Application/Services/PuzzleSolverService.cs:71 | converting the texts gives the cells back |
| `Key.KeyRoundTrip` | Application/Services/PuzzleSolverService.cs:67-72 | `ConvertStringToList(PuzzleToString(g))` is the list of g's cells in row-major order |
| `Key.KeyInjective` | Application/Services/PuzzleSolverService.cs:129-141 | two grids have the same key exactly when they are equal, which the closed set's deduplication relies on |
| `Puzzle.NewState` | Application/Dtos/PuzzleState.cs:12-20 | the constructor keeps its arguments and stores `Cost = Depth + heuristic` of the grid it was given |
| `Puzzle.NewStateCost` | Application/Dtos/PuzzleState.cs:19 | the stored cost is at least the depth; on a permutation it equals the depth exactly at `1 2 3 / 4 5 6 / 7 8 0` |
| `Puzzle.CompareTo` | Application/Dtos/PuzzleState.cs:41-44 | -1, 0 or 1 with the sign of the cost difference |
| `Puzzle.CompareToOrdersByCostAlone` | Application/Dtos/PuzzleState.cs:41-44 | states of equal cost compare alike against any third state, whatever their grids |
| `Puzzle.NewChild` | Application/Dtos/PuzzleState.cs:53-61 | the successor made for an in-bounds direction lies in that direction and is an orthogonal neighbour |
| `Puzzle.SuccessorsUpTo` | Application/Dtos/PuzzleState.cs:49-63 | the first `i` directions yield at most `i` children (at least two once all four are tried), each with the state as parent and depth + 1 |
| `Puzzle.GenerateSuccessors` | Application/Dtos/PuzzleState.cs:46-65 | two to four children, each with the state as parent and depth + 1 |
| `Puzzle.SuccessorsUpToAreChildren` | Application/Dtos/PuzzleState.cs:51-63 | every successor of the first `i` directions is the child for its blank coordinates, in a direction below `i` |
| `Puzzle.SuccessorsAreMoves` | Application/Dtos/PuzzleState.cs:56-61 | a successor's blank coordinates are an orthogonal neighbour of the parent's; its grid is the parent's with the cell at the parent's blank coordinates taking the neighbour's value and the neighbour cell set to 0, every other cell kept; it has depth + 1, the parent as parent, and the constructor's cost |
| `Puzzle.ChildDirection` | Application/Dtos/PuzzleState.cs:53-54 | the child made for direction `d` lies in direction `d` |
| `Puzzle.SuccessorsUpToSorted` | Application/Dtos/PuzzleState.cs:49-63 | successors come out in strictly increasing direction order |
| `Puzzle.CoverExtend` | Application/Dtos/PuzzleState.cs:51-63 | a later direction adds no successor in an earlier one |
| `Puzzle.CoverNew` | Application/Dtos/PuzzleState.cs:56-62 | direction `i - 1` adds a successor exactly when the move stays on the board |
| `Puzzle.SuccessorsUpToCover` | Application/Dtos/PuzzleState.cs:51-63 | there is a successor in direction `d` exactly when that move stays on the board |
| `Puzzle.SuccessorOrder` | Application/Dtos/PuzzleState.cs:49-63 | successors come in the order down, up, right, left, one per direction that stays on the board |
| `Puzzle.SuccessorCount` | Application/Dtos/PuzzleState.cs:49-56 | 2 successors from a corner, 3 from an edge, 4 from the centre |
| `Puzzle.SuccessorOfPermutation` | Application/Dtos/PuzzleState.cs:58-61 | a successor of a permutation is a permutation with its blank at the new coordinates, one legal move away, with the same inversion parity and with the parent's cost or that cost plus 2 |
| `Puzzle.IsGoal` | Application/Dtos/PuzzleState.cs:67-79 | a goal grid has nine cells and its blank in the top-left corner |
| `Puzzle.CheckGoal` | Application/Dtos/PuzzleState.cs:67-79 | the loop returns true exactly when the grid is `0 1 2 / 3 4 5 / 6 7 8` |
| `Puzzle.GoalTestDisagreesWithHeuristic` | Application/Dtos/PuzzleState.cs:32-34 | a state passing `IsGoal` has cost depth + 12; the layout with heuristic 0 fails `IsGoal` |
| `Puzzle.Root` | Application/Services/PuzzleSolverService.cs:56-60 | the end of the parent chain has no parent |
| `Puzzle.Lineage` | 8-puzzle/Program.cs:156-170 | the root-first chain ends at the state itself |
| `Puzzle.AncestryReversed` | 8-puzzle/Program.cs:158-169 | the goal-first chain, reversed, is the root-first chain |
| `Puzzle.LineageFacts` | Application/Services/PuzzleSolverService.cs:56-62 | the root-first chain of a state built by the search has depth + 1 states, starts at the root of depth 0, and each state is a successor of the one before |
| `Puzzle.LineageMoves` | Application/Services/PuzzleSolverService.cs:56-62 | when the root's blank coordinates locate its 0, consecutive grids of the chain are one legal move apart |
| `Puzzle.SuccessorLineal` | Application/Dtos/PuzzleState.cs:61 | a successor's root is its parent's root |
| `Puzzle.LinealKeepsParity` | Application/Dtos/PuzzleState.cs:58-61 | every state descended from a permutation start is a permutation with the start's inversion parity |
| `Puzzle.OddStartNeverReachesGoal` | Application/Dtos/PuzzleState.cs:67-79 | from a start of odd parity no descendant passes the goal test |
| `Puzzle.GoalLayoutEven` | Application/Dtos/PuzzleState.cs:69 | the goal layout has even inversion parity |
| `Scrambler.SwapKeepsMultiset` | Application/Services/PuzzleSolverService.cs:101 | the tuple swap keeps the multiset of values |
| `Scrambler.Shuffle` | Application/Services/PuzzleSolverService.cs:98-102 | Fisher–Yates with any index choices keeps the length and the values, so a permutation stays one |
| `Scrambler.LayOut` | Application/Services/PuzzleSolverService.cs:105-109 | cell (i/3, i%3) gets the i-th number |
| `Scrambler.GenerateSolvableArray` | Application/Services/PuzzleSolverService.cs:90-112 | a returned grid is a permutation of 0..8 with an even inversion count |
| `Search.LocateBlank` | Application/Services/PuzzleSolverService.cs:15-26 | the coordinates are on the board; they locate the last 0 in row-major order, or stay (0, 0) when there is none |
| `Search.StartOfPermutation` | Application/Services/PuzzleSolverService.cs:15-28 | for a permutation, the start state's blank coordinates locate its 0 |
| `Search.Dequeue` | Application/Services/PuzzleSolverService.cs:34 | the dequeued state is an entry of least cost, and the rest of the queue is the old queue without that one entry |
| `Search.EnqueueIfUnclosed` | Application/Services/PuzzleSolverService.cs:49-52 | a successor joins the queue exactly when its key is not closed |
| `Search.EnqueueUnclosed` | Application/Services/PuzzleSolverService.cs:47-53 | the `foreach` appends the successors whose key is not closed, in their order |
| `Search.UnclosedMembers` | Application/Services/PuzzleSolverService.cs:47-53 | the appended states are exactly the successors whose key is not closed |
| `Search.EnqueueStep` | Application/Services/PuzzleSolverService.cs:47-53 | one round of the `foreach` extends the enqueued prefix |
| `Search.EnqueuedMembers` | Application/Services/PuzzleSolverService.cs:47-53 | after the `foreach` every successor is closed or queued, and the queue holds nothing else new |
| `Search.ClosedCountConcat` | Application/Services/PuzzleSolverService.cs:45-53 | the number of queued entries with a closed key adds up over a concatenation |
| `Search.ClosedCountUnclosed` | Application/Services/PuzzleSolverService.cs:49-52 | no newly enqueued successor has a closed key |
| `Search.ClosedCountRemove` | Application/Services/PuzzleSolverService.cs:34 | removing a queued entry whose key is closed lowers that number by one |
| `Search.BoardsContain` | Application/Services/PuzzleSolverService.cs:45 | every grid over a set of values is among the finitely many such grids |
| `Search.KeyInKeysOver` | Application/Services/PuzzleSolverService.cs:45 | so its key is among their finitely many keys |
| `Search.LastGoalNone` | Application/Services/PuzzleSolverService.cs:31-43 | `goalState` stays null exactly when no dequeued state passes the goal test |
| `Search.LastGoalSome` | Application/Services/PuzzleSolverService.cs:37-43 | otherwise it is a dequeued goal with no goal dequeued after it |
| `Search.LastGoalFacts` | Application/Services/PuzzleSolverService.cs:31-43 | both of the above together |
| `Search.LastGoalStep` | Application/Services/PuzzleSolverService.cs:37-40 | each round overwrites `goalState` exactly when the dequeued state is a goal |
| `Search.SuccessorsDescend` | Application/Dtos/PuzzleState.cs:46-65 | successors of a state descended from the start descend from it too and bring in no new values |
| `Search.CoveredExhaustive` | Application/Services/PuzzleSolverService.cs:45-53 | when the frontier is empty and the closed set holds exactly the dequeued keys, every successor of a dequeued state has the grid of a dequeued state |
| `Search.CoveredStep` | Application/Services/PuzzleSolverService.cs:45-53 | one round keeps that every successor of a dequeued state is queued or closed |
| `Search.CloseAndExpand` | Application/Services/PuzzleSolverService.cs:35-53 | closing the dequeued key and enqueueing the unclosed successors grows the closed set by exactly that key, keeps the loop invariant, and lowers the termination measure |
| `Search.InvStep` | Application/Services/PuzzleSolverService.cs:45-53 | one round keeps the loop invariant |
| `Search.MeasureStep` | Application/Services/PuzzleSolverService.cs:45-53 | one round either closes a new key or drops an entry whose key was closed |
| `Search.TraceKeys` | Application/Services/PuzzleSolverService.cs:45 | the closed set is the set of keys of the dequeued states |
| `Search.InitialInv` | Application/Services/PuzzleSolverService.cs:28-29 | the queue holding only the start state satisfies the loop invariant |
| `Search.ServiceSearch` | Application/Services/PuzzleSolverService.cs:15-54 | the loop runs until the frontier is empty; `goalState` ends as the last goal dequeued, every dequeued state descends from the start, and the dequeued layouts are closed under moves (every successor of a dequeued state has the layout of a dequeued state) |
| `Search.SearchDone` | Application/Services/PuzzleSolverService.cs:32-54 | once the frontier is empty, the dequeued layouts are closed under moves |
| `Search.SolveFrom` | Application/Services/PuzzleSolverService.cs:15-64 | the path is empty exactly when no dequeued state is a goal; otherwise it runs from the start grid to `0 1 2 / 3 4 5 / 6 7 8`, has the goal's depth + 1 grids, and, when the start grid holds a 0, consecutive grids are one legal move apart; from an odd permutation it is empty |
| `Search.SolveFromFacts` | Application/Services/PuzzleSolverService.cs:56-64 | the same facts, derived from the last goal and the rebuilt path |
| `Search.SolveFromPath` | Application/Services/PuzzleSolverService.cs:56-64 | what the rebuilt path says about the goal it came from |
| `Search.OddStartTrace` | Application/Services/PuzzleSolverService.cs:37 | from an odd start no dequeued state passes the goal test |
| `Search.GridsOf` | Application/Services/PuzzleSolverService.cs:58 | one grid per state, in order |
| `Search.RebuildPath` | Application/Services/PuzzleSolverService.cs:56-64 | walking the parent links and reversing gives the root-first grids of the goal's chain, starting at the root's grid and ending at the goal's; null gives the empty list |
| `Search.ReversedAncestryGrids` | Application/Services/PuzzleSolverService.cs:56-62 | the reversed goal-first grids are the root-first grids |
| `Search.GridsOfAncestry` | Application/Services/PuzzleSolverService.cs:56-60 | each round of the walk adds the current state's grid |
| `Search.ReverseGrids` | Application/Services/PuzzleSolverService.cs:62 | reversing commutes with taking grids |
| `Search.AncestryEnds` | Application/Services/PuzzleSolverService.cs:56-60 | the walk starts at the goal and ends at the root |
| `Search.Solve` | Application/Services/PuzzleSolverService.cs:7-65 | a nonempty answer starts at an even permutation, ends at `0 1 2 / 3 4 5 / 6 7 8`, and consecutive grids are one legal move apart |
| `Search.PrintSolution` | 8-puzzle/Program.cs:156-170 | pushing the parent chain and popping it yields the states root-first, goal last |
| `Search.ConsoleSolve` | 8-puzzle/Program.cs:98-141 | the console search stops at the first goal dequeued and yields its root-first chain of depth + 1 states; with no goal it reports `None`, and the dequeued layouts are closed under moves; from an odd permutation it reports `None` |
| `Search.ConsoleSearch` | 8-puzzle/Program.cs:103-138 | the goal test comes before closing; a found state is the first goal dequeued, and `None` means no dequeued state was a goal |
| `Search.GoalReturn` | 8-puzzle/Program.cs:122-126 | the early return reports the first goal dequeued |
| `Search.ExhaustedReturn` | 8-puzzle/Program.cs:119-140 | leaving the loop without a goal means none was dequeued and the dequeued layouts are closed under moves |
| `Search.NoGoalAppend` | 8-puzzle/Program.cs:122-128 | a state that reaches the close step is not a goal, so the dequeued states stay goal-free |
| `Search.ConsoleGoal` | 8-puzzle/Program.cs:122-126 | the printed chain of a found goal has depth + 1 states and starts at the start; a permutation start that reaches the goal has even parity |
| `Controller.Truncate` | 8-puzzle/Controllers/PuzzleSolverController.cs:16-24 | the answer has min(n, 100) grids; it is the whole path when n ≤ 100, and otherwise the first 50 followed by the last 50 |
| `Controller.TruncateIsSubsequence` | 8-puzzle/Controllers/PuzzleSolverController.cs:18-22 | a cut answer takes its grids from strictly increasing positions, and the positions left out are exactly 50 to n - 51 |
| `Controller.TruncateKeepsEnds` | 8-puzzle/Controllers/PuzzleSolverController.cs:18-24 | the first and last grids are kept |
| `Controller.TruncateIdempotent` | 8-puzzle/Controllers/PuzzleSolverController.cs:18-24 | cutting an answer again changes nothing |
| `Controller.Get` | 8-puzzle/Controllers/PuzzleSolverController.cs:11-32 | the answer is the service's path cut by `Truncate`, and every step of that path is one move; so the answer has at most 100 grids, a nonempty answer starts at an even permutation and ends at the goal layout, a path of at most 100 grids comes back whole with every step a move, and a longer one keeps the moves within each half |

## Left out

- Console output: `PrintPuzzle`, the printing in `PrintSolution`, and the message printed when no solution is found. Only the order of the states is modelled. The service's call of `PrintSolution` inside its loop has no other effect, so it is not modelled.
- `System.Random`: each Fisher–Yates index is an arbitrary choice in [0, i]. The distribution is not modelled.
- `Scrambler.GenerateSolvableArray`: the do-while retries until the shuffle is solvable, which ends only with probability 1. The model gives it a budget of rounds and returns `None` when the budget runs out.
- `Search.Solve`: returns the empty list when the scrambler's budget runs out. The source would keep shuffling instead.
- `Search.Solve`: does not promise a nonempty path for an even permutation. That would need a proof that the goal layout is reachable from every even permutation, which this model does not contain.
- `Controller.Get`: like `Search.Solve`, it does not promise a nonempty answer, for the same reason.
- The .NET `PriorityQueue` internals: the model promises no tie-break among equal costs.
- A* optimality: the heuristic measures toward a different layout than the goal test accepts.
- Integer overflow: grid values are 0..8 and depths are bounded by the number of layouts.
- `Convert.ToInt32` also accepts a leading `+` and surrounding whitespace. The keys never contain either, so the parser accepts only an optional `-` followed by digits.
- The `int[3, 3]` array is the row-major sequence of its nine cells. The constructor's `Clone` is implicit, because states are values.
- The rest of the controller is ASP.NET plumbing and is not modelled: routing, `ActionResult`, the `PuzzleSolverResponse` wrapper, and dependency injection in `8-puzzle/NativeInjector.cs`.
- `Program.Main` only composes `GenerateSolvableArray` with the console search. Both parts are modelled, but not their composition.
