/** `PuzzleState`: a grid, the cached blank coordinates, the depth (moves
    from the start), the cost `Depth + Manhattan(grid)` and the parent state.
    The console program carries a verbatim copy of this class; one model
    serves both. States are values here, so the constructor's `Clone` of the
    grid is implicit: no later change to one state's grid can reach another. */
module Puzzle {
  import opened Common
  import opened Grid
  import opened Heuristic
  import opened Parity

  datatype PuzzleState = PuzzleState(
    puzzle: Grid,
    emptyRow: int,
    emptyCol: int,
    cost: int,
    depth: int,
    parent: Option<PuzzleState>)

  /** What `GenerateSuccessors` needs to index the grid without an exception. */
  predicate Placed(s: PuzzleState)
  {
    |s.puzzle| == 9 && InBounds(s.emptyRow, s.emptyCol)
  }

  /** The cost the constructor stored. */
  predicate CostConsistent(s: PuzzleState)
  {
    |s.puzzle| == 9 && s.cost == s.depth + Manhattan(s.puzzle)
  }

  /** The blank coordinates really locate a 0. */
  predicate BlankAt(s: PuzzleState)
  {
    Placed(s) && s.puzzle[Idx(s.emptyRow, s.emptyCol)] == 0
  }

  /** The constructor: stores its arguments and computes the cost. */
  function NewState(puzzle: Grid, emptyRow: int, emptyCol: int, depth: int,
                    parent: Option<PuzzleState>): (s: PuzzleState)
    requires |puzzle| == 9
    ensures s.puzzle == puzzle && s.emptyRow == emptyRow && s.emptyCol == emptyCol
    ensures s.depth == depth && s.parent == parent
    ensures CostConsistent(s)
  {
    PuzzleState(puzzle, emptyRow, emptyCol, depth + Manhattan(puzzle), depth, parent)
  }

  /** The stored cost never undercuts the depth, and on a permutation it
      equals the depth exactly at the layout the heuristic aims at. */
  lemma {:induction false} NewStateCost(puzzle: Grid, emptyRow: int, emptyCol: int, depth: int,
                     parent: Option<PuzzleState>)
    requires |puzzle| == 9
    ensures NewState(puzzle, emptyRow, emptyCol, depth, parent).cost >= depth
    ensures IsPermutation(puzzle) ==>
      (NewState(puzzle, emptyRow, emptyCol, depth, parent).cost == depth <==> puzzle == HeuristicTarget)
  {
    if IsPermutation(puzzle) {
      ManhattanZeroIff(puzzle);
    }
  }

  /** `Cost.CompareTo(other.Cost)`: -1, 0 or 1. */
  function CompareTo(a: PuzzleState, b: PuzzleState): (r: int)
    ensures r == -1 || r == 0 || r == 1
    ensures r < 0 <==> a.cost < b.cost
    ensures r > 0 <==> a.cost > b.cost
  {
    if a.cost < b.cost then -1 else if a.cost == b.cost then 0 else 1
  }

  /** The order is a total preorder on costs: grids, depths and parents
      never break a tie. */
  lemma CompareToOrdersByCostAlone(a: PuzzleState, b: PuzzleState, c: PuzzleState)
    ensures CompareTo(a, b) == -CompareTo(b, a)
    ensures CompareTo(a, b) == 0 <==> a.cost == b.cost
    ensures CompareTo(a, b) <= 0 && CompareTo(b, c) <= 0 ==> CompareTo(a, c) <= 0
    ensures CompareTo(a, b) <= 0 || CompareTo(b, a) <= 0
  {
  }

  /** Offsets tried by `GenerateSuccessors`, in order: down, up, right, left. */
  const Directions: seq<(int, int)> := [(1, 0), (-1, 0), (0, 1), (0, -1)]

  /** Blank coordinates after moving in direction `d`. */
  function Target(s: PuzzleState, d: nat): (int, int)
    requires d < 4
  {
    (s.emptyRow + Directions[d].0, s.emptyCol + Directions[d].1)
  }

  predicate CanMove(s: PuzzleState, d: nat)
    requires d < 4
  {
    InBounds(Target(s, d).0, Target(s, d).1)
  }

  /** The successor whose blank moved to (nr, nc). */
  function Child(s: PuzzleState, nr: int, nc: int): PuzzleState
    requires Placed(s) && InBounds(nr, nc)
  {
    NewState(Slide(s.puzzle, s.emptyRow, s.emptyCol, nr, nc), nr, nc, s.depth + 1, Some(s))
  }

  /** The successors produced by the first `i` directions. */
  function SuccessorsUpTo(s: PuzzleState, i: nat): (ts: seq<PuzzleState>)
    requires Placed(s) && i <= 4
    ensures (if i >= 4 then 2 else if i >= 2 then 1 else 0) <= |ts| <= i
    ensures forall k | 0 <= k < |ts| :: ts[k].parent == Some(s) && ts[k].depth == s.depth + 1
  {
    if i == 0 then []
    else
      SuccessorsUpTo(s, i - 1)
      + (if CanMove(s, i - 1) then [Child(s, Target(s, i - 1).0, Target(s, i - 1).1)] else [])
  }

  /** `GenerateSuccessors`: one child per direction whose move stays on the
      board; a blank anywhere on the board has at least two such moves. */
  function GenerateSuccessors(s: PuzzleState): (ts: seq<PuzzleState>)
    requires Placed(s)
    ensures 2 <= |ts| <= 4
    ensures forall k | 0 <= k < |ts| :: ts[k].parent == Some(s) && ts[k].depth == s.depth + 1
  {
    SuccessorsUpTo(s, 4)
  }

  /** The direction index whose offset leads from `s`'s blank to `t`'s
      (4 when none does). */
  function DirectionOf(s: PuzzleState, t: PuzzleState): nat
  {
    var dr, dc := t.emptyRow - s.emptyRow, t.emptyCol - s.emptyCol;
    if (dr, dc) == Directions[0] then 0
    else if (dr, dc) == Directions[1] then 1
    else if (dr, dc) == Directions[2] then 2
    else if (dr, dc) == Directions[3] then 3
    else 4
  }

  /** `t` is the successor of `s` for one of the first `i` directions. */
  predicate ChildWithin(s: PuzzleState, t: PuzzleState, i: nat)
    requires Placed(s)
  {
    && DirectionOf(s, t) < i
    && Placed(t)
    && t == Child(s, t.emptyRow, t.emptyCol)
    && Adjacent(s.emptyRow, s.emptyCol, t.emptyRow, t.emptyCol)
  }

  /** The successor added by direction `d` when that move stays on the board. */
  lemma NewChild(s: PuzzleState, d: nat)
    requires Placed(s) && d < 4 && CanMove(s, d)
    ensures ChildWithin(s, Child(s, Target(s, d).0, Target(s, d).1), d + 1)
  {
    ChildDirection(s, d);
  }

  /** Every successor produced by the first `i` directions is the child for
      its own blank coordinates, in a direction below `i`, and those
      coordinates are an orthogonal neighbour of `s`'s. */
  lemma {:induction false} SuccessorsUpToAreChildren(s: PuzzleState, i: nat)
    requires Placed(s) && i <= 4
    ensures forall t | t in SuccessorsUpTo(s, i) :: ChildWithin(s, t, i)
  {
    if i > 0 {
      SuccessorsUpToAreChildren(s, i - 1);
      var prev := SuccessorsUpTo(s, i - 1);
      assert forall t | t in prev :: ChildWithin(s, t, i);
      if CanMove(s, i - 1) {
        NewChild(s, i - 1);
        var t := Child(s, Target(s, i - 1).0, Target(s, i - 1).1);
        assert forall u | u in prev + [t] :: u in prev || u == t;
      }
    }
  }

  /** Every successor is one slide away from `s`: the cell at `s`'s blank
      coordinates takes the neighbour's value, the neighbour cell becomes 0
      and every other cell is kept; it has the new blank coordinates, depth
      one more, `s` as parent and the constructor's cost. */
  lemma SuccessorsAreMoves(s: PuzzleState, t: PuzzleState)
    requires Placed(s) && t in GenerateSuccessors(s)
    ensures Placed(t) && Adjacent(s.emptyRow, s.emptyCol, t.emptyRow, t.emptyCol)
    ensures t.puzzle == Slide(s.puzzle, s.emptyRow, s.emptyCol, t.emptyRow, t.emptyCol)
    ensures t.puzzle[Idx(t.emptyRow, t.emptyCol)] == 0
    ensures t.puzzle[Idx(s.emptyRow, s.emptyCol)] == s.puzzle[Idx(t.emptyRow, t.emptyCol)]
    ensures forall k | 0 <= k < 9 && k != Idx(s.emptyRow, s.emptyCol) && k != Idx(t.emptyRow, t.emptyCol) ::
      t.puzzle[k] == s.puzzle[k]
    ensures t.depth == s.depth + 1 && t.parent == Some(s)
    ensures CostConsistent(t)
  {
    SuccessorsUpToAreChildren(s, 4);
    SlideCells(s.puzzle, s.emptyRow, s.emptyCol, t.emptyRow, t.emptyCol);
  }

  /** The child made for direction `d` lies in direction `d`. */
  lemma ChildDirection(s: PuzzleState, d: nat)
    requires Placed(s) && d < 4 && CanMove(s, d)
    ensures DirectionOf(s, Child(s, Target(s, d).0, Target(s, d).1)) == d
  {
  }

  /** The successors come in direction order (down, up, right, left). */
  lemma {:induction false} SuccessorsUpToSorted(s: PuzzleState, i: nat)
    requires Placed(s) && i <= 4
    ensures forall k, l | 0 <= k < l < |SuccessorsUpTo(s, i)| ::
      DirectionOf(s, SuccessorsUpTo(s, i)[k]) < DirectionOf(s, SuccessorsUpTo(s, i)[l])
  {
    if i > 0 {
      SuccessorsUpToSorted(s, i - 1);
      SuccessorsUpToAreChildren(s, i - 1);
      var prev := SuccessorsUpTo(s, i - 1);
      if CanMove(s, i - 1) {
        ChildDirection(s, i - 1);
        assert forall k | 0 <= k < |prev| :: prev[k] in prev;
      }
    }
  }

  /** Some state of `ts` lies in direction `d` from `s`. */
  predicate HasDirection(s: PuzzleState, ts: seq<PuzzleState>, d: nat)
  {
    exists k | 0 <= k < |ts| :: DirectionOf(s, ts[k]) == d
  }

  /** A later direction adds no successor in an earlier one. */
  lemma CoverExtend(s: PuzzleState, i: nat, d: nat)
    requires Placed(s) && d + 1 < i <= 4
    ensures HasDirection(s, SuccessorsUpTo(s, i - 1), d) <==> HasDirection(s, SuccessorsUpTo(s, i), d)
  {
    var prev := SuccessorsUpTo(s, i - 1);
    var cur := SuccessorsUpTo(s, i);
    assert forall k | 0 <= k < |prev| :: cur[k] == prev[k];
    if HasDirection(s, prev, d) {
      var k :| 0 <= k < |prev| && DirectionOf(s, prev[k]) == d;
      assert DirectionOf(s, cur[k]) == d;
    }
    if HasDirection(s, cur, d) {
      var k :| 0 <= k < |cur| && DirectionOf(s, cur[k]) == d;
      if k >= |prev| {
        ChildDirection(s, i - 1);
      }
      assert DirectionOf(s, prev[k]) == d;
    }
  }

  /** Direction `i - 1` adds a successor exactly when that move stays on
      the board. */
  lemma CoverNew(s: PuzzleState, i: nat)
    requires Placed(s) && 0 < i <= 4
    ensures CanMove(s, i - 1) <==> HasDirection(s, SuccessorsUpTo(s, i), i - 1)
  {
    var prev := SuccessorsUpTo(s, i - 1);
    var cur := SuccessorsUpTo(s, i);
    if CanMove(s, i - 1) {
      ChildDirection(s, i - 1);
      assert DirectionOf(s, cur[|prev|]) == i - 1;
    } else {
      SuccessorsUpToAreChildren(s, i - 1);
      assert cur == prev;
      assert forall k | 0 <= k < |prev| :: prev[k] in prev;
    }
  }

  /** There is a successor in direction `d` exactly when that move stays on
      the board. */
  lemma {:induction false} SuccessorsUpToCover(s: PuzzleState, i: nat, d: nat)
    requires Placed(s) && d < i <= 4
    ensures CanMove(s, d) <==> HasDirection(s, SuccessorsUpTo(s, i), d)
  {
    if d + 1 < i {
      SuccessorsUpToCover(s, i - 1, d);
      CoverExtend(s, i, d);
    } else {
      CoverNew(s, i);
    }
  }

  lemma SuccessorOrder(s: PuzzleState)
    requires Placed(s)
    ensures forall k, l | 0 <= k < l < |GenerateSuccessors(s)| ::
      DirectionOf(s, GenerateSuccessors(s)[k]) < DirectionOf(s, GenerateSuccessors(s)[l])
    ensures forall d | 0 <= d < 4 :: CanMove(s, d) <==> HasDirection(s, GenerateSuccessors(s), d)
  {
    SuccessorsUpToSorted(s, 4);
    forall d | 0 <= d < 4
      ensures CanMove(s, d) <==> HasDirection(s, GenerateSuccessors(s), d)
    {
      SuccessorsUpToCover(s, 4, d);
    }
  }

  /** Two successors from a corner, three from an edge, four from the centre. */
  lemma SuccessorCount(s: PuzzleState)
    requires Placed(s)
    ensures s.emptyRow != 1 && s.emptyCol != 1 ==> |GenerateSuccessors(s)| == 2
    ensures (s.emptyRow == 1) != (s.emptyCol == 1) ==> |GenerateSuccessors(s)| == 3
    ensures s.emptyRow == 1 && s.emptyCol == 1 ==> |GenerateSuccessors(s)| == 4
  {
    var n0 := |SuccessorsUpTo(s, 0)|;
    var n1 := |SuccessorsUpTo(s, 1)|;
    var n2 := |SuccessorsUpTo(s, 2)|;
    var n3 := |SuccessorsUpTo(s, 3)|;
    var n4 := |SuccessorsUpTo(s, 4)|;
    assert n1 == n0 + (if s.emptyRow < 2 then 1 else 0);
    assert n2 == n1 + (if s.emptyRow > 0 then 1 else 0);
    assert n3 == n2 + (if s.emptyCol < 2 then 1 else 0);
    assert n4 == n3 + (if s.emptyCol > 0 then 1 else 0);
  }

  /** From a state whose blank coordinates locate the only 0 of a
      permutation, a successor is again such a state, reached by one legal
      move; the inversion parity is unchanged, and the cost either stays or
      grows by 2 since the heuristic moves by exactly one. */
  lemma {:induction false} SuccessorOfPermutation(s: PuzzleState, t: PuzzleState)
    requires Placed(s) && IsPermutation(s.puzzle) && BlankAt(s) && CostConsistent(s)
    requires t in GenerateSuccessors(s)
    ensures IsPermutation(t.puzzle) && BlankAt(t)
    ensures IsMove(s.puzzle, t.puzzle)
    ensures InversionCount(t.puzzle) % 2 == InversionCount(s.puzzle) % 2
    ensures t.cost == s.cost || t.cost == s.cost + 2
  {
    SuccessorsAreMoves(s, t);
    var br, bc, nr, nc := s.emptyRow, s.emptyCol, t.emptyRow, t.emptyCol;
    SlideIsSwap(s.puzzle, br, bc, nr, nc);
    IdxCoordinates(br, bc);
    IdxCoordinates(nr, nc);
    var i, j := Idx(br, bc), Idx(nr, nc);
    SwapKeepsPermutation(s.puzzle, i, j);
    assert Neighbours(i, j);
    MoveKeepsParity(s.puzzle, i, j);
    assert s.puzzle[j] != 0 by {
      if s.puzzle[j] == 0 {
        PermutationSingleBlank(s.puzzle, i, j);
      }
    }
    SlideChangesManhattanByOne(s.puzzle, br, bc, nr, nc);
  }

  /** `IsGoal`: the grid is `0 1 2 / 3 4 5 / 6 7 8`. */
  predicate IsGoal(s: PuzzleState)
    ensures IsGoal(s) ==> |s.puzzle| == 9 && s.puzzle[0] == 0
  {
    s.puzzle == GoalLayout
  }

  /** The nested loop of `IsGoal`, returning false at the first cell that
      differs from the goal layout. */
  method CheckGoal(s: PuzzleState) returns (goal: bool)
    requires |s.puzzle| == 9
    ensures goal <==> IsGoal(s)
  {
    var i := 0;
    while i < 3
      invariant 0 <= i <= 3
      invariant forall k | 0 <= k < 3 * i :: s.puzzle[k] == GoalLayout[k]
    {
      var j := 0;
      while j < 3
        invariant 0 <= j <= 3
        invariant forall k | 0 <= k < 3 * i + j :: s.puzzle[k] == GoalLayout[k]
      {
        if s.puzzle[Idx(i, j)] != GoalLayout[Idx(i, j)] {
          return false;
        }
        j := j + 1;
      }
      i := i + 1;
    }
    return true;
  }

  /** The goal test and the heuristic disagree: a state that passes the
      goal test still has heuristic 12, so its cost is its depth plus 12,
      while the only permutation with heuristic 0 fails the goal test. */
  lemma GoalTestDisagreesWithHeuristic(s: PuzzleState)
    requires CostConsistent(s)
    ensures IsGoal(s) ==> s.cost == s.depth + 12
    ensures s.puzzle == HeuristicTarget ==> !IsGoal(s) && s.cost == s.depth
  {
    ManhattanAtGoalLayout();
    assert IsPermutation(HeuristicTarget);
    ManhattanZeroIff(HeuristicTarget);
  }

  /** A state whose parent chain was built by the constructor and
      `GenerateSuccessors`: the root has depth 0 and no parent, every other
      state is one of its parent's successors. */
  predicate Lineal(s: PuzzleState)
    decreases s
  {
    && Placed(s) && CostConsistent(s)
    && match s.parent
       case None => s.depth == 0
       case Some(p) => Lineal(p) && s in GenerateSuccessors(p)
  }

  /** The state at the end of the parent chain. */
  function Root(s: PuzzleState): (r: PuzzleState)
    ensures r.parent.None?
    decreases s
  {
    match s.parent
    case None => s
    case Some(p) => Root(p)
  }

  /** The parent chain read from the root to `s`. */
  function Lineage(s: PuzzleState): (path: seq<PuzzleState>)
    ensures |path| >= 1 && path[|path| - 1] == s
    decreases s
  {
    match s.parent
    case None => [s]
    case Some(p) => Lineage(p) + [s]
  }

  /** The parent chain read from `s` back to the root, as collected by the
      reconstruction loops. */
  function Ancestry(s: PuzzleState): seq<PuzzleState>
    decreases s
  {
    match s.parent
    case None => [s]
    case Some(p) => [s] + Ancestry(p)
  }

  lemma {:induction false} AncestryReversed(s: PuzzleState)
    ensures Reverse(Ancestry(s)) == Lineage(s)
    decreases s
  {
    match s.parent
    case None =>
    case Some(p) =>
      AncestryReversed(p);
      ReverseCons(s, Ancestry(p));
  }

  /** The root-first chain has `Depth + 1` states, starts at the root (depth
      0, no parent) and ends at `s`, and each state is a successor of the one
      before it. */
  lemma {:induction false} LineageFacts(s: PuzzleState)
    requires Lineal(s)
    ensures |Lineage(s)| == s.depth + 1
    ensures Lineage(s)[0] == Root(s) && Root(s).depth == 0 && Lineal(Root(s))
    ensures forall i | 0 <= i < |Lineage(s)| - 1 ::
      Lineal(Lineage(s)[i])
      && Lineage(s)[i + 1].parent == Some(Lineage(s)[i])
      && Lineage(s)[i + 1] in GenerateSuccessors(Lineage(s)[i])
    decreases s
  {
    match s.parent
    case None =>
    case Some(p) =>
      LineageFacts(p);
      SuccessorsAreMoves(p, s);
      assert Lineage(s) == Lineage(p) + [s];
  }

  /** Below the root every state's blank coordinates locate a 0, so when the
      root's do too, consecutive grids of the chain are one legal move apart. */
  lemma {:induction false} LineageMoves(s: PuzzleState)
    requires Lineal(s) && BlankAt(Root(s))
    ensures forall i | 0 <= i < |Lineage(s)| - 1 ::
      IsMove(Lineage(s)[i].puzzle, Lineage(s)[i + 1].puzzle)
  {
    LineageFacts(s);
    var path := Lineage(s);
    forall i | 0 <= i < |path| - 1
      ensures IsMove(path[i].puzzle, path[i + 1].puzzle)
    {
      var p, t := path[i], path[i + 1];
      assert BlankAt(p) by {
        if i > 0 {
          SuccessorsAreMoves(path[i - 1], p);
        }
      }
      SuccessorsAreMoves(p, t);
      SlideIsSwap(p.puzzle, p.emptyRow, p.emptyCol, t.emptyRow, t.emptyCol);
    }
  }

  /** The root of a successor is the root of its parent. */
  lemma {:induction false} SuccessorLineal(s: PuzzleState, t: PuzzleState)
    requires Lineal(s) && t in GenerateSuccessors(s)
    ensures Lineal(t) && Root(t) == Root(s)
  {
    SuccessorsAreMoves(s, t);
  }

  /** Every state descended from a start whose blank coordinates locate the
      0 of a permutation is again such a state, with the start's inversion
      parity. */
  lemma {:induction false} LinealKeepsParity(s: PuzzleState)
    requires Lineal(s) && IsPermutation(Root(s).puzzle) && BlankAt(Root(s))
    ensures IsPermutation(s.puzzle) && BlankAt(s)
    ensures InversionCount(s.puzzle) % 2 == InversionCount(Root(s).puzzle) % 2
    decreases s
  {
    match s.parent
    case None =>
    case Some(p) =>
      LinealKeepsParity(p);
      SuccessorOfPermutation(p, s);
  }

  /** From a start of odd parity the goal test never succeeds, however many
      moves are made. */
  lemma {:induction false} OddStartNeverReachesGoal(s: PuzzleState)
    requires Lineal(s) && IsPermutation(Root(s).puzzle) && BlankAt(Root(s))
    requires InversionCount(Root(s).puzzle) % 2 == 1
    ensures !IsGoal(s)
  {
    LinealKeepsParity(s);
    if IsGoal(s) {
      GoalLayoutEven(s.puzzle);
    }
  }

  /** The goal layout has even parity. A separate lemma keeps the inversion
      count of the literal layout out of the parent-chain proof above. */
  lemma GoalLayoutEven(g: Grid)
    requires g == GoalLayout
    ensures InversionCount(g) % 2 == 0
  {
    LayoutsHaveNoInversions();
  }
}
