/** The A* loops. The service (`PuzzleSolverService.Solve`) keeps searching
    after a goal is found and returns the path to the last goal it dequeued;
    the console program (`PuzzleSolver.Solve`) stops at the first goal.
    Both keep a priority queue of states ordered by cost and a closed set
    of grid keys; a grid whose key is closed is never enqueued again, but
    a grid already in the queue may be enqueued a second time.

    The priority queue is a sequence; `Dequeue` takes an entry of least
    cost, leaving open which one of several equal-cost entries comes out.
    The loops have no fuel: the service's terminates because only finitely
    many keys exist over the values of the start grid (see `KeysOver`).
    Each search returns, as a ghost `trace`, the states in the order they
    were dequeued, so the contracts can say which goal is reported. */
module Search {
  import opened Common
  import opened Grid
  import opened Parity
  import opened Key
  import opened Puzzle
  import opened Scrambler

  /** The loop before the search: scanning row by row, it keeps the last
      cell holding 0, and (0, 0) when no cell does. */
  method LocateBlank(g: Grid) returns (emptyRow: int, emptyCol: int)
    requires |g| == 9
    ensures InBounds(emptyRow, emptyCol)
    ensures 0 in g ==> g[Idx(emptyRow, emptyCol)] == 0
    ensures 0 in g ==> forall k | Idx(emptyRow, emptyCol) < k < 9 :: g[k] != 0
    ensures 0 !in g ==> emptyRow == 0 && emptyCol == 0
  {
    emptyRow, emptyCol := 0, 0;
    var i := 0;
    while i < 3
      invariant 0 <= i <= 3 && InBounds(emptyRow, emptyCol)
      invariant 0 in g[..3 * i] ==> Idx(emptyRow, emptyCol) < 3 * i && g[Idx(emptyRow, emptyCol)] == 0
      invariant forall k | Idx(emptyRow, emptyCol) < k < 3 * i :: g[k] != 0
      invariant 0 !in g[..3 * i] ==> emptyRow == 0 && emptyCol == 0
    {
      var j := 0;
      while j < 3
        invariant 0 <= j <= 3 && InBounds(emptyRow, emptyCol)
        invariant 0 in g[..3 * i + j] ==>
          Idx(emptyRow, emptyCol) < 3 * i + j && g[Idx(emptyRow, emptyCol)] == 0
        invariant forall k | Idx(emptyRow, emptyCol) < k < 3 * i + j :: g[k] != 0
        invariant 0 !in g[..3 * i + j] ==> emptyRow == 0 && emptyCol == 0
      {
        assert g[..3 * i + j + 1] == g[..3 * i + j] + [g[3 * i + j]];
        if g[Idx(i, j)] == 0 {
          emptyRow, emptyCol := i, j;
        }
        j := j + 1;
      }
      i := i + 1;
    }
    assert g[..9] == g;
  }

  /** The start state of a permutation locates its only blank. */
  lemma StartOfPermutation(g: Grid, emptyRow: int, emptyCol: int)
    requires IsPermutation(g) && InBounds(emptyRow, emptyCol)
    requires 0 in g ==> g[Idx(emptyRow, emptyCol)] == 0
    ensures BlankAt(NewState(g, emptyRow, emptyCol, 0, None))
  {
    PermutationHasBlank(g);
  }

  /** `PriorityQueue.Dequeue`: an entry of least cost (the priority it was
      enqueued with), and the queue without that one entry. */
  method Dequeue(open: seq<PuzzleState>) returns (current: PuzzleState, rest: seq<PuzzleState>, ghost k: nat)
    requires |open| > 0
    ensures k < |open| && current == open[k] && rest == open[..k] + open[k + 1..]
    ensures current in open
    ensures forall e | e in open :: CompareTo(current, e) <= 0
    ensures multiset(rest) + multiset{current} == multiset(open)
    ensures forall e | e in open :: e in rest || e == current
    ensures forall e | e in rest :: e in open
  {
    var best := open[0].cost;
    var i := 1;
    while i < |open|
      invariant 1 <= i <= |open|
      invariant exists m | 0 <= m < i :: open[m].cost == best
      invariant forall m | 0 <= m < i :: best <= open[m].cost
    {
      if open[i].cost < best {
        best := open[i].cost;
      }
      i := i + 1;
    }
    var m :| 0 <= m < |open| && open[m].cost == best;
    current, rest, k := open[m], open[..m] + open[m + 1..], m;
    assert open == open[..m] + [current] + open[m + 1..];
  }

  function KeyOf(s: PuzzleState): string
  {
    PuzzleToString(s.puzzle)
  }

  /** The key of a state, built by the nested loop. */
  method StateKey(s: PuzzleState) returns (key: string)
    requires |s.puzzle| == 9
    ensures key == KeyOf(s)
  {
    key := BuildKey(s.puzzle);
  }

  /** One round of the `foreach`: the successor joins the queue unless
      its key is closed. */
  method EnqueueIfUnclosed(queue: seq<PuzzleState>, s: PuzzleState, closed: set<string>)
    returns (queue': seq<PuzzleState>)
    requires |s.puzzle| == 9
    ensures KeyOf(s) in closed ==> queue' == queue
    ensures KeyOf(s) !in closed ==> queue' == queue + [s]
  {
    var key := StateKey(s);
    queue' := queue;
    if key !in closed {
      queue' := queue' + [s];
    }
  }

  /** The successors the `foreach` enqueues: those whose key is not
      closed, in their order. */
  function Unclosed(succ: seq<PuzzleState>, closed: set<string>): (r: seq<PuzzleState>)
    ensures |r| <= |succ|
  {
    if |succ| == 0 then []
    else
      var last := succ[|succ| - 1];
      Unclosed(succ[..|succ| - 1], closed) + (if KeyOf(last) in closed then [] else [last])
  }

  /** The `foreach` over the successors, checking each key against the
      closed set before enqueueing. */
  method EnqueueUnclosed(open: seq<PuzzleState>, succ: seq<PuzzleState>, closed: set<string>)
    returns (open': seq<PuzzleState>)
    requires forall k | 0 <= k < |succ| :: |succ[k].puzzle| == 9
    ensures open' == open + Unclosed(succ, closed)
  {
    open' := open;
    var i := 0;
    while i < |succ|
      invariant 0 <= i <= |succ|
      invariant open' == open + Unclosed(succ[..i], closed)
    {
      EnqueueStep(open, succ, i, closed, open');
      open' := EnqueueIfUnclosed(open', succ[i], closed);
      i := i + 1;
    }
    assert succ[..i] == succ;
  }

  /** `Unclosed` keeps exactly the successors whose key is not closed. */
  lemma {:induction false} UnclosedMembers(succ: seq<PuzzleState>, closed: set<string>)
    ensures forall e | e in Unclosed(succ, closed) :: e in succ && KeyOf(e) !in closed
    ensures forall e | e in succ && KeyOf(e) !in closed :: e in Unclosed(succ, closed)
  {
    if |succ| > 0 {
      var front := succ[..|succ| - 1];
      UnclosedMembers(front, closed);
      assert forall e | e in succ :: e in front || e == succ[|succ| - 1];
      assert forall e | e in front :: e in succ;
    }
  }

  /** One round of the `foreach`: the queue grows by the successor exactly
      when its key is not closed. */
  lemma EnqueueStep(open: seq<PuzzleState>, succ: seq<PuzzleState>, i: int, closed: set<string>,
                    queue: seq<PuzzleState>)
    requires 0 <= i < |succ| && queue == open + Unclosed(succ[..i], closed)
    ensures KeyOf(succ[i]) in closed ==> queue == open + Unclosed(succ[..i + 1], closed)
    ensures KeyOf(succ[i]) !in closed ==> queue + [succ[i]] == open + Unclosed(succ[..i + 1], closed)
  {
    assert succ[..i + 1][..i] == succ[..i];
    var kept := Unclosed(succ[..i], closed);
    assert open + kept + [succ[i]] == open + (kept + [succ[i]]);
    assert kept + [] == kept;
  }

  lemma EnqueuedMembers(open: seq<PuzzleState>, succ: seq<PuzzleState>, closed: set<string>)
    ensures forall e | e in open + Unclosed(succ, closed) :: e in open || (e in succ && KeyOf(e) !in closed)
    ensures forall e | e in succ :: KeyOf(e) in closed || e in open + Unclosed(succ, closed)
  {
    UnclosedMembers(succ, closed);
  }

  /** How many entries of the queue have a closed key. */
  function ClosedCount(open: seq<PuzzleState>, closed: set<string>): nat
  {
    if |open| == 0 then 0
    else (if KeyOf(open[0]) in closed then 1 else 0) + ClosedCount(open[1..], closed)
  }

  lemma {:induction false} ClosedCountConcat(a: seq<PuzzleState>, b: seq<PuzzleState>, closed: set<string>)
    ensures ClosedCount(a + b, closed) == ClosedCount(a, closed) + ClosedCount(b, closed)
  {
    if |a| == 0 {
      assert a + b == b;
    } else {
      assert (a + b)[1..] == a[1..] + b;
      ClosedCountConcat(a[1..], b, closed);
    }
  }

  lemma {:induction false} ClosedCountUnclosed(succ: seq<PuzzleState>, closed: set<string>)
    ensures ClosedCount(Unclosed(succ, closed), closed) == 0
  {
    if |succ| > 0 {
      var last := succ[|succ| - 1];
      var tail := if KeyOf(last) in closed then [] else [last];
      ClosedCountUnclosed(succ[..|succ| - 1], closed);
      ClosedCountConcat(Unclosed(succ[..|succ| - 1], closed), tail, closed);
      if tail != [] {
        assert tail[1..] == [];
      }
    }
  }

  /** Removing one entry with a closed key lowers the count by one. */
  lemma ClosedCountRemove(open: seq<PuzzleState>, k: nat, closed: set<string>)
    requires k < |open| && KeyOf(open[k]) in closed
    ensures ClosedCount(open, closed) == ClosedCount(open[..k] + open[k + 1..], closed) + 1
  {
    assert open == open[..k] + [open[k]] + open[k + 1..];
    ClosedCountConcat(open[..k] + [open[k]], open[k + 1..], closed);
    ClosedCountConcat(open[..k], [open[k]], closed);
    ClosedCountConcat(open[..k], open[k + 1..], closed);
    assert [open[k]][1..] == [];
  }

  /** All sequences of length `n` over `vals`. */
  ghost function Boards(vals: set<int>, n: nat): set<seq<int>>
  {
    if n == 0 then {[]} else set x, t | x in vals && t in Boards(vals, n - 1) :: [x] + t
  }

  lemma {:induction false} BoardsContain(vals: set<int>, g: seq<int>)
    requires forall k | 0 <= k < |g| :: g[k] in vals
    ensures g in Boards(vals, |g|)
  {
    if |g| > 0 {
      BoardsContain(vals, g[1..]);
      var x, t := g[0], g[1..];
      assert t in Boards(vals, |g| - 1) && x in vals;
      assert g == [x] + t;
      assert [x] + t in (set x', t' | x' in vals && t' in Boards(vals, |g| - 1) :: [x'] + t');
    }
  }

  /** The keys of all nine-cell grids over `vals`: a finite set that holds
      every key the search can close. */
  ghost function KeysOver(vals: set<int>, n: nat): set<string>
  {
    set g | g in Boards(vals, n) :: PuzzleToString(g)
  }

  lemma KeyInKeysOver(g: Grid, vals: set<int>)
    requires Over(g, vals)
    ensures PuzzleToString(g) in KeysOver(vals, |g|)
  {
    BoardsContain(vals, g);
  }

  ghost function KeysOf(trace: seq<PuzzleState>): set<string>
  {
    set t | t in trace :: KeyOf(t)
  }

  /** The last goal of the trace, as the service's `goalState` holds it. */
  ghost function LastGoal(trace: seq<PuzzleState>): Option<PuzzleState>
  {
    if |trace| == 0 then None
    else if IsGoal(trace[|trace| - 1]) then Some(trace[|trace| - 1])
    else LastGoal(trace[..|trace| - 1])
  }

  /** `LastGoal` is empty exactly when no state of the trace is a goal. */
  lemma {:induction false} LastGoalNone(trace: seq<PuzzleState>)
    ensures LastGoal(trace).None? <==> forall t | t in trace :: !IsGoal(t)
  {
    if |trace| > 0 && !IsGoal(trace[|trace| - 1]) {
      var front := trace[..|trace| - 1];
      LastGoalNone(front);
      assert forall t | t in trace :: t in front || t == trace[|trace| - 1];
      assert forall t | t in front :: t in trace;
    }
  }

  /** Otherwise it is a goal of the trace after which no goal follows. */
  lemma {:induction false} LastGoalSome(trace: seq<PuzzleState>)
    requires LastGoal(trace).Some?
    ensures IsGoal(LastGoal(trace).value)
    ensures exists k | 0 <= k < |trace| ::
      trace[k] == LastGoal(trace).value && forall l | k < l < |trace| :: !IsGoal(trace[l])
  {
    var n := |trace|;
    if IsGoal(trace[n - 1]) {
      assert trace[n - 1] == LastGoal(trace).value;
    } else {
      var front := trace[..n - 1];
      LastGoalSome(front);
      var k :| 0 <= k < |front| && front[k] == LastGoal(front).value
        && forall l | k < l < |front| :: !IsGoal(front[l]);
      assert trace[k] == LastGoal(trace).value;
      assert forall l | k < l < n :: !IsGoal(trace[l]);
    }
  }

  lemma LastGoalFacts(trace: seq<PuzzleState>)
    ensures LastGoal(trace).None? <==> forall t | t in trace :: !IsGoal(t)
    ensures LastGoal(trace).Some? ==> IsGoal(LastGoal(trace).value) && LastGoal(trace).value in trace
    ensures LastGoal(trace).Some? ==> exists k | 0 <= k < |trace| ::
      trace[k] == LastGoal(trace).value && forall l | k < l < |trace| :: !IsGoal(trace[l])
  {
    LastGoalNone(trace);
    if LastGoal(trace).Some? {
      LastGoalSome(trace);
    }
  }

  lemma LastGoalStep(trace: seq<PuzzleState>, current: PuzzleState)
    ensures LastGoal(trace + [current]) == if IsGoal(current) then Some(current) else LastGoal(trace)
  {
    assert (trace + [current])[..|trace|] == trace;
  }

  /** What the search loops keep about every queued state: it descends
      from the start and holds only values of the start grid and 0. */
  ghost predicate Descends(e: PuzzleState, start: PuzzleState, vals: set<int>)
  {
    Lineal(e) && Root(e) == start && Over(e.puzzle, vals)
  }

  lemma SuccessorsDescend(current: PuzzleState, start: PuzzleState, vals: set<int>)
    requires Descends(current, start, vals) && 0 in vals
    ensures forall t | t in GenerateSuccessors(current) :: Descends(t, start, vals)
  {
    forall t | t in GenerateSuccessors(current)
      ensures Descends(t, start, vals)
    {
      SuccessorLineal(current, t);
      SuccessorsAreMoves(current, t);
      SlideStaysOver(current.puzzle, vals, current.emptyRow, current.emptyCol, t.emptyRow, t.emptyCol);
    }
  }

  /** Every grid one move from a closed grid is closed or queued. */
  ghost predicate Covered(trace: seq<PuzzleState>, open: seq<PuzzleState>, closed: set<string>)
  {
    forall t, u | t in trace && Placed(t) && u in GenerateSuccessors(t) :: KeyOf(u) in closed || u in open
  }

  /** The trace is closed under moves: every successor of a dequeued state
      has the grid of some dequeued state. */
  ghost predicate Exhaustive(trace: seq<PuzzleState>)
  {
    forall t, u | t in trace && Placed(t) && u in GenerateSuccessors(t) ::
      exists t' | t' in trace :: t'.puzzle == u.puzzle
  }

  lemma CoveredExhaustive(trace: seq<PuzzleState>, closed: set<string>)
    requires Covered(trace, [], closed) && closed == KeysOf(trace)
    ensures Exhaustive(trace)
  {
    forall t, u | t in trace && Placed(t) && u in GenerateSuccessors(t)
      ensures exists t' | t' in trace :: t'.puzzle == u.puzzle
    {
      assert KeyOf(u) in KeysOf(trace);
      var t' :| t' in trace && KeyOf(t') == KeyOf(u);
      KeyInjective(t'.puzzle, u.puzzle);
    }
  }

  /** One round of the service's loop body keeps `Covered`. */
  lemma CoveredStep(trace: seq<PuzzleState>, open: seq<PuzzleState>, closed: set<string>,
                    current: PuzzleState, rest: seq<PuzzleState>, open': seq<PuzzleState>)
    requires Covered(trace, open, closed) && Placed(current)
    requires forall e | e in open :: e in rest || e == current
    requires forall e | e in open' :: e in rest || e in GenerateSuccessors(current)
    requires forall e | e in rest :: e in open'
    requires forall u | u in GenerateSuccessors(current) :: KeyOf(u) in closed + {KeyOf(current)} || u in open'
    ensures Covered(trace + [current], open', closed + {KeyOf(current)})
  {
  }

  /** What both search loops keep: every queued or dequeued state descends
      from the start over the values `vals`; before the first round the
      queue holds the start alone, and the start is dequeued first; the
      closed set holds exactly the keys of the dequeued states; and every
      successor of a dequeued state is closed or queued. */
  ghost predicate SearchInv(open: seq<PuzzleState>, trace: seq<PuzzleState>, closed: set<string>,
                            start: PuzzleState, vals: set<int>)
  {
    && 0 in vals && |start.puzzle| == 9
    && (forall e | e in open :: Descends(e, start, vals))
    && (forall t | t in trace :: Descends(t, start, vals))
    && (|trace| == 0 ==> open == [start])
    && (|trace| > 0 ==> trace[0] == start)
    && closed == KeysOf(trace) && closed <= KeysOver(vals, |start.puzzle|)
    && Covered(trace, open, closed)
  }

  /** The termination measure of the search loops: the number of keys over
      `vals` not yet closed, then the number of queued entries whose key is
      closed. */
  ghost predicate MeasureDrops(open: seq<PuzzleState>, closed: set<string>,
                               open': seq<PuzzleState>, closed': set<string>, keys: set<string>)
  {
    || |keys - closed'| < |keys - closed|
    || (&& |keys - closed'| == |keys - closed|
        && ClosedCount(open', closed') < ClosedCount(open, closed))
  }

  /** The part of the loop body the two programs share, after the goal
      test: close the dequeued state's key, then enqueue each successor whose
      key is not closed. Every round either closes a new key, or dequeues an
      entry whose key was closed and enqueues only entries whose keys are
      not, so the measure drops. */
  method CloseAndExpand(current: PuzzleState, rest: seq<PuzzleState>, closed: set<string>,
                        ghost open: seq<PuzzleState>, ghost k: nat, ghost trace: seq<PuzzleState>,
                        ghost start: PuzzleState, ghost vals: set<int>)
    returns (open': seq<PuzzleState>, closed': set<string>, ghost trace': seq<PuzzleState>)
    requires SearchInv(open, trace, closed, start, vals)
    requires k < |open| && current == open[k] && rest == open[..k] + open[k + 1..]
    requires forall e | e in open :: e in rest || e == current
    requires forall e | e in rest :: e in open
    ensures trace' == trace + [current]
    ensures closed' == closed + {KeyOf(current)}
    ensures SearchInv(open', trace', closed', start, vals)
    ensures MeasureDrops(open, closed, open', closed', KeysOver(vals, |start.puzzle|))
  {
    assert Descends(current, start, vals);
    var puzzleString := BuildKey(current.puzzle);
    closed' := closed + {puzzleString};
    trace' := trace + [current];
    var successors := GenerateSuccessors(current);
    assert forall i | 0 <= i < |successors| :: |successors[i].puzzle| == 9 by {
      SuccessorsDescend(current, start, vals);
      assert forall i | 0 <= i < |successors| :: successors[i] in successors;
    }
    open' := EnqueueUnclosed(rest, successors, closed');
    InvStep(open, trace, closed, start, vals, current, rest, open');
    MeasureStep(open, k, closed, current, open', vals);
  }

  lemma {:induction false} InvStep(open: seq<PuzzleState>, trace: seq<PuzzleState>, closed: set<string>,
                start: PuzzleState, vals: set<int>,
                current: PuzzleState, rest: seq<PuzzleState>, open': seq<PuzzleState>)
    requires SearchInv(open, trace, closed, start, vals) && current in open
    requires forall e | e in open :: e in rest || e == current
    requires forall e | e in rest :: e in open
    requires Placed(current)
    requires open' == rest + Unclosed(GenerateSuccessors(current), closed + {KeyOf(current)})
    ensures SearchInv(open', trace + [current], closed + {KeyOf(current)}, start, vals)
  {
    var successors := GenerateSuccessors(current);
    var closed' := closed + {KeyOf(current)};
    SuccessorsDescend(current, start, vals);
    EnqueuedMembers(rest, successors, closed');
    CoveredStep(trace, open, closed, current, rest, open');
    TraceKeys(trace, current);
    KeyInKeysOver(current.puzzle, vals);
  }

  lemma {:induction false} MeasureStep(open: seq<PuzzleState>, k: nat, closed: set<string>, current: PuzzleState,
                    open': seq<PuzzleState>, vals: set<int>)
    requires k < |open| && current == open[k]
    requires Over(current.puzzle, vals) && closed <= KeysOver(vals, |current.puzzle|) && Placed(current)
    requires open' == open[..k] + open[k + 1..] + Unclosed(GenerateSuccessors(current), closed + {KeyOf(current)})
    ensures MeasureDrops(open, closed, open', closed + {KeyOf(current)}, KeysOver(vals, |current.puzzle|))
  {
    var key := KeyOf(current);
    var closed' := closed + {key};
    var rest := open[..k] + open[k + 1..];
    var successors := GenerateSuccessors(current);
    KeyInKeysOver(current.puzzle, vals);
    if key in closed {
      assert closed' == closed;
      ClosedCountRemove(open, k, closed);
      ClosedCountConcat(rest, Unclosed(successors, closed'), closed');
      ClosedCountUnclosed(successors, closed');
    } else {
      var keys := KeysOver(vals, |current.puzzle|);
      assert keys - closed == (keys - closed') + {key};
    }
  }

  lemma TraceKeys(trace: seq<PuzzleState>, current: PuzzleState)
    ensures KeysOf(trace + [current]) == KeysOf(trace) + {KeyOf(current)}
  {
    assert forall t | t in trace + [current] :: t in trace || t == current;
  }

  /** The start state and the frontier before the first round. */
  lemma InitialInv(initial: Grid, start: PuzzleState, vals: set<int>)
    requires |initial| == 9 && start.puzzle == initial && start.parent.None? && start.depth == 0
    requires InBounds(start.emptyRow, start.emptyCol) && CostConsistent(start)
    requires vals == (set k | 0 <= k < 9 :: initial[k]) + {0}
    ensures SearchInv([start], [], {}, start, vals)
  {
  }

  /** The service's search from a given grid, with its reconstruction.
      There is no early exit: the loop runs until the queue is empty,
      keeps the last goal dequeued, and then rebuilds the path to it.
      The path is empty exactly when no dequeued state passed the goal
      test; otherwise it runs from the start grid to the goal layout, one
      move per step, and its length is the goal's depth plus one. When the
      loop ends every successor of a dequeued state has the grid of a
      dequeued state. From a permutation of odd parity the path is empty. */
  method SolveFrom(initial: Grid) returns (path: seq<Grid>, ghost trace: seq<PuzzleState>)
    requires |initial| == 9
    ensures |trace| >= 1 && trace[0].puzzle == initial && trace[0].depth == 0
    ensures forall t | t in trace :: Lineal(t) && Root(t) == trace[0]
    ensures Exhaustive(trace)
    ensures path == [] <==> forall t | t in trace :: !IsGoal(t)
    ensures LastGoal(trace).Some? ==> path == GridsOf(Lineage(LastGoal(trace).value))
    ensures path != [] ==> path[0] == initial && path[|path| - 1] == GoalLayout
    ensures path != [] ==> LastGoal(trace).Some? && |path| == LastGoal(trace).value.depth + 1
    ensures path != [] && 0 in initial ==> forall i | 0 <= i < |path| - 1 :: IsMove(path[i], path[i + 1])
    ensures IsPermutation(initial) && InversionCount(initial) % 2 == 1 ==> path == []
  {
    var goal, emptyRow, emptyCol;
    goal, emptyRow, emptyCol, trace := ServiceSearch(initial);
    path := RebuildPath(goal);
    SolveFromFacts(initial, emptyRow, emptyCol, trace[0], trace, goal, path);
  }

  /** The service's loop: no early exit, and `goalState` ends up as the last
      goal dequeued. */
  method ServiceSearch(initial: Grid)
    returns (goal: Option<PuzzleState>, emptyRow: int, emptyCol: int, ghost trace: seq<PuzzleState>)
    requires |initial| == 9
    ensures InBounds(emptyRow, emptyCol) && (0 in initial ==> initial[Idx(emptyRow, emptyCol)] == 0)
    ensures Searched(trace, NewState(initial, emptyRow, emptyCol, 0, None))
    ensures goal == LastGoal(trace)
  {
    emptyRow, emptyCol := LocateBlank(initial);
    var start := NewState(initial, emptyRow, emptyCol, 0, None);
    var open := [start];
    var closed: set<string> := {};
    goal := None;
    trace := [];
    ghost var vals := (set k | 0 <= k < 9 :: initial[k]) + {0};
    InitialInv(initial, start, vals);
    while |open| > 0
      invariant SearchInv(open, trace, closed, start, vals)
      invariant goal == LastGoal(trace)
      decreases |KeysOver(vals, |start.puzzle|) - closed|, ClosedCount(open, closed)
    {
      var current, rest, k := Dequeue(open);
      var isGoal := CheckGoal(current);
      if isGoal {
        goal := Some(current);
      }
      LastGoalStep(trace, current);
      open, closed, trace := CloseAndExpand(current, rest, closed, open, k, trace, start, vals);
    }
    SearchDone(open, trace, closed, start, vals);
  }

  /** A finished search: the dequeued states start at `start`, all descend
      from it, and the dequeued layouts are closed under moves. */
  ghost predicate Searched(trace: seq<PuzzleState>, start: PuzzleState)
  {
    && |trace| >= 1 && trace[0] == start
    && (forall t | t in trace :: Lineal(t) && Root(t) == start)
    && Exhaustive(trace)
  }

  lemma SearchDone(open: seq<PuzzleState>, trace: seq<PuzzleState>, closed: set<string>,
                   start: PuzzleState, vals: set<int>)
    requires SearchInv(open, trace, closed, start, vals) && |open| == 0
    ensures Searched(trace, start)
  {
    CoveredExhaustive(trace, closed);
  }

  /** The service's postconditions, from what its loop leaves behind. */
  lemma {:induction false} SolveFromFacts(initial: Grid, emptyRow: int, emptyCol: int, start: PuzzleState,
                       trace: seq<PuzzleState>, goal: Option<PuzzleState>, path: seq<Grid>)
    requires |initial| == 9 && start == NewState(initial, emptyRow, emptyCol, 0, None)
    requires InBounds(emptyRow, emptyCol) && (0 in initial ==> initial[Idx(emptyRow, emptyCol)] == 0)
    requires forall t | t in trace :: Lineal(t) && Root(t) == start
    requires goal == LastGoal(trace)
    requires goal.None? ==> path == []
    requires goal.Some? ==> path == GridsOf(Lineage(goal.value))
    ensures path == [] <==> forall t | t in trace :: !IsGoal(t)
    ensures path != [] ==> path[0] == initial && path[|path| - 1] == GoalLayout
    ensures path != [] ==> goal.Some? && |path| == goal.value.depth + 1
    ensures path != [] && 0 in initial ==> forall i | 0 <= i < |path| - 1 :: IsMove(path[i], path[i + 1])
    ensures IsPermutation(initial) && InversionCount(initial) % 2 == 1 ==> path == []
  {
    LastGoalFacts(trace);
    SolveFromPath(initial, start, trace, goal, path);
    if IsPermutation(initial) && InversionCount(initial) % 2 == 1 {
      StartOfPermutation(initial, emptyRow, emptyCol);
      OddStartTrace(start, trace);
    }
  }

  /** What the reconstructed path says about the goal it was built from. */
  lemma SolveFromPath(initial: Grid, start: PuzzleState, trace: seq<PuzzleState>,
                      goal: Option<PuzzleState>, path: seq<Grid>)
    requires start.puzzle == initial && start.depth == 0
    requires forall t | t in trace :: Lineal(t) && Root(t) == start
    requires goal == LastGoal(trace)
    requires goal.None? ==> path == []
    requires goal.Some? ==> path == GridsOf(Lineage(goal.value))
    requires 0 in initial ==> BlankAt(start)
    ensures path == [] <==> forall t | t in trace :: !IsGoal(t)
    ensures path != [] ==> path[0] == initial && path[|path| - 1] == GoalLayout
    ensures path != [] ==> goal.Some? && |path| == goal.value.depth + 1
    ensures path != [] && 0 in initial ==> forall i | 0 <= i < |path| - 1 :: IsMove(path[i], path[i + 1])
  {
    LastGoalFacts(trace);
    if goal.Some? {
      var g := goal.value;
      LineageFacts(g);
      ReversedAncestryGrids(g);
      if 0 in initial {
        LineageMoves(g);
        var states := Lineage(g);
        forall i | 0 <= i < |path| - 1
          ensures IsMove(path[i], path[i + 1])
        {
          assert path[i] == states[i].puzzle && path[i + 1] == states[i + 1].puzzle;
        }
      }
    }
  }

  /** From a start of odd parity no dequeued state passes the goal test. */
  lemma {:induction false} OddStartTrace(start: PuzzleState, trace: seq<PuzzleState>)
    requires IsPermutation(start.puzzle) && BlankAt(start) && start.parent.None?
    requires InversionCount(start.puzzle) % 2 == 1
    requires forall t | t in trace :: Lineal(t) && Root(t) == start
    ensures forall t | t in trace :: !IsGoal(t)
  {
    forall t | t in trace
      ensures !IsGoal(t)
    {
      OddStartNeverReachesGoal(t);
    }
  }

  /** The grids of a sequence of states. */
  function GridsOf(states: seq<PuzzleState>): (grids: seq<Grid>)
    ensures |grids| == |states|
    ensures forall i | 0 <= i < |states| :: grids[i] == states[i].puzzle
  {
    seq(|states|, i requires 0 <= i < |states| => states[i].puzzle)
  }

  /** The service's reconstruction: follow the parent links from the goal,
      adding each grid as its key parsed back to a list, then reverse. The
      result is the grids of the root-first chain, so it starts at the
      root's grid and ends at the goal's. */
  method RebuildPath(goal: Option<PuzzleState>) returns (returnList: seq<Grid>)
    ensures goal.None? ==> returnList == []
    ensures goal.Some? ==> returnList == GridsOf(Lineage(goal.value))
    ensures goal.Some? ==> returnList[0] == Root(goal.value).puzzle
    ensures goal.Some? ==> returnList[|returnList| - 1] == goal.value.puzzle
  {
    returnList := [];
    var state := goal;
    while state.Some?
      invariant goal.None? ==> returnList == [] && state.None?
      invariant goal.Some? && state.Some? ==>
        returnList + GridsOf(Ancestry(state.value)) == GridsOf(Ancestry(goal.value))
      invariant goal.Some? && state.None? ==> returnList == GridsOf(Ancestry(goal.value))
      decreases state
    {
      var s := state.value;
      var cells := ConvertStringToList(PuzzleToString(s.puzzle));
      KeyRoundTrip(s.puzzle);
      GridsOfAncestry(s);
      returnList := returnList + [cells.value];
      state := s.parent;
    }
    if goal.Some? {
      ReversedAncestryGrids(goal.value);
    }
    returnList := Reverse(returnList);
  }

  /** The goal-first grids, reversed, are the root-first grids. */
  lemma ReversedAncestryGrids(g: PuzzleState)
    ensures Reverse(GridsOf(Ancestry(g))) == GridsOf(Lineage(g))
    ensures GridsOf(Lineage(g))[0] == Root(g).puzzle
    ensures GridsOf(Lineage(g))[|Lineage(g)| - 1] == g.puzzle
  {
    ReverseGrids(Ancestry(g));
    AncestryReversed(g);
    AncestryEnds(g);
  }

  /** One step of the parent walk, on grids. */
  lemma GridsOfAncestry(s: PuzzleState)
    ensures s.parent.None? ==> GridsOf(Ancestry(s)) == [s.puzzle]
    ensures s.parent.Some? ==> GridsOf(Ancestry(s)) == [s.puzzle] + GridsOf(Ancestry(s.parent.value))
  {
  }

  lemma ReverseGrids(states: seq<PuzzleState>)
    ensures Reverse(GridsOf(states)) == GridsOf(Reverse(states))
  {
  }

  lemma {:induction false} AncestryEnds(s: PuzzleState)
    ensures Ancestry(s)[0] == s
    ensures Ancestry(s)[|Ancestry(s)| - 1] == Root(s)
    ensures Lineage(s)[0] == Root(s)
    decreases s
  {
    match s.parent
    case None =>
    case Some(p) =>
      AncestryEnds(p);
  }

  /** The service end to end: a solvable grid from the scrambler, then the
      search from it. The path, when there is one, starts at a permutation
      of 0..8 of even parity and reaches the goal layout one move at a time. */
  method Solve(rounds: nat) returns (result: seq<Grid>)
    requires rounds >= 1
    ensures result != [] ==> IsPermutation(result[0]) && InversionCount(result[0]) % 2 == 0
    ensures result != [] ==> result[|result| - 1] == GoalLayout
    ensures forall i | 0 <= i < |result| - 1 :: IsMove(result[i], result[i + 1])
  {
    var initialPuzzle := GenerateSolvableArray(rounds);
    if initialPuzzle.None? {
      return [];
    }
    PermutationHasBlank(initialPuzzle.value);
    ghost var trace;
    result, trace := SolveFrom(initialPuzzle.value);
  }

  /** `PrintSolution`: push the states from `state` back to the root onto a
      stack, then pop them; the states come out root first. */
  method PrintSolution(state: PuzzleState) returns (steps: seq<PuzzleState>)
    ensures steps == Lineage(state)
  {
    var path: seq<PuzzleState> := [];
    var cur := Some(state);
    while cur.Some?
      invariant cur.Some? ==> path + Ancestry(cur.value) == Ancestry(state)
      invariant cur.None? ==> path == Ancestry(state)
      decreases cur
    {
      var s := cur.value;
      path := path + [s];
      cur := s.parent;
    }
    steps := [];
    while |path| > 0
      invariant steps + Reverse(path) == Reverse(Ancestry(state))
    {
      var step := path[|path| - 1];
      path := path[..|path| - 1];
      steps := steps + [step];
    }
    AncestryReversed(state);
  }

  /** The console program's search: the goal test comes before the state's
      key is closed, and the first goal dequeued ends the search with its
      solution printed root first. When the queue runs dry instead, no
      dequeued state passed the goal test and every successor of a dequeued
      state has the grid of a dequeued state. */
  method ConsoleSolve(initial: Grid) returns (solution: Option<seq<PuzzleState>>, ghost trace: seq<PuzzleState>)
    requires |initial| == 9
    ensures |trace| >= 1 && trace[0].puzzle == initial && trace[0].depth == 0
    ensures forall t | t in trace :: Lineal(t) && Root(t) == trace[0]
    ensures solution.Some? ==> IsGoal(trace[|trace| - 1])
    ensures solution.Some? ==> forall k | 0 <= k < |trace| - 1 :: !IsGoal(trace[k])
    ensures solution.Some? ==> solution.value == Lineage(trace[|trace| - 1])
    ensures solution.Some? ==> |solution.value| == trace[|trace| - 1].depth + 1
    ensures solution.Some? ==> solution.value[0] == trace[0]
    ensures solution.None? ==> (forall t | t in trace :: !IsGoal(t)) && Exhaustive(trace)
    ensures IsPermutation(initial) && InversionCount(initial) % 2 == 1 ==> solution.None?
  {
    var found, emptyRow, emptyCol;
    found, emptyRow, emptyCol, trace := ConsoleSearch(initial);
    if found.Some? {
      var steps := PrintSolution(found.value);
      ConsoleGoal(initial, trace[0], found.value, emptyRow, emptyCol);
      solution := Some(steps);
    } else {
      solution := None;
    }
  }

  /** The console program's loop, up to the state whose goal test succeeds
      (`None` when the queue runs dry). */
  method ConsoleSearch(initial: Grid)
    returns (found: Option<PuzzleState>, emptyRow: int, emptyCol: int, ghost trace: seq<PuzzleState>)
    requires |initial| == 9
    ensures InBounds(emptyRow, emptyCol) && (0 in initial ==> initial[Idx(emptyRow, emptyCol)] == 0)
    ensures ConsoleOutcome(found, trace, NewState(initial, emptyRow, emptyCol, 0, None))
  {
    emptyRow, emptyCol := LocateBlank(initial);
    var start := NewState(initial, emptyRow, emptyCol, 0, None);
    var open := [start];
    var closed: set<string> := {};
    trace := [];
    ghost var vals := (set k | 0 <= k < 9 :: initial[k]) + {0};
    InitialInv(initial, start, vals);
    while |open| > 0
      invariant SearchInv(open, trace, closed, start, vals)
      invariant forall t | t in trace :: !IsGoal(t)
      decreases |KeysOver(vals, |start.puzzle|) - closed|, ClosedCount(open, closed)
    {
      var current, rest, k := Dequeue(open);
      var isGoal := CheckGoal(current);
      if isGoal {
        GoalReturn(open, trace, closed, start, vals, current);
        return Some(current), emptyRow, emptyCol, trace + [current];
      }
      NoGoalAppend(trace, current);
      open, closed, trace := CloseAndExpand(current, rest, closed, open, k, trace, start, vals);
    }
    found := None;
    ExhaustedReturn(open, trace, closed, start, vals);
  }

  /** What the console program reports: the states it dequeued, starting
      at `start`, all descending from it, with no goal before the last one;
      a found state is the last one dequeued and a goal; when nothing is
      found, no dequeued state is a goal and the dequeued layouts are
      closed under moves. */
  ghost predicate ConsoleOutcome(found: Option<PuzzleState>, trace: seq<PuzzleState>, start: PuzzleState)
  {
    && |trace| >= 1 && trace[0] == start
    && (forall t | t in trace :: Lineal(t) && Root(t) == start)
    && (forall k | 0 <= k < |trace| - 1 :: !IsGoal(trace[k]))
    && (found.Some? ==> found.value == trace[|trace| - 1] && IsGoal(found.value))
    && (found.None? ==> (forall t | t in trace :: !IsGoal(t)) && Exhaustive(trace))
  }

  /** The facts about the console program's early return. */
  lemma GoalReturn(open: seq<PuzzleState>, trace: seq<PuzzleState>, closed: set<string>,
                   start: PuzzleState, vals: set<int>, current: PuzzleState)
    requires SearchInv(open, trace, closed, start, vals) && current in open
    requires forall t | t in trace :: !IsGoal(t)
    requires IsGoal(current)
    ensures ConsoleOutcome(Some(current), trace + [current], start)
  {
    assert Descends(current, start, vals);
    assert forall t | t in trace + [current] :: t in trace || t == current;
    assert forall k | 0 <= k < |trace| :: (trace + [current])[k] == trace[k];
  }

  /** The facts about the console program running out of states. */
  lemma ExhaustedReturn(open: seq<PuzzleState>, trace: seq<PuzzleState>, closed: set<string>,
                        start: PuzzleState, vals: set<int>)
    requires SearchInv(open, trace, closed, start, vals) && |open| == 0
    requires forall t | t in trace :: !IsGoal(t)
    ensures ConsoleOutcome(None, trace, start)
  {
    CoveredExhaustive(trace, closed);
    assert forall k | 0 <= k < |trace| :: trace[k] in trace;
  }

  /** Appending a non-goal keeps a goal-free record goal-free. */
  lemma NoGoalAppend(trace: seq<PuzzleState>, current: PuzzleState)
    requires forall t | t in trace :: !IsGoal(t)
    requires !IsGoal(current)
    ensures forall t | t in trace + [current] :: !IsGoal(t)
  {
    assert forall t | t in trace + [current] :: t in trace || t == current;
  }

  /** The path the console program prints for a goal it found. */
  lemma {:induction false} ConsoleGoal(initial: Grid, start: PuzzleState, current: PuzzleState,
                    emptyRow: int, emptyCol: int)
    requires |initial| == 9 && start == NewState(initial, emptyRow, emptyCol, 0, None)
    requires InBounds(emptyRow, emptyCol) && (0 in initial ==> initial[Idx(emptyRow, emptyCol)] == 0)
    requires Lineal(current) && Root(current) == start && IsGoal(current)
    ensures |Lineage(current)| == current.depth + 1 && Lineage(current)[0] == start
    ensures IsPermutation(initial) ==> InversionCount(initial) % 2 == 0
  {
    LineageFacts(current);
    if IsPermutation(initial) {
      StartOfPermutation(initial, emptyRow, emptyCol);
      LinealKeepsParity(current);
      LayoutsHaveNoInversions();
    }
  }
}
