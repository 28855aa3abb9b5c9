/** The Manhattan-distance heuristic of `PuzzleState.GetManhattanDistance`:
    every nonzero tile `v` is measured against the cell ((v-1)/3, (v-1)%3),
    so the layout it aims at is `1 2 3 / 4 5 6 / 7 8 0`. */
module Heuristic {
  import opened Common
  import opened Grid

  /** Distance of the value `v`, standing in cell (r, c), from its target
      cell; the blank contributes nothing. Division is C#'s. */
  function TileDistance(r: int, c: int, v: int): nat
  {
    if v == 0 then 0 else Abs(r - TruncDiv(v - 1, 3)) + Abs(c - TruncRem(v - 1, 3))
  }

  /** The sum over the first `k` cells in row-major order. */
  function PartialDistance(g: Grid, k: nat): nat
    requires k <= |g|
  {
    if k == 0 then 0 else PartialDistance(g, k - 1) + TileDistance((k - 1) / 3, (k - 1) % 3, g[k - 1])
  }

  function Manhattan(g: Grid): nat
    requires |g| == 9
  {
    PartialDistance(g, 9)
  }

  /** The nested loop over rows and columns of the program. */
  method GetManhattanDistance(g: Grid) returns (distance: int)
    requires |g| == 9
    ensures distance == Manhattan(g)
    ensures distance >= 0
  {
    distance := 0;
    var i := 0;
    while i < 3
      invariant 0 <= i <= 3
      invariant distance == PartialDistance(g, 3 * i)
    {
      var j := 0;
      while j < 3
        invariant 0 <= j <= 3
        invariant distance == PartialDistance(g, 3 * i + j)
      {
        var value := g[3 * i + j];
        if value != 0 {
          var targetRow := TruncDiv(value - 1, 3);
          var targetCol := TruncRem(value - 1, 3);
          distance := distance + Abs(i - targetRow) + Abs(j - targetCol);
        }
        assert (3 * i + j) / 3 == i && (3 * i + j) % 3 == j;
        j := j + 1;
      }
      i := i + 1;
    }
  }

  /** A tile of a permutation is at distance 0 exactly in its target cell. */
  lemma TileDistanceZero(i: int, v: int)
    requires 0 <= i < 9 && 0 <= v
    ensures TileDistance(i / 3, i % 3, v) == 0 <==> v == 0 || v == i + 1
  {
    if v != 0 && TileDistance(i / 3, i % 3, v) == 0 {
      assert i / 3 == (v - 1) / 3 && i % 3 == (v - 1) % 3;
      assert i == 3 * (i / 3) + i % 3;
      assert v - 1 == 3 * ((v - 1) / 3) + (v - 1) % 3;
    }
  }

  lemma {:induction false} PartialDistanceZero(g: Grid, k: nat)
    requires k <= |g|
    ensures PartialDistance(g, k) == 0 <==>
      forall i | 0 <= i < k :: TileDistance(i / 3, i % 3, g[i]) == 0
  {
    if k > 0 {
      PartialDistanceZero(g, k - 1);
    }
  }

  /** Over permutations of 0..8 the heuristic vanishes exactly on
      `1 2 3 / 4 5 6 / 7 8 0`. */
  lemma ManhattanZeroIff(g: Grid)
    requires IsPermutation(g)
    ensures Manhattan(g) == 0 <==> g == HeuristicTarget
  {
    PartialDistanceZero(g, 9);
    forall i | 0 <= i < 9 {
      TileDistanceZero(i, g[i]);
    }
    if Manhattan(g) == 0 {
      assert g[8] == 0;
      forall i | 0 <= i < 8
        ensures g[i] == i + 1
      {
        assert g[i] != g[8];
      }
      assert g == HeuristicTarget;
    }
  }

  /** Distances of the tiles of `0 1 2 / 3 4 5 / 6 7 8`, cell by cell. */
  const GoalLayoutDistances: seq<nat> := [0, 1, 1, 3, 1, 1, 3, 1, 1]

  /** Running sums of `GoalLayoutDistances`. */
  const GoalLayoutSums: seq<nat> := [0, 0, 1, 2, 5, 6, 7, 10, 11, 12]

  lemma GoalLayoutTile(k: nat)
    requires k < 9
    ensures TileDistance(k / 3, k % 3, GoalLayout[k]) == GoalLayoutDistances[k]
  {
  }

  lemma {:induction false} GoalLayoutPrefix(k: nat)
    requires k <= 9
    ensures PartialDistance(GoalLayout, k) == GoalLayoutSums[k]
  {
    if k > 0 {
      GoalLayoutPrefix(k - 1);
      GoalLayoutTile(k - 1);
      GoalLayoutSumsStep(k);
    }
  }

  lemma GoalLayoutSumsStep(k: nat)
    requires 0 < k <= 9
    ensures GoalLayoutSums[k] == GoalLayoutSums[k - 1] + GoalLayoutDistances[k - 1]
  {
  }

  /** The layout `IsGoal` accepts is 12 moves' worth of Manhattan distance
      from the layout the heuristic aims at. */
  lemma ManhattanAtGoalLayout()
    ensures Manhattan(GoalLayout) == 12
  {
    GoalLayoutPrefix(9);
  }

  /** Changing one cell changes the running sum by that cell's contribution. */
  lemma {:induction false} PartialDistanceUpdate(g: Grid, p: int, v: int, k: nat)
    requires 0 <= p < |g| && k <= |g|
    ensures PartialDistance(g[p := v], k) ==
      PartialDistance(g, k)
      + (if p < k then TileDistance(p / 3, p % 3, v) - TileDistance(p / 3, p % 3, g[p]) else 0)
  {
    if k > 0 {
      PartialDistanceUpdate(g, p, v, k - 1);
    }
  }

  /** Moving a tile one cell changes its distance by exactly one. */
  lemma TileStep(br: int, bc: int, nr: int, nc: int, t: int)
    requires Adjacent(br, bc, nr, nc) && t != 0
    ensures TileDistance(br, bc, t) == TileDistance(nr, nc, t) + 1
         || TileDistance(br, bc, t) == TileDistance(nr, nc, t) - 1
  {
  }

  /** One move (the blank at (br, bc) trading with the tile at (nr, nc))
      changes the heuristic by exactly +1 or -1. */
  lemma SlideChangesManhattanByOne(g: Grid, br: int, bc: int, nr: int, nc: int)
    requires |g| == 9 && InBounds(br, bc) && InBounds(nr, nc) && Adjacent(br, bc, nr, nc)
    requires g[Idx(br, bc)] == 0 && g[Idx(nr, nc)] != 0
    ensures Manhattan(Slide(g, br, bc, nr, nc)) == Manhattan(g) + 1
         || Manhattan(Slide(g, br, bc, nr, nc)) == Manhattan(g) - 1
  {
    var b, n := Idx(br, bc), Idx(nr, nc);
    IdxCoordinates(br, bc);
    IdxCoordinates(nr, nc);
    var t := g[n];
    var g1 := g[b := t];
    PartialDistanceUpdate(g, b, t, 9);
    assert b != n;
    assert g1[n] == t;
    PartialDistanceUpdate(g1, n, 0, 9);
    assert Slide(g, br, bc, nr, nc) == g1[n := 0];
    TileStep(br, bc, nr, nc, t);
  }
}
