/** The 3×3 board. The program keeps it in an `int[3, 3]`; here it is the
    row-major sequence of its nine cells, so cell (r, c) is `g[3 * r + c]`. */
module Grid {
  import opened Common

  type Grid = seq<int>

  /** The layout `IsGoal` compares against: `0 1 2 / 3 4 5 / 6 7 8`. */
  const GoalLayout: Grid := [0, 1, 2, 3, 4, 5, 6, 7, 8]

  /** The layout the heuristic measures toward: `1 2 3 / 4 5 6 / 7 8 0`. */
  const HeuristicTarget: Grid := [1, 2, 3, 4, 5, 6, 7, 8, 0]

  /** The list `0, 1, …, 8` the scrambler starts from, which read row by
      row is the goal layout. */
  const Identity: seq<int> := GoalLayout

  function Idx(r: int, c: int): int
  {
    3 * r + c
  }

  predicate InBounds(r: int, c: int)
  {
    0 <= r < 3 && 0 <= c < 3
  }

  /** Orthogonal neighbours: one step along exactly one axis. */
  predicate Adjacent(r: int, c: int, r': int, c': int)
  {
    || (r == r' && (c' == c + 1 || c' == c - 1))
    || (c == c' && (r' == r + 1 || r' == r - 1))
  }

  /** Adjacency of two cell indices of a row-major grid. */
  predicate Neighbours(i: int, j: int)
    requires 0 <= i < 9 && 0 <= j < 9
  {
    Adjacent(i / 3, i % 3, j / 3, j % 3)
  }

  /** Each of the values 0..8 in exactly one of the nine cells. */
  predicate IsPermutation(g: Grid)
  {
    && |g| == 9
    && (forall i | 0 <= i < 9 :: 0 <= g[i] <= 8)
    && (forall i, j | 0 <= i < j < 9 :: g[i] != g[j])
  }

  /** Every cell of a nine-cell grid holds a value of `vals`. */
  predicate Over(g: Grid, vals: set<int>)
  {
    |g| == 9 && forall i | 0 <= i < 9 :: g[i] in vals
  }

  function Swap(g: Grid, i: int, j: int): (h: Grid)
    requires 0 <= i < |g| && 0 <= j < |g|
    ensures |h| == |g|
    ensures h[i] == g[j] && h[j] == g[i]
    ensures forall k | 0 <= k < |g| && k != i && k != j :: h[k] == g[k]
  {
    g[i := g[j]][j := g[i]]
  }

  /** The grid a successor gets: the cell at the blank coordinates takes the
      neighbour's value and the neighbour cell becomes 0. It is a swap only
      when the blank cell really holds 0 (see `SlideIsSwap`). */
  function Slide(g: Grid, br: int, bc: int, nr: int, nc: int): (h: Grid)
    requires |g| == 9 && InBounds(br, bc) && InBounds(nr, nc)
    ensures |h| == 9
    ensures h[Idx(nr, nc)] == 0
    ensures Idx(br, bc) != Idx(nr, nc) ==> h[Idx(br, bc)] == g[Idx(nr, nc)]
  {
    g[Idx(br, bc) := g[Idx(nr, nc)]][Idx(nr, nc) := 0]
  }

  /** `b` is `a` after one legal move: the blank of `a` traded places with
      an orthogonal neighbour. */
  ghost predicate IsMove(a: Grid, b: Grid)
  {
    |a| == 9 && exists i, j | 0 <= i < 9 && 0 <= j < 9 ::
      a[i] == 0 && Neighbours(i, j) && b == Swap(a, i, j)
  }

  lemma IdxCoordinates(r: int, c: int)
    requires InBounds(r, c)
    ensures 0 <= Idx(r, c) < 9
    ensures Idx(r, c) / 3 == r && Idx(r, c) % 3 == c
  {
  }

  /** In row-major order a neighbour is one cell to either side or one row
      above or below. */
  lemma NeighbourOffsets(i: int, j: int)
    requires 0 <= i < 9 && 0 <= j < 9 && Neighbours(i, j)
    ensures j == i + 1 || j == i - 1 || j == i + 3 || j == i - 3
  {
    assert i == 3 * (i / 3) + i % 3 && j == 3 * (j / 3) + j % 3;
  }

  /** A slide changes exactly the blank cell and the neighbour cell. */
  lemma SlideCells(g: Grid, br: int, bc: int, nr: int, nc: int)
    requires |g| == 9 && InBounds(br, bc) && InBounds(nr, nc) && Adjacent(br, bc, nr, nc)
    ensures Idx(br, bc) != Idx(nr, nc)
    ensures Slide(g, br, bc, nr, nc)[Idx(br, bc)] == g[Idx(nr, nc)]
    ensures Slide(g, br, bc, nr, nc)[Idx(nr, nc)] == 0
    ensures forall k | 0 <= k < 9 && k != Idx(br, bc) && k != Idx(nr, nc) ::
      Slide(g, br, bc, nr, nc)[k] == g[k]
  {
  }

  /** When the blank coordinates locate a 0, sliding is swapping. */
  lemma SlideIsSwap(g: Grid, br: int, bc: int, nr: int, nc: int)
    requires |g| == 9 && InBounds(br, bc) && InBounds(nr, nc) && Adjacent(br, bc, nr, nc)
    requires g[Idx(br, bc)] == 0
    ensures Slide(g, br, bc, nr, nc) == Swap(g, Idx(br, bc), Idx(nr, nc))
    ensures IsMove(g, Slide(g, br, bc, nr, nc))
  {
    var i, j := Idx(br, bc), Idx(nr, nc);
    IdxCoordinates(br, bc);
    IdxCoordinates(nr, nc);
    assert Slide(g, br, bc, nr, nc) == Swap(g, i, j);
    assert g[i] == 0 && Neighbours(i, j);
  }

  lemma SwapKeepsPermutation(g: Grid, i: int, j: int)
    requires IsPermutation(g) && 0 <= i < 9 && 0 <= j < 9
    ensures IsPermutation(Swap(g, i, j))
  {
    var h := Swap(g, i, j);
    forall a, b | 0 <= a < b < 9
      ensures h[a] != h[b]
    {
      var a' := if a == i then j else if a == j then i else a;
      var b' := if b == i then j else if b == j then i else b;
      assert h[a] == g[a'] && h[b] == g[b'];
      assert a' != b';
      if a' < b' {
        assert g[a'] != g[b'];
      } else {
        assert g[b'] != g[a'];
      }
    }
  }

  /** Sliding never brings in a value other than 0 or one already present. */
  lemma SlideStaysOver(g: Grid, vals: set<int>, br: int, bc: int, nr: int, nc: int)
    requires Over(g, vals) && 0 in vals && InBounds(br, bc) && InBounds(nr, nc)
    ensures Over(Slide(g, br, bc, nr, nc), vals)
  {
    IdxCoordinates(nr, nc);
  }

  /** Distinct values drawn from `vals` are no more than `|vals|`. */
  lemma {:induction false} DistinctBound(s: seq<int>, vals: set<int>)
    requires forall i | 0 <= i < |s| :: s[i] in vals
    requires forall i, j | 0 <= i < j < |s| :: s[i] != s[j]
    ensures |s| <= |vals|
  {
    if |s| > 0 {
      DistinctBound(s[1..], vals - {s[0]});
    }
  }

  /** A permutation of 0..8 has a blank. */
  lemma PermutationHasBlank(g: Grid)
    requires IsPermutation(g)
    ensures 0 in g
  {
    if 0 !in g {
      DistinctBound(g, {1, 2, 3, 4, 5, 6, 7, 8});
    }
  }

  /** A permutation has exactly one blank. */
  lemma PermutationSingleBlank(g: Grid, i: int, j: int)
    requires IsPermutation(g) && 0 <= i < 9 && 0 <= j < 9
    requires g[i] == 0 && g[j] == 0
    ensures i == j
  {
  }
}
