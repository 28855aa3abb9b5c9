/** The solvability test of `IsSolvable`: count the pairs of nonzero tiles
    that stand in the wrong order (row-major), and call the board solvable
    when that count is even. One move never changes the count's parity. */
module Parity {
  import opened Grid

  /** `x` before `y` is an inversion: both are tiles and `x` is larger. */
  predicate Inverted(x: int, y: int)
  {
    x > y && x != 0 && y != 0
  }

  function InvertedCount(x: int, y: int): nat
  {
    if Inverted(x, y) then 1 else 0
  }

  /** How many elements of `t` form an inversion with `x` standing before them. */
  function InversionsWith(x: int, t: seq<int>): nat
  {
    if |t| == 0 then 0 else InversionsWith(x, t[..|t| - 1]) + InvertedCount(x, t[|t| - 1])
  }

  /** The number of pairs i < j with `s[i]`, `s[j]` nonzero and `s[i] > s[j]`. */
  function InversionCount(s: seq<int>): nat
  {
    if |s| == 0 then 0 else InversionsWith(s[0], s[1..]) + InversionCount(s[1..])
  }

  /** The outer and inner loops of the program, pair by pair. */
  method IsSolvable(puzzle: seq<int>) returns (solvable: bool)
    ensures solvable <==> InversionCount(puzzle) % 2 == 0
  {
    var inversions := 0;
    var i := 0;
    while i < |puzzle|
      invariant 0 <= i <= |puzzle|
      invariant inversions + InversionCount(puzzle[i..]) == InversionCount(puzzle)
    {
      var j := i + 1;
      while j < |puzzle|
        invariant i + 1 <= j <= |puzzle|
        invariant inversions + InversionCount(puzzle[i..]) ==
          InversionCount(puzzle) + InversionsWith(puzzle[i], puzzle[i + 1..j])
      {
        assert puzzle[i + 1..j + 1][..j - i - 1] == puzzle[i + 1..j];
        if puzzle[i] > puzzle[j] && puzzle[i] != 0 && puzzle[j] != 0 {
          inversions := inversions + 1;
        }
        j := j + 1;
      }
      assert puzzle[i + 1..j] == puzzle[i..][1..];
      i := i + 1;
    }
    assert puzzle[i..] == [];
    solvable := inversions % 2 == 0;
  }

  lemma {:induction false} InversionsWithConcat(x: int, u: seq<int>, v: seq<int>)
    ensures InversionsWith(x, u + v) == InversionsWith(x, u) + InversionsWith(x, v)
    decreases |v|
  {
    if |v| > 0 {
      assert (u + v)[..|u + v| - 1] == u + v[..|v| - 1];
      InversionsWithConcat(x, u, v[..|v| - 1]);
    } else {
      assert u + v == u;
    }
  }

  /** The inversions `x` forms with a block do not depend on the block's order. */
  lemma InversionsWithSwapPair(x: int, u: seq<int>, a: int, b: int, r: seq<int>)
    ensures InversionsWith(x, u + [a, b] + r) == InversionsWith(x, u + [b, a] + r)
  {
    InversionsWithConcat(x, u + [a, b], r);
    InversionsWithConcat(x, u + [b, a], r);
    InversionsWithConcat(x, u, [a, b]);
    InversionsWithConcat(x, u, [b, a]);
    InversionsWithConcat(x, [a], [b]);
    InversionsWithConcat(x, [b], [a]);
    assert [a] + [b] == [a, b] && [b] + [a] == [b, a];
    assert [a][..0] == [] && [b][..0] == [];
  }

  /** The count of a sequence that starts with `a, b`. */
  lemma InversionCountPairFront(a: int, b: int, r: seq<int>)
    ensures InversionCount([a, b] + r) ==
      InvertedCount(a, b) + InversionsWith(a, r) + InversionsWith(b, r) + InversionCount(r)
  {
    assert ([a, b] + r)[1..] == [b] + r;
    assert ([b] + r)[1..] == r;
    InversionsWithConcat(a, [b], r);
    assert [b][..0] == [];
  }

  /** Exchanging two neighbouring entries changes the count only through
      the pair they form. */
  lemma {:induction false} InversionCountSwapPair(u: seq<int>, a: int, b: int, r: seq<int>)
    ensures InversionCount(u + [b, a] + r) + InvertedCount(a, b) ==
            InversionCount(u + [a, b] + r) + InvertedCount(b, a)
    decreases |u|
  {
    if |u| == 0 {
      assert u + [a, b] + r == [a, b] + r;
      assert u + [b, a] + r == [b, a] + r;
      InversionCountPairFront(a, b, r);
      InversionCountPairFront(b, a, r);
    } else {
      var x := u[0];
      assert (u + [a, b] + r)[0] == x && (u + [b, a] + r)[0] == x;
      assert (u + [a, b] + r)[1..] == u[1..] + [a, b] + r;
      assert (u + [b, a] + r)[1..] == u[1..] + [b, a] + r;
      InversionCountSwapPair(u[1..], a, b, r);
      InversionsWithSwapPair(x, u[1..], a, b, r);
    }
  }

  /** The same fact about positions `p` and `p + 1` of a sequence. */
  lemma InversionCountAdjacentSwap(s: seq<int>, p: int)
    requires 0 <= p && p + 1 < |s|
    ensures InversionCount(Swap(s, p, p + 1)) + InvertedCount(s[p], s[p + 1]) ==
            InversionCount(s) + InvertedCount(s[p + 1], s[p])
  {
    var u, r := s[..p], s[p + 2..];
    assert s == u + [s[p], s[p + 1]] + r;
    assert Swap(s, p, p + 1) == u + [s[p + 1], s[p]] + r;
    InversionCountSwapPair(u, s[p], s[p + 1], r);
  }

  /** The blank moving down one row past three tiles: the move is five
      neighbour exchanges, three of which only pass the blank (no change)
      and two of which exchange tiles (a change of one each). */
  lemma DownMoveCore(g: Grid, p: int)
    requires |g| == 9 && 0 <= p && p + 3 < 9 && g[p] == 0
    requires g[p + 1] != 0 && g[p + 2] != 0 && g[p + 3] != 0
    requires g[p + 1] != g[p + 3] && g[p + 2] != g[p + 3]
    ensures InversionCount(Swap(g, p, p + 3)) % 2 == InversionCount(g) % 2
  {
    var a, c, t := g[p + 1], g[p + 2], g[p + 3];
    var s1 := Swap(g, p, p + 1);
    var s2 := Swap(s1, p + 1, p + 2);
    var s3 := Swap(s2, p + 2, p + 3);
    var s4 := Swap(s3, p + 1, p + 2);
    var s5 := Swap(s4, p, p + 1);
    assert s1[p] == a && s1[p + 1] == 0;
    assert s2[p + 1] == c && s2[p + 2] == 0;
    assert s3[p + 2] == t && s3[p + 3] == 0 && s3[p + 1] == c;
    assert s4[p + 1] == t && s4[p + 2] == c && s4[p] == a;
    InversionCountAdjacentSwap(g, p);
    InversionCountAdjacentSwap(s1, p + 1);
    InversionCountAdjacentSwap(s2, p + 2);
    InversionCountAdjacentSwap(s3, p + 1);
    InversionCountAdjacentSwap(s4, p);
    assert InversionCount(s3) == InversionCount(g);
    assert InversionCount(s5) - InversionCount(s3) in {-2, 0, 2};
    assert s5 == Swap(g, p, p + 3);
  }

  /** The blank moving down one row in a permutation: it passes two tiles,
      so the count changes by -2, 0 or +2. */
  lemma DownMoveKeepsParity(g: Grid, p: int)
    requires IsPermutation(g) && 0 <= p && p + 3 < 9 && g[p] == 0
    ensures InversionCount(Swap(g, p, p + 3)) % 2 == InversionCount(g) % 2
  {
    assert g[p] != g[p + 1] && g[p] != g[p + 2] && g[p] != g[p + 3];
    assert g[p + 1] != g[p + 3] && g[p + 2] != g[p + 3];
    DownMoveCore(g, p);
  }

  /** The blank moving up one row: the down move read backwards. */
  lemma UpMoveKeepsParity(g: Grid, p: int)
    requires IsPermutation(g) && 3 <= p < 9 && g[p] == 0
    ensures InversionCount(Swap(g, p, p - 3)) % 2 == InversionCount(g) % 2
  {
    var h := Swap(g, p, p - 3);
    SwapKeepsPermutation(g, p, p - 3);
    DownMoveKeepsParity(h, p - 3);
    assert Swap(h, p - 3, p) == g;
  }

  /** The four offsets a move can have, one by one. */
  lemma OffsetMoveKeepsParity(g: Grid, i: int, j: int)
    requires IsPermutation(g) && 0 <= i < 9 && 0 <= j < 9 && g[i] == 0
    requires j == i + 1 || j == i - 1 || j == i + 3 || j == i - 3
    ensures InversionCount(Swap(g, i, j)) % 2 == InversionCount(g) % 2
  {
    if j == i + 1 {
      InversionCountAdjacentSwap(g, i);
    } else if j == i - 1 {
      InversionCountAdjacentSwap(g, j);
      assert Swap(g, j, j + 1) == Swap(g, i, j);
    } else if j == i + 3 {
      DownMoveKeepsParity(g, i);
    } else {
      UpMoveKeepsParity(g, i);
    }
  }

  /** One move of the blank, in any of the four directions, keeps the parity
      of the inversion count. */
  lemma MoveKeepsParity(g: Grid, i: int, j: int)
    requires IsPermutation(g) && 0 <= i < 9 && 0 <= j < 9 && g[i] == 0 && Neighbours(i, j)
    ensures InversionCount(Swap(g, i, j)) % 2 == InversionCount(g) % 2
  {
    NeighbourOffsets(i, j);
    OffsetMoveKeepsParity(g, i, j);
  }

  /** Both named layouts have no inversion at all. */
  lemma LayoutsHaveNoInversions()
    ensures InversionCount(GoalLayout) == 0
    ensures InversionCount(HeuristicTarget) == 0
  {
    SortedNoInversions(GoalLayout);
    TargetHasNoInversions();
  }

  lemma TargetHasNoInversions()
    ensures InversionCount(HeuristicTarget) == 0
  {
    var tiles := HeuristicTarget[..8];
    assert forall i | 0 <= i < 8 :: tiles[i] == i + 1;
    SortedNoInversions(tiles);
    assert HeuristicTarget == tiles + [0];
    NoInversionsWithBlankLast(tiles);
  }

  lemma {:induction false} InversionsWithAscending(x: int, t: seq<int>)
    requires forall k | 0 <= k < |t| :: x <= t[k]
    ensures InversionsWith(x, t) == 0
  {
    if |t| > 0 {
      InversionsWithAscending(x, t[..|t| - 1]);
    }
  }

  /** An ascending sequence has no inversion. */
  lemma {:induction false} SortedNoInversions(s: seq<int>)
    requires forall i, j | 0 <= i < j < |s| :: s[i] <= s[j]
    ensures InversionCount(s) == 0
  {
    if |s| > 0 {
      InversionsWithAscending(s[0], s[1..]);
      SortedNoInversions(s[1..]);
    }
  }

  /** A blank appended at the end adds no inversion. */
  lemma {:induction false} NoInversionsWithBlankLast(s: seq<int>)
    ensures InversionCount(s + [0]) == InversionCount(s)
  {
    if |s| > 0 {
      assert (s + [0])[1..] == s[1..] + [0];
      assert (s + [0])[0] == s[0];
      InversionsWithConcat(s[0], s[1..], [0]);
      assert [0][..0] == [];
      NoInversionsWithBlankLast(s[1..]);
    } else {
      assert s + [0] == [0];
    }
  }
}
