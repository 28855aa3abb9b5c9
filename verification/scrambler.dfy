/** `GenerateSolvableArray`: shuffle the list 0..8 with Fisher–Yates until
    `IsSolvable` accepts it, then lay it out row by row. The random index of
    each swap is an arbitrary choice in [0, i]; its distribution is not
    modelled. The retry loop ends only with probability 1, so here it is
    given a budget of rounds and reports `None` when the budget runs out. */
module Scrambler {
  import opened Common
  import opened Grid
  import opened Parity

  lemma SwapKeepsMultiset(s: seq<int>, i: int, j: int)
    requires 0 <= i < |s| && 0 <= j < |s|
    ensures multiset(Swap(s, i, j)) == multiset(s)
  {
    var v, w := s[i], s[j];
    var s1 := s[i := w];
    assert multiset(s1) == multiset(s) - multiset{v} + multiset{w};
    assert s1[j] == w;
    assert multiset(s1[j := v]) == multiset(s1) - multiset{s1[j]} + multiset{v};
  }

  /** One Fisher–Yates pass: for i from the last index down to 1, swap
      entry i with an entry j chosen anywhere in [0, i]. */
  method Shuffle(numbers: seq<int>) returns (r: seq<int>)
    ensures |r| == |numbers| && multiset(r) == multiset(numbers)
    ensures IsPermutation(numbers) ==> IsPermutation(r)
  {
    r := numbers;
    var i := |r| - 1;
    while i > 0
      invariant |r| == |numbers| && multiset(r) == multiset(numbers)
      invariant IsPermutation(numbers) ==> IsPermutation(r)
      invariant i < |r|
    {
      var j :| 0 <= j <= i;
      SwapKeepsMultiset(r, i, j);
      if IsPermutation(r) {
        SwapKeepsPermutation(r, i, j);
      }
      r := Swap(r, i, j);
      i := i - 1;
    }
  }

  /** `puzzle[i / 3, i % 3] = numbers[i]` for every i: cell (i/3, i%3) of
      the row-major grid gets the i-th number. */
  method LayOut(numbers: seq<int>) returns (puzzle: Grid)
    requires |numbers| == 9
    ensures |puzzle| == 9
    ensures forall i | 0 <= i < 9 :: puzzle[Idx(i / 3, i % 3)] == numbers[i]
  {
    puzzle := seq(9, _ => 0);
    var i := 0;
    while i < 9
      invariant 0 <= i <= 9 && |puzzle| == 9
      invariant forall k | 0 <= k < i :: puzzle[Idx(k / 3, k % 3)] == numbers[k]
    {
      assert Idx(i / 3, i % 3) == i;
      puzzle := puzzle[Idx(i / 3, i % 3) := numbers[i]];
      i := i + 1;
    }
  }

  /** The do-while loop: at least one shuffle, repeated (on the already
      shuffled list) until the inversion count is even. A grid is returned
      only once `IsSolvable` has accepted it, and it is a permutation of
      0..8 whatever indices the shuffles chose. */
  method GenerateSolvableArray(rounds: nat) returns (puzzle: Option<Grid>)
    requires rounds >= 1
    ensures puzzle.Some? ==> IsPermutation(puzzle.value)
    ensures puzzle.Some? ==> InversionCount(puzzle.value) % 2 == 0
  {
    var numbers := Identity;
    var done := 0;
    var solvable := false;
    while !solvable && done < rounds
      invariant IsPermutation(numbers)
      invariant solvable ==> InversionCount(numbers) % 2 == 0
      decreases rounds - done
    {
      numbers := Shuffle(numbers);
      solvable := IsSolvable(numbers);
      done := done + 1;
    }
    if !solvable {
      return None;
    }
    var grid := LayOut(numbers);
    assert grid == numbers by {
      forall i | 0 <= i < 9
        ensures grid[i] == numbers[i]
      {
        assert Idx(i / 3, i % 3) == i;
      }
    }
    puzzle := Some(grid);
  }
}
