/** The GET endpoint of `PuzzleSolverController`: it asks the service for a
    solution path and, when the path has more than 100 grids, answers with
    its first 50 and its last 50 grids only. */
module Controller {
  import opened Grid
  import opened Parity
  import opened Search

  /** The largest path the endpoint returns whole. */
  const Cap: nat := 100

  /** How many grids are kept from each end of a longer path. */
  const Half: nat := 50

  /** `Take(50)` followed by `Skip(Count - 50)` on a path longer than 100,
      the whole path otherwise. */
  function Truncate<T>(xs: seq<T>): (r: seq<T>)
    ensures |r| == if |xs| > Cap then Cap else |xs|
    ensures |xs| <= Cap ==> r == xs
    ensures |xs| > Cap ==> forall k | 0 <= k < Half :: r[k] == xs[k]
    ensures |xs| > Cap ==> forall k | Half <= k < Cap :: r[k] == xs[|xs| - Cap + k]
  {
    if |xs| > Cap then xs[..Half] + xs[|xs| - Half..] else xs
  }

  /** The position in the full path of the `k`-th grid of the answer. */
  function SourceIndex(n: nat, k: nat): nat
    requires n > Cap && k < Cap
  {
    if k < Half then k else n - Cap + k
  }

  /** Position `j` of a path of `n` grids makes it into the answer. */
  predicate Picked(n: nat, j: nat)
    requires n > Cap
  {
    exists k | 0 <= k < Cap :: SourceIndex(n, k) == j
  }

  /** The answer is a subsequence of the path: every grid it holds comes
      from a strictly later position than the one before, and the grids
      left out are exactly positions 50 to n - 51. */
  lemma TruncateIsSubsequence<T>(xs: seq<T>)
    requires |xs| > Cap
    ensures forall k | 0 <= k < Cap :: SourceIndex(|xs|, k) < |xs| && Truncate(xs)[k] == xs[SourceIndex(|xs|, k)]
    ensures forall k, l | 0 <= k < l < Cap :: SourceIndex(|xs|, k) < SourceIndex(|xs|, l)
    ensures forall j | 0 <= j < |xs| :: Picked(|xs|, j) <==> j < Half || j >= |xs| - Half
  {
    var n := |xs|;
    forall j | 0 <= j < n
      ensures Picked(n, j) <==> j < Half || j >= n - Half
    {
      if j < Half {
        assert SourceIndex(n, j) == j;
      } else if j >= n - Half {
        assert SourceIndex(n, j - n + Cap) == j;
      }
    }
  }

  /** The answer keeps the path's first and last grids, so it still starts
      at the scrambled grid and ends at the goal layout. */
  lemma TruncateKeepsEnds<T>(xs: seq<T>)
    requires |xs| > 0
    ensures |Truncate(xs)| > 0
    ensures Truncate(xs)[0] == xs[0]
    ensures Truncate(xs)[|Truncate(xs)| - 1] == xs[|xs| - 1]
  {
  }

  /** Truncating an answer again changes nothing. */
  lemma TruncateIdempotent<T>(xs: seq<T>)
    ensures Truncate(Truncate(xs)) == Truncate(xs)
  {
  }

  /** `Get`: the service's path `total`, cut down to at most 100 grids. A
      nonempty answer starts at a permutation of even parity and ends at the
      goal layout; a path of at most 100 grids is answered whole, so all its
      consecutive grids are one move apart, and in a longer one the moves
      hold within each half. */
  method Get(rounds: nat) returns (data: seq<Grid>, ghost total: seq<Grid>)
    requires rounds >= 1
    ensures data == Truncate(total)
    ensures forall i | 0 <= i < |total| - 1 :: IsMove(total[i], total[i + 1])
    ensures |total| <= Cap ==> forall i | 0 <= i < |data| - 1 :: IsMove(data[i], data[i + 1])
    ensures |data| <= Cap
    ensures data != [] ==> IsPermutation(data[0]) && InversionCount(data[0]) % 2 == 0
    ensures data != [] ==> data[|data| - 1] == GoalLayout
    ensures forall i | 0 <= i < |data| - 1 && i != Half - 1 :: IsMove(data[i], data[i + 1])
    ensures |data| < Cap ==> forall i | 0 <= i < |data| - 1 :: IsMove(data[i], data[i + 1])
  {
    var totalResult := Solve(rounds);
    total := totalResult;
    data := Truncate(totalResult);
    if totalResult != [] {
      TruncateKeepsEnds(totalResult);
    }
    if |totalResult| > Cap {
      forall i | 0 <= i < |data| - 1 && i != Half - 1
        ensures IsMove(data[i], data[i + 1])
      {
        if i < Half - 1 {
          assert data[i] == totalResult[i] && data[i + 1] == totalResult[i + 1];
        } else {
          var n := |totalResult|;
          assert data[i] == totalResult[n - Cap + i] && data[i + 1] == totalResult[n - Cap + i + 1];
        }
      }
    }
  }
}
