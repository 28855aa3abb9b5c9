/** Helpers shared by the whole model: an optional value (standing for a null
    reference or for an exception the program would throw) and the integer
    operations of C# that differ from Dafny's built-in ones. */
module Common {

  /** `None` plays the part of `null` (a missing parent, no goal found) or of a
      thrown exception (a malformed number). */
  datatype Option<+T> = None | Some(value: T)

  function Abs(x: int): (r: nat)
    ensures r == x || r == -x
  {
    if x < 0 then -x else x
  }

  /** C#'s `/` on `int`: the quotient is truncated toward zero. */
  function TruncDiv(a: int, b: int): (q: int)
    requires b > 0
    ensures a >= 0 ==> q == a / b
  {
    if a >= 0 then a / b else -((-a) / b)
  }

  /** C#'s `%` on `int`: the remainder takes the sign of the dividend. */
  function TruncRem(a: int, b: int): (r: int)
    requires b > 0
  {
    if a >= 0 then a % b else -((-a) % b)
  }

  /** The C# division identity: quotient times divisor plus remainder gives
      the dividend back, and the remainder is smaller than the divisor and
      never of the opposite sign. */
  lemma TruncDivision(a: int, b: int)
    requires b > 0
    ensures a == b * TruncDiv(a, b) + TruncRem(a, b)
    ensures Abs(TruncRem(a, b)) < b
    ensures a >= 0 ==> TruncRem(a, b) >= 0
    ensures a < 0 ==> TruncRem(a, b) <= 0
  {
  }

  /** The sequence read back to front. */
  function Reverse<T>(s: seq<T>): (r: seq<T>)
    ensures |r| == |s|
    ensures forall i | 0 <= i < |s| :: r[i] == s[|s| - 1 - i]
  {
    if |s| == 0 then [] else [s[|s| - 1]] + Reverse(s[..|s| - 1])
  }

  /** Reversing moves a front element to the back. */
  lemma ReverseCons<T>(x: T, s: seq<T>)
    ensures Reverse([x] + s) == Reverse(s) + [x]
  {
    var l, r := Reverse([x] + s), Reverse(s) + [x];
    assert |l| == |r|;
    forall i | 0 <= i < |l|
      ensures l[i] == r[i]
    {
      if i < |s| {
        assert ([x] + s)[|s| - i] == s[|s| - 1 - i];
      }
    }
  }
}
