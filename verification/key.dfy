/** The closed-set key of `PuzzleToString` (each cell's decimal text followed
    by a comma, row-major) and its parse-back `ConvertStringToList`
    (split on commas, drop empty pieces, convert each piece to an int). */
module Key {
  import opened Common

  predicate IsDigit(c: char)
  {
    '0' <= c <= '9'
  }

  predicate AllDigits(s: string)
  {
    forall k | 0 <= k < |s| :: IsDigit(s[k])
  }

  function DigitChar(d: nat): (c: char)
    requires d < 10
    ensures IsDigit(c)
  {
    (48 + d) as char
  }

  function DigitValue(c: char): nat
    requires IsDigit(c)
  {
    c as int - 48
  }

  /** Decimal text of a natural number, without leading zeros. */
  function NatToString(n: nat): (s: string)
    ensures |s| >= 1 && AllDigits(s)
    decreases n
  {
    if n < 10 then [DigitChar(n)] else NatToString(n / 10) + [DigitChar(n % 10)]
  }

  /** `int.ToString()`: a minus sign for negative values. */
  function IntToString(i: int): (s: string)
    ensures |s| >= 1 && ',' !in s
  {
    if i < 0 then "-" + NatToString(-i) else NatToString(i)
  }

  /** Value of a string of decimal digits. */
  function ParseDigits(s: string): nat
    requires AllDigits(s)
  {
    if |s| == 0 then 0 else 10 * ParseDigits(s[..|s| - 1]) + DigitValue(s[|s| - 1])
  }

  /** The texts `Convert.ToInt32` accepts here: a digit or a minus sign
      that is not the whole text, then digits only. */
  predicate IntText(s: string)
  {
    |s| >= 1 && (IsDigit(s[0]) || (s[0] == '-' && |s| >= 2)) && AllDigits(s[1..])
  }

  /** `Convert.ToInt32` on an optional minus sign followed by digits; any
      other text is a format error (`None`). */
  function ParseInt(s: string): (r: Option<int>)
    ensures r.Some? <==> IntText(s)
  {
    if |s| >= 1 && AllDigits(s) then Some(ParseDigits(s))
    else if |s| >= 2 && s[0] == '-' && AllDigits(s[1..]) then Some(0 - ParseDigits(s[1..]))
    else None
  }


  /** The key: every cell's text followed by `,`. */
  function PuzzleToString(g: seq<int>): (key: string)
    ensures |key| >= 2 * |g|
  {
    if |g| == 0 then "" else IntToString(g[0]) + "," + PuzzleToString(g[1..])
  }

  /** The key of a nonempty grid ends with the comma after its last cell. */
  lemma {:induction false} KeyEndsWithComma(g: seq<int>)
    requires |g| > 0
    ensures PuzzleToString(g)[|PuzzleToString(g)| - 1] == ','
  {
    if |g| > 1 {
      KeyEndsWithComma(g[1..]);
    }
  }

  /** The key of a concatenation is the concatenation of the keys. */
  lemma {:induction false} KeyConcat(a: seq<int>, b: seq<int>)
    ensures PuzzleToString(a + b) == PuzzleToString(a) + PuzzleToString(b)
  {
    if |a| == 0 {
      assert a + b == b;
    } else {
      assert (a + b)[1..] == a[1..] + b;
      KeyConcat(a[1..], b);
    }
  }

  /** The key of a prefix grows by one cell's text and a comma. */
  lemma KeySnoc(g: seq<int>, k: int)
    requires 0 <= k < |g|
    ensures PuzzleToString(g[..k + 1]) == PuzzleToString(g[..k]) + IntToString(g[k]) + ","
  {
    assert g[..k + 1] == g[..k] + [g[k]];
    KeyConcat(g[..k], [g[k]]);
    assert [g[k]][1..] == [];
  }

  /** The nested loop of `PuzzleToString`, appending `cell + ","` row by
      row; it builds the key of the whole grid. */
  method BuildKey(g: seq<int>) returns (result: string)
    requires |g| == 9
    ensures result == PuzzleToString(g)
  {
    result := "";
    var i := 0;
    while i < 3
      invariant 0 <= i <= 3
      invariant result == PuzzleToString(g[..3 * i])
    {
      var j := 0;
      while j < 3
        invariant 0 <= j <= 3
        invariant result == PuzzleToString(g[..3 * i + j])
      {
        KeySnoc(g, 3 * i + j);
        result := result + IntToString(g[3 * i + j]) + ",";
        j := j + 1;
      }
      i := i + 1;
    }
    assert g[..9] == g;
  }

  /** `string.Split(",")`: the pieces between commas, including an empty
      piece after a trailing comma. */
  function Split(s: string): (parts: seq<string>)
    ensures |parts| >= 1
    ensures forall k | 0 <= k < |parts| :: ',' !in parts[k]
  {
    if |s| == 0 then [""]
    else
      var rest := Split(s[1..]);
      if s[0] == ',' then [""] + rest
      else [[s[0]] + rest[0]] + rest[1..]
  }

  /** `.Where(x => !string.IsNullOrEmpty(x))`. */
  function NonEmpty(parts: seq<string>): (r: seq<string>)
    ensures |r| <= |parts|
    ensures forall x :: x in r <==> x in parts && x != ""
  {
    if |parts| == 0 then []
    else (if parts[0] == "" then [] else [parts[0]]) + NonEmpty(parts[1..])
  }

  /** The filter works piece by piece: it keeps a nonempty piece, drops an
      empty one, and keeps the order and the duplicates of what it keeps. */
  lemma NonEmptySingle(x: string)
    ensures NonEmpty([x]) == if x == "" then [] else [x]
  {
    assert [x][1..] == [];
  }

  /** Filtering a concatenation filters each part and concatenates, so the
      kept pieces stay in their order, duplicates included. */
  lemma {:induction false} NonEmptyConcat(a: seq<string>, b: seq<string>)
    ensures NonEmpty(a + b) == NonEmpty(a) + NonEmpty(b)
  {
    if |a| == 0 {
      assert a + b == b;
    } else {
      assert (a + b)[1..] == a[1..] + b;
      NonEmptyConcat(a[1..], b);
    }
  }

  /** `.Select(Convert.ToInt32).ToList()`: `None` as soon as one piece is
      not a number. */
  function ParseAll(parts: seq<string>): (r: Option<seq<int>>)
    ensures r.Some? <==> forall k | 0 <= k < |parts| :: ParseInt(parts[k]).Some?
    ensures r.Some? ==> |r.value| == |parts|
    ensures r.Some? ==> forall k | 0 <= k < |parts| :: r.value[k] == ParseInt(parts[k]).value
  {
    if |parts| == 0 then Some([])
    else
      match ParseInt(parts[0])
      case None => None
      case Some(x) =>
        match ParseAll(parts[1..])
        case None => None
        case Some(xs) => Some([x] + xs)
  }

  /** `ConvertStringToList`: every value it returns is the number written by
      a nonempty comma-free piece of the text, and there are no more values
      than pieces. */
  function ConvertStringToList(s: string): (r: Option<seq<int>>)
    ensures r.Some? ==> |r.value| <= |Split(s)|
    ensures r.Some? ==> forall k | 0 <= k < |r.value| ::
      exists w | w in Split(s) && w != "" :: ',' !in w && ParseInt(w) == Some(r.value[k])
  {
    var pieces := NonEmpty(Split(s));
    var r := ParseAll(pieces);
    assert r.Some? ==> forall k | 0 <= k < |r.value| ::
      pieces[k] in Split(s) && pieces[k] != "" && ParseInt(pieces[k]) == Some(r.value[k]);
    r
  }

  /** The decimal text reads back as the number. */
  lemma {:induction false} NatRoundTrip(n: nat)
    ensures ParseDigits(NatToString(n)) == n
    decreases n
  {
    if n >= 10 {
      NatRoundTrip(n / 10);
      var s := NatToString(n);
      assert s[..|s| - 1] == NatToString(n / 10);
    }
  }

  lemma IntRoundTrip(i: int)
    ensures ParseInt(IntToString(i)) == Some(i)
  {
    if i < 0 {
      NatRoundTrip(-i);
      var s := IntToString(i);
      assert s[1..] == NatToString(-i);
      assert !IsDigit(s[0]);
    } else {
      NatRoundTrip(i);
    }
  }

  /** A comma-free piece followed by a comma splits off as one part. */
  lemma {:induction false} SplitPiece(w: string, rest: string)
    requires ',' !in w
    ensures Split(w + "," + rest) == [w] + Split(rest)
    decreases |w|
  {
    var s := w + "," + rest;
    if |w| == 0 {
      assert s[1..] == rest;
    } else {
      assert s[1..] == w[1..] + "," + rest;
      SplitPiece(w[1..], rest);
      assert [w[0]] + w[1..] == w;
    }
  }

  /** The texts of the cells, one per cell. */
  function Texts(g: seq<int>): (ts: seq<string>)
    ensures |ts| == |g|
    ensures forall k | 0 <= k < |g| :: ts[k] == IntToString(g[k])
  {
    if |g| == 0 then [] else [IntToString(g[0])] + Texts(g[1..])
  }

  lemma {:induction false} SplitKey(g: seq<int>)
    ensures Split(PuzzleToString(g)) == Texts(g) + [""]
  {
    if |g| > 0 {
      SplitPiece(IntToString(g[0]), PuzzleToString(g[1..]));
      SplitKey(g[1..]);
    }
  }

  lemma {:induction false} NonEmptyTexts(g: seq<int>)
    ensures NonEmpty(Texts(g) + [""]) == Texts(g)
  {
    if |g| > 0 {
      assert (Texts(g) + [""])[1..] == Texts(g[1..]) + [""];
      NonEmptyTexts(g[1..]);
    }
  }

  lemma {:induction false} ParseTexts(g: seq<int>)
    ensures ParseAll(Texts(g)) == Some(g)
  {
    if |g| > 0 {
      IntRoundTrip(g[0]);
      assert Texts(g)[1..] == Texts(g[1..]);
      ParseTexts(g[1..]);
      assert [g[0]] + g[1..] == g;
    }
  }

  /** The parse-back returns the cells in the order they were written. */
  lemma {:induction false} KeyRoundTrip(g: seq<int>)
    ensures ConvertStringToList(PuzzleToString(g)) == Some(g)
  {
    SplitKey(g);
    NonEmptyTexts(g);
    ParseTexts(g);
  }

  /** Distinct grids have distinct keys, which is what the closed set's
      deduplication relies on. */
  lemma {:induction false} KeyInjective(g: seq<int>, h: seq<int>)
    ensures PuzzleToString(g) == PuzzleToString(h) <==> g == h
  {
    KeyRoundTrip(g);
    KeyRoundTrip(h);
  }
}
