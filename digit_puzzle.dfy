/**
 * Problem A (ipsc2015a.py): a line of decimal digits is read one digit per
 * character; the digits are sorted largest first, the last (smallest) one is
 * taken as the first number, the remaining digits read largest first form the
 * second number, and the answer is their sum.
 */
module DigitPuzzle {
  import opened Wrappers

  datatype PuzzleError =
    | NotADigit        // `int(c)` of a character that is not a decimal digit
    | PopFromEmptyList // `digits.pop()` on an empty list
    | EmptyLiteral     // `int("")` when a single digit was given

  predicate IsDigitChar(c: char) {
    '0' <= c <= '9'
  }

  predicate AllDigits(ds: seq<int>) {
    forall i :: 0 <= i < |ds| ==> 0 <= ds[i] <= 9
  }

  // ---------------------------------------------------------------------
  // Reading the digits
  // ---------------------------------------------------------------------

  /** One digit per character of the (already stripped) line. */
  function ParseDigits(line: string): (r: Result<seq<int>, PuzzleError>)
    ensures r.Success? <==> forall i :: 0 <= i < |line| ==> IsDigitChar(line[i])
    ensures r.Success? ==> |r.value| == |line| && AllDigits(r.value)
    ensures r.Failure? ==> r.error == NotADigit
  {
    if |line| == 0 then
      Success([])
    else if !IsDigitChar(line[0]) then
      Failure(NotADigit)
    else
      match ParseDigits(line[1..])
      case Success(rest) => Success([line[0] as int - '0' as int] + rest)
      case Failure(e) => Failure(e)
  }

  /** `"".join(map(str, digits))`: each digit written as its character. */
  function Render(ds: seq<int>): (s: string)
    requires AllDigits(ds)
    ensures |s| == |ds|
  {
    if |ds| == 0 then [] else [('0' as int + ds[0]) as char] + Render(ds[1..])
  }

  /** Writing digits out and reading them back gives the same digits. */
  lemma {:induction false} ParseRender(ds: seq<int>)
    requires AllDigits(ds)
    ensures ParseDigits(Render(ds)) == Success(ds)
  {
    if |ds| > 0 {
      ParseRender(ds[1..]);
      var line := Render(ds);
      assert line[1..] == Render(ds[1..]);
      assert IsDigitChar(line[0]) && line[0] as int - '0' as int == ds[0];
      assert ds == [ds[0]] + ds[1..];
    }
  }

  /** A line that parses is exactly its digits written out. */
  lemma {:induction false} RenderParse(line: string)
    requires ParseDigits(line).Success?
    ensures Render(ParseDigits(line).value) == line
  {
    if |line| > 0 {
      RenderParse(line[1..]);
      assert ParseDigits(line).value == [line[0] as int - '0' as int] + ParseDigits(line[1..]).value;
    }
  }

  // ---------------------------------------------------------------------
  // Sorting largest first
  // ---------------------------------------------------------------------

  predicate NonIncreasing(s: seq<int>) {
    forall i, j :: 0 <= i < j < |s| ==> s[i] >= s[j]
  }

  /** Put `x` into a non-increasing list at its place. */
  function Insert(x: int, s: seq<int>): (r: seq<int>)
    requires NonIncreasing(s)
    ensures NonIncreasing(r)
    ensures multiset(r) == multiset(s) + multiset{x}
    ensures |r| == |s| + 1 && r[0] == (if |s| == 0 || x >= s[0] then x else s[0])
  {
    if |s| == 0 || x >= s[0] then
      [x] + s
    else
      assert s == [s[0]] + s[1..];
      [s[0]] + Insert(x, s[1..])
  }

  /** `sorted(digits, reverse=True)`. */
  function SortDescending(ds: seq<int>): (r: seq<int>)
    ensures NonIncreasing(r)
    ensures multiset(r) == multiset(ds)
  {
    if |ds| == 0 then
      []
    else
      assert ds == [ds[0]] + ds[1..];
      Insert(ds[0], SortDescending(ds[1..]))
  }

  /**
   * A non-increasing arrangement of a multiset is unique, so any sort that
   * orders largest first (a stable one in particular) gives this result.
   */
  lemma {:induction false} NonIncreasingUnique(a: seq<int>, b: seq<int>)
    requires NonIncreasing(a) && NonIncreasing(b) && multiset(a) == multiset(b)
    ensures a == b
  {
    if a != [] && b != [] {
      SameHead(a, b);
      NonIncreasingUnique(a[1..], b[1..]);
      assert a == [a[0]] + a[1..] && b == [b[0]] + b[1..];
    } else {
      assert |multiset(a)| == |a| && |multiset(b)| == |b|;
    }
  }

  /** Two non-empty non-increasing lists with the same elements share their head and tails' elements. */
  lemma SameHead(a: seq<int>, b: seq<int>)
    requires NonIncreasing(a) && NonIncreasing(b) && multiset(a) == multiset(b)
    requires a != [] && b != []
    ensures a[0] == b[0] && multiset(a[1..]) == multiset(b[1..])
    ensures NonIncreasing(a[1..]) && NonIncreasing(b[1..])
  {
    HeadIsLargest(a, b[0]);
    HeadIsLargest(b, a[0]);
    MultisetTail(a);
    MultisetTail(b);
  }

  lemma MultisetTail(s: seq<int>)
    requires s != []
    ensures multiset(s[1..]) == multiset(s) - multiset{s[0]}
  {
    assert s == [s[0]] + s[1..];
  }

  /** The head of a non-increasing list is at least any element. */
  lemma HeadIsLargest(s: seq<int>, x: int)
    requires NonIncreasing(s) && x in multiset(s)
    ensures s[0] >= x
  {
    assert x in s;
    var i :| 0 <= i < |s| && s[i] == x;
  }

  // ---------------------------------------------------------------------
  // Decimal values
  // ---------------------------------------------------------------------

  function Pow10(k: nat): nat {
    if k == 0 then 1 else 10 * Pow10(k - 1)
  }

  /** The value of a digit string read most significant digit first, as `int(...)`. */
  function DecimalValue(ds: seq<int>): int {
    if |ds| == 0 then 0 else ds[0] * Pow10(|ds| - 1) + DecimalValue(ds[1..])
  }

  /** `k` decimal digits are worth less than 10^k, and never negative. */
  lemma {:induction false} DecimalValueBounds(ds: seq<int>)
    requires AllDigits(ds)
    ensures 0 <= DecimalValue(ds) < Pow10(|ds|)
  {
    if |ds| > 0 {
      var power := Pow10(|ds| - 1);
      DecimalValueBounds(ds[1..]);
      assert 0 <= ds[0] * power <= 9 * power;
    }
  }

  /** Putting `x` at its place in a non-increasing list never lowers the value of `[x] + s`. */
  lemma {:induction false} InsertMaximizes(x: int, s: seq<int>)
    requires NonIncreasing(s)
    ensures DecimalValue([x] + s) <= DecimalValue(Insert(x, s))
  {
    if |s| > 0 && x < s[0] {
      var k := |s| - 1;
      var power := Pow10(k);
      var t := Insert(x, s[1..]);
      InsertMaximizes(x, s[1..]);
      assert ([x] + s)[1..] == s && ([x] + s[1..])[1..] == s[1..];
      assert Insert(x, s) == [s[0]] + t && |t| == k + 1;
      assert ([s[0]] + t)[1..] == t;
      assert DecimalValue([x] + s) == x * (10 * power) + s[0] * power + DecimalValue(s[1..]);
      assert DecimalValue(Insert(x, s)) == s[0] * (10 * power) + DecimalValue(t);
      assert DecimalValue([x] + s[1..]) == x * power + DecimalValue(s[1..]);
      ExchangeDigits(x, s[0], power);
    }
  }

  /** A larger digit is worth more one place further left. */
  lemma ExchangeDigits(x: int, y: int, power: nat)
    requires x < y
    ensures x * (10 * power) + y * power <= y * (10 * power) + x * power
  {
    assert y * (10 * power) + x * power - (x * (10 * power) + y * power) == 9 * ((y - x) * power);
    assert (y - x) * power >= 0;
  }

  /** Sorting largest first gives the largest value those digits can be written as. */
  lemma {:induction false} SortMaximizes(ds: seq<int>)
    ensures DecimalValue(ds) <= DecimalValue(SortDescending(ds))
  {
    if |ds| > 0 {
      var rest := SortDescending(ds[1..]);
      SortMaximizes(ds[1..]);
      assert |rest| == |ds[1..]| by {
        assert |multiset(rest)| == |multiset(ds[1..])|;
      }
      assert ([ds[0]] + rest)[1..] == rest;
      InsertMaximizes(ds[0], rest);
    }
  }

  /** Among all orders of the same digits, a non-increasing one has the largest value. */
  lemma LargestArrangement(p: seq<int>, s: seq<int>)
    requires multiset(p) == multiset(s) && NonIncreasing(s)
    ensures DecimalValue(p) <= DecimalValue(s)
  {
    SortMaximizes(p);
    NonIncreasingUnique(SortDescending(p), s);
  }

  // ---------------------------------------------------------------------
  // The answer
  // ---------------------------------------------------------------------

  /** Sort, pop the smallest digit, read the rest as a number, add the two. */
  function Solve(digits: seq<int>): (r: Result<int, PuzzleError>)
  {
    var sorted := SortDescending(digits);
    if |sorted| == 0 then
      Failure(PopFromEmptyList)
    else
      var number1 := sorted[|sorted| - 1];
      var rest := sorted[..|sorted| - 1];
      if |rest| == 0 then Failure(EmptyLiteral) else Success(number1 + DecimalValue(rest))
  }

  /**
   * `m` is the smallest of `digits` and `rest` the other digits, arranged so
   * that no order of them has a larger value.
   */
  ghost predicate SmallestAndLargest(digits: seq<int>, m: int, rest: seq<int>) {
    && m in digits
    && (forall d :: d in digits ==> m <= d)
    && multiset(rest) == multiset(digits) - multiset{m}
    && (forall p :: multiset(p) == multiset(rest) ==> DecimalValue(p) <= DecimalValue(rest))
  }

  /** The last element of a non-increasing list is its smallest. */
  lemma LastIsSmallest(s: seq<int>, d: int)
    requires NonIncreasing(s) && |s| > 0 && d in s
    ensures s[|s| - 1] <= d
  {
    var i :| 0 <= i < |s| && s[i] == d;
  }

  /** No digits fails at the pop, one digit at the empty literal, more digits succeed. */
  lemma SolveErrors(digits: seq<int>)
    ensures |digits| == 0 <==> Solve(digits) == Failure(PopFromEmptyList)
    ensures |digits| == 1 <==> Solve(digits) == Failure(EmptyLiteral)
    ensures |digits| >= 2 <==> Solve(digits).Success?
  {
    var sorted := SortDescending(digits);
    assert |sorted| == |multiset(sorted)| == |multiset(digits)| == |digits|;
  }

  /**
   * With at least two digits the answer is the smallest digit plus the
   * largest number the other digits can form.
   */
  lemma SolveSpec(digits: seq<int>)
    requires |digits| >= 2
    ensures Solve(digits).Success?
    ensures exists m, rest :: SmallestAndLargest(digits, m, rest) && Solve(digits).value == m + DecimalValue(rest)
  {
    SolveErrors(digits);
    var sorted := SortDescending(digits);
    var m := sorted[|sorted| - 1];
    var rest := sorted[..|sorted| - 1];
    assert Solve(digits).value == m + DecimalValue(rest);
    SplitSorted(digits, sorted);
  }

  /** Splitting the last element off a non-increasing arrangement of `digits`. */
  lemma SplitSorted(digits: seq<int>, sorted: seq<int>)
    requires NonIncreasing(sorted) && multiset(sorted) == multiset(digits) && |sorted| >= 1
    ensures SmallestAndLargest(digits, sorted[|sorted| - 1], sorted[..|sorted| - 1])
  {
    var m := sorted[|sorted| - 1];
    var rest := sorted[..|sorted| - 1];
    assert sorted == rest + [m];
    assert m in multiset(digits);
    forall d | d in digits
      ensures m <= d
    {
      assert d in multiset(sorted);
      LastIsSmallest(sorted, d);
    }
    assert multiset(rest) == multiset(digits) - multiset{m};
    forall p | multiset(p) == multiset(rest)
      ensures DecimalValue(p) <= DecimalValue(rest)
    {
      LargestArrangement(p, rest);
    }
  }
}
