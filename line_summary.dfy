/**
 * Line summaries of the Deep engine: a sparse sample of an employee's
 * management line, every `interval`-th manager counted from the root, each
 * paired with its hop distance from the employee.
 */
module LineSummaries {
  import opened Hierarchy
  import opened Bisect

  datatype Summary = Summary(employeeNumbers: seq<int>, distances: seq<int>)

  /**
   * A summary `s` is usable for employee `e` when its numbers are sorted (so
   * they can be bisected) and each entry is an ancestor of `e` paired with
   * its exact hop distance. Which entries are present does not matter.
   */
  ghost predicate ValidSummary(h: seq<int>, e: int, s: Summary)
    requires ValidHierarchy(h) && IsEmployee(h, e)
  {
    && |s.employeeNumbers| == |s.distances|
    && Sorted(s.employeeNumbers)
    && forall j :: 0 <= j < |s.distances| ==>
         0 <= s.distances[j] <= Depth(h, e) && Ancestor(h, e, s.distances[j]) == s.employeeNumbers[j]
  }

  /** line[start], line[start + interval], ... */
  function SampleNumbers(line: seq<int>, interval: nat, start: nat): seq<int>
    requires interval >= 1
    decreases |line| - start
  {
    if start >= |line| then [] else [line[start]] + SampleNumbers(line, interval, start + interval)
  }

  /** The distances paired with SampleNumbers: |line| - start, |line| - start - interval, ... */
  function SampleDistances(line: seq<int>, interval: nat, start: nat): seq<int>
    requires interval >= 1
    decreases |line| - start
  {
    if start >= |line| then [] else [|line| - start] + SampleDistances(line, interval, start + interval)
  }

  /**
   * The summary stored for a management line. The source divides the line
   * length by the interval and stores nothing when the quotient is at most 1;
   * with true division that is exactly |line| <= interval.
   */
  function SummaryOf(line: seq<int>, interval: nat): Summary
    requires interval >= 1
  {
    if |line| <= interval then Summary([], [])
    else Summary(SampleNumbers(line, interval, 0), SampleDistances(line, interval, 0))
  }

  /** The cut-off a floor division (Python 2) would give instead. */
  function FloorDivisionSummaryOf(line: seq<int>, interval: nat): Summary
    requires interval >= 1
  {
    if |line| / interval <= 1 then Summary([], [])
    else Summary(SampleNumbers(line, interval, 0), SampleDistances(line, interval, 0))
  }

  /** Entry j of a sample is line[start + j * interval], at distance |line| - (start + j * interval). */
  lemma {:induction false} SampleAt(line: seq<int>, interval: nat, start: nat, j: nat)
    requires interval >= 1 && j < |SampleNumbers(line, interval, start)|
    ensures |SampleDistances(line, interval, start)| == |SampleNumbers(line, interval, start)|
    ensures start + j * interval < |line|
    ensures SampleNumbers(line, interval, start)[j] == line[start + j * interval]
    ensures SampleDistances(line, interval, start)[j] == |line| - (start + j * interval)
    decreases j
  {
    SampleLengths(line, interval, start);
    if j > 0 {
      SampleAt(line, interval, start + interval, j - 1);
      assert start + interval + (j - 1) * interval == start + j * interval;
    }
  }

  lemma {:induction false} SampleLengths(line: seq<int>, interval: nat, start: nat)
    requires interval >= 1
    ensures |SampleDistances(line, interval, start)| == |SampleNumbers(line, interval, start)|
    decreases |line| - start
  {
    if start < |line| {
      SampleLengths(line, interval, start + interval);
    }
  }

  /** Each sampled number is an element of the line at or after `start`, with its distance to the end. */
  lemma {:induction false} SampleFromLine(line: seq<int>, interval: nat, start: nat)
    requires interval >= 1
    ensures |SampleDistances(line, interval, start)| == |SampleNumbers(line, interval, start)|
    ensures forall j :: 0 <= j < |SampleNumbers(line, interval, start)| ==>
      exists i :: start <= i < |line| &&
        SampleNumbers(line, interval, start)[j] == line[i] &&
        SampleDistances(line, interval, start)[j] == |line| - i
    decreases |line| - start
  {
    SampleLengths(line, interval, start);
    if start < |line| {
      SampleFromLine(line, interval, start + interval);
      var ns := SampleNumbers(line, interval, start);
      var ds := SampleDistances(line, interval, start);
      forall j | 0 <= j < |ns|
        ensures exists i :: start <= i < |line| && ns[j] == line[i] && ds[j] == |line| - i
      {
        if j == 0 {
          assert ns[0] == line[start] && ds[0] == |line| - start;
        } else {
          assert ns[j] == SampleNumbers(line, interval, start + interval)[j - 1];
          assert ds[j] == SampleDistances(line, interval, start + interval)[j - 1];
        }
      }
    }
  }

  /** A sample of a strictly increasing line is strictly increasing and starts at line[start]. */
  lemma {:induction false} SampleIncreasing(line: seq<int>, interval: nat, start: nat)
    requires interval >= 1 && StrictlyIncreasing(line)
    ensures StrictlyIncreasing(SampleNumbers(line, interval, start))
    ensures forall j :: 0 <= j < |SampleNumbers(line, interval, start)| ==>
      line[start] <= SampleNumbers(line, interval, start)[j]
    decreases |line| - start
  {
    if start < |line| {
      SampleIncreasing(line, interval, start + interval);
    }
  }

  /** A sample of the management line of `e` is a valid summary for `e`. */
  lemma SampledSummaryValid(h: seq<int>, e: int, interval: nat)
    requires ValidHierarchy(h) && IsEmployee(h, e) && interval >= 1
    ensures ValidSummary(h, e, Summary(SampleNumbers(FullLine(h, e), interval, 0),
                                       SampleDistances(FullLine(h, e), interval, 0)))
  {
    var line := FullLine(h, e);
    FullLineIsAncestors(h, e);
    SampleFromLine(line, interval, 0);
    SampleIncreasing(line, interval, 0);
  }

  /** The stored summary is valid for its employee. */
  lemma SummaryOfValid(h: seq<int>, e: int, interval: nat)
    requires ValidHierarchy(h) && IsEmployee(h, e) && interval >= 1
    ensures ValidSummary(h, e, SummaryOf(FullLine(h, e), interval))
  {
    SampledSummaryValid(h, e, interval);
  }

  /**
   * The floor-division cut-off only changes which valid summary is stored:
   * both choices are valid, and a query through any valid summary gives the
   * same answer (DeepCompanyEngine.DeepCompany.InManagementLine).
   */
  lemma FloorDivisionSummaryValid(h: seq<int>, e: int, interval: nat)
    requires ValidHierarchy(h) && IsEmployee(h, e) && interval >= 1
    ensures ValidSummary(h, e, FloorDivisionSummaryOf(FullLine(h, e), interval))
    ensures |FullLine(h, e)| < 2 * interval ==> FloorDivisionSummaryOf(FullLine(h, e), interval) == Summary([], [])
  {
    SampledSummaryValid(h, e, interval);
    QuotientBelowTwo(|FullLine(h, e)|, interval);
  }

  lemma QuotientBelowTwo(n: nat, d: nat)
    requires d >= 1
    ensures n < 2 * d ==> n / d <= 1
  {
    if n < 2 * d && n >= d {
      assert (n - d) / d == 0;
    }
  }

  /** The cut-off as written: with true division the quotient is at most 1 exactly when the line fits in one interval. */
  lemma TrueQuotientAtMostOne(length: nat, interval: nat)
    requires interval >= 1
    ensures (length as real) / (interval as real) <= 1.0 <==> length <= interval
  {
    var q := (length as real) / (interval as real);
    assert (q - 1.0) * (interval as real) == length as real - interval as real;
    if q <= 1.0 {
      assert (1.0 - q) * (interval as real) >= 0.0;
    } else {
      assert (q - 1.0) * (interval as real) > 0.0;
    }
  }
}
