/**
 * The Deep engine. Employees live in an arena indexed by employee number:
 * `hierarchy` holds each employee's manager and `lineSummaries` the summary
 * each employee has been given, if any. Events are processed from last to
 * first: reads wait in a sorted queue until the latest earlier memo that
 * reaches them is met, and those never reached read the initial tie 1.
 */
module DeepCompanyEngine {
  import opened Wrappers
  import opened Hierarchy
  import opened Bisect
  import opened Events
  import opened ReadEvents
  import opened LineSummaries
  import opened ReadAccounting

  /** Employee `e` has been given a summary. */
  predicate HasSummary(ls: seq<Option<Summary>>, e: int) {
    1 <= e <= |ls| && ls[e - 1].Some?
  }

  /** Every summary present is valid for its employee. */
  ghost predicate SummariesValid(h: seq<int>, ls: seq<Option<Summary>>)
    requires ValidHierarchy(h)
  {
    forall e :: HasSummary(ls, e) && IsEmployee(h, e) ==> ValidSummary(h, e, ls[e - 1].value)
  }

  /**
   * The manager of every summarised employee other than `except` is
   * summarised too (employee i + 2 has manager h[i]).
   */
  ghost predicate UpwardClosedExcept(h: seq<int>, ls: seq<Option<Summary>>, except: int)
    requires ValidHierarchy(h)
  {
    forall i :: 0 <= i < |h| && i + 2 != except && HasSummary(ls, i + 2) ==> HasSummary(ls, h[i])
  }

  ghost predicate UpwardClosed(h: seq<int>, ls: seq<Option<Summary>>)
    requires ValidHierarchy(h)
  {
    UpwardClosedExcept(h, ls, 0)
  }

  /**
   * Every summary stored is the sample of its employee's management line,
   * as `populate_line_summary` computes it.
   */
  ghost predicate SummariesExact(h: seq<int>, interval: nat, ls: seq<Option<Summary>>)
    requires ValidHierarchy(h) && interval >= 1
  {
    forall e :: HasSummary(ls, e) && IsEmployee(h, e) ==> ls[e - 1].value == SummaryOf(FullLine(h, e), interval)
  }

  /** Stored summaries are exact, hence valid. */
  lemma ExactSummariesValid(h: seq<int>, interval: nat, ls: seq<Option<Summary>>)
    requires ValidHierarchy(h) && interval >= 1 && SummariesExact(h, interval, ls)
    ensures SummariesValid(h, ls)
  {
    forall e | HasSummary(ls, e) && IsEmployee(h, e)
      ensures ValidSummary(h, e, ls[e - 1].value)
    {
      SummaryOfValid(h, e, interval);
    }
  }

  /** Summaries are written once: every summary in `ls` is still in `ls'`, unchanged. */
  ghost predicate KeepsSummaries(ls': seq<Option<Summary>>, ls: seq<Option<Summary>>) {
    forall e :: HasSummary(ls, e) ==> HasSummary(ls', e) && ls'[e - 1] == ls[e - 1]
  }

  /** The only employee summarised in `ls'` but not in `ls` is `e`. */
  ghost predicate OnlyAdded(ls': seq<Option<Summary>>, ls: seq<Option<Summary>>, e: int) {
    forall x :: HasSummary(ls', x) ==> HasSummary(ls, x) || x == e
  }

  lemma KeepsSummariesTrans(ls2: seq<Option<Summary>>, ls1: seq<Option<Summary>>, ls0: seq<Option<Summary>>)
    requires KeepsSummaries(ls2, ls1) && KeepsSummaries(ls1, ls0)
    ensures KeepsSummaries(ls2, ls0)
  {
  }

  /** Every employee, or else its manager, has a summary: a query can always start from one. */
  ghost predicate Covered(h: seq<int>, ls: seq<Option<Summary>>)
    requires ValidHierarchy(h)
  {
    forall i :: 0 <= i < |h| ==> HasSummary(ls, i + 2) || HasSummary(ls, h[i])
  }

  /** Every queued person is an employee. */
  ghost predicate AllEmployees(h: seq<int>, ps: seq<int>) {
    forall x :: x in ps ==> IsEmployee(h, x)
  }

  /** The manager of `e`, or None for the root. */
  function ManagerOf(h: seq<int>, e: int): (r: Option<int>)
    requires ValidHierarchy(h) && IsEmployee(h, e)
    ensures r.None? <==> e == 1
    ensures r.Some? ==> IsEmployee(h, r.value) && r.value < e
  {
    if e == 1 then None else Some(Manager(h, e))
  }

  /** The list reversed, as Python's `list.reverse`. */
  function Reversed(s: seq<int>): (r: seq<int>)
    ensures |r| == |s|
    ensures forall i :: 0 <= i < |s| ==> r[i] == s[|s| - 1 - i]
  {
    if s == [] then [] else [s[|s| - 1]] + Reversed(s[..|s| - 1])
  }

  /**
   * Summaries are upward closed and every leaf (an employee nobody reports
   * to) or its manager is summarised: then every employee with a report is
   * summarised, so every employee is covered.
   */
  lemma {:induction false} NonLeafSummarized(h: seq<int>, ls: seq<Option<Summary>>, leaves: seq<int>, e: int)
    requires ValidHierarchy(h) && |ls| == |h| + 1 && UpwardClosed(h, ls)
    requires forall x :: x in leaves <==> 2 <= x <= |h| + 1 && HasNoReport(h, |h| + 1, x)
    requires forall x :: x in leaves ==> HasSummary(ls, x) || HasSummary(ls, Manager(h, x))
    requires 1 <= e <= |h| + 1 && !HasNoReport(h, |h| + 1, e)
    ensures HasSummary(ls, e)
    decreases |h| + 1 - e
  {
    var j :| 0 <= j < |h| && h[j] == e;
    var c := j + 2;
    assert Manager(h, c) == e;
    if HasNoReport(h, |h| + 1, c) {
      assert c in leaves;
    } else {
      NonLeafSummarized(h, ls, leaves, c);
    }
  }

  lemma LeavesCover(h: seq<int>, ls: seq<Option<Summary>>, leaves: seq<int>)
    requires ValidHierarchy(h) && |ls| == |h| + 1 && UpwardClosed(h, ls)
    requires forall x :: x in leaves <==> 2 <= x <= |h| + 1 && HasNoReport(h, |h| + 1, x)
    requires forall x :: x in leaves ==> HasSummary(ls, x) || HasSummary(ls, Manager(h, x))
    ensures Covered(h, ls)
  {
    forall i | 0 <= i < |h|
      ensures HasSummary(ls, i + 2) || HasSummary(ls, h[i])
    {
      var e := i + 2;
      assert Manager(h, e) == h[i];
      if !HasNoReport(h, |h| + 1, e) {
        NonLeafSummarized(h, ls, leaves, e);
      } else {
        assert e in leaves;
      }
    }
  }

  /**
   * Adding employee i + 2 under manager h[i]: the manager stops being a leaf
   * and the new employee is one.
   */
  lemma LeafStep(h: seq<int>, i: nat, leaves: seq<int>, kept: seq<int>, leaves': seq<int>)
    requires ValidHierarchy(h) && i < |h|
    requires forall x :: x in leaves <==> 2 <= x <= i + 1 && HasNoReport(h, i + 1, x)
    requires forall x :: x in kept <==> x in leaves && x != h[i]
    requires leaves' == kept + [i + 2]
    ensures forall x :: x in leaves' <==> 2 <= x <= i + 2 && HasNoReport(h, i + 2, x)
  {
    forall x
      ensures x in leaves' <==> 2 <= x <= i + 2 && HasNoReport(h, i + 2, x)
    {
      if x == i + 2 {
        assert HasNoReport(h, i + 2, x);
      }
    }
  }

  /** `leaves` is the sorted list of leaves among the first `n` employees. */
  ghost predicate SortedLeaves(h: seq<int>, n: int, leaves: seq<int>)
    requires ValidHierarchy(h) && n <= |h| + 1
  {
    && StrictlyIncreasing(leaves)
    && (forall x :: x in leaves <==> 2 <= x <= n && HasNoReport(h, n, x))
    && (forall j :: 0 <= j < |leaves| ==> leaves[j] <= n)
  }

  /**
   * One round of the first pass of the constructor: employee `index + 2`
   * joins under its manager, which is bisected out of the sorted leaves if
   * it was one, and the new employee is appended as the largest leaf.
   */
  method AddReport(h: seq<int>, index: int, leaves: seq<int>) returns (leaves': seq<int>)
    requires ValidHierarchy(h) && 0 <= index < |h|
    requires SortedLeaves(h, index + 1, leaves)
    ensures SortedLeaves(h, index + 2, leaves')
  {
    var employeeNumber := index + 2;
    var managerNumber := h[index];
    var kept := leaves;
    var managerIndex := BisectLeft(leaves, managerNumber);
    BisectFinds(leaves, managerNumber, managerIndex);
    if managerIndex != |leaves| && leaves[managerIndex] == managerNumber {
      RemoveKeepsIncreasing(leaves, managerIndex);
      kept := leaves[..managerIndex] + leaves[managerIndex + 1..];
    }
    LeafStep(h, index, leaves, kept, kept + [employeeNumber]);
    leaves' := kept + [employeeNumber];
  }

  /**
   * Giving employee `e` (whose reports other than `except` have their
   * managers summarised) the summary of its line, if it has none, keeps
   * every summary exact and every earlier one unchanged, adds no summary
   * but that of `e`, and leaves only `e` possibly missing its manager's
   * summary.
   */
  lemma PopulatedStaysExact(h: seq<int>, interval: nat, ls: seq<Option<Summary>>, ls': seq<Option<Summary>>, e: int, except: int)
    requires ValidHierarchy(h) && IsEmployee(h, e) && |ls| == |h| + 1 && interval >= 1
    requires SummariesExact(h, interval, ls) && UpwardClosedExcept(h, ls, except)
    requires except != 0 ==> 2 <= except <= |h| + 1 && Manager(h, except) == e
    requires ls' == if ls[e - 1].None? then ls[e - 1 := Some(SummaryOf(FullLine(h, e), interval))] else ls
    ensures SummariesExact(h, interval, ls')
    ensures UpwardClosedExcept(h, ls', if ls[e - 1].None? then e else 0)
    ensures HasSummary(ls', e) && KeepsSummaries(ls', ls) && OnlyAdded(ls', ls, e)
  {
    var stored := ls[e - 1].None?;
    forall x | HasSummary(ls', x) && IsEmployee(h, x)
      ensures ls'[x - 1].value == SummaryOf(FullLine(h, x), interval)
    {
      if x != e || !stored {
        assert ls'[x - 1] == ls[x - 1];
      }
    }
    forall x | HasSummary(ls, x)
      ensures HasSummary(ls', x) && ls'[x - 1] == ls[x - 1]
    {
      assert x != e || !stored;
    }
    PopulatedStaysClosed(h, ls, ls', e, except, Some(SummaryOf(FullLine(h, e), interval)));
  }

  /**
   * Giving `e` a summary, if it has none, leaves only `e` possibly missing
   * its manager's summary, when before that only `except`, a report of `e`,
   * could.
   */
  lemma PopulatedStaysClosed(h: seq<int>, ls: seq<Option<Summary>>, ls': seq<Option<Summary>>, e: int, except: int,
                             entry: Option<Summary>)
    requires ValidHierarchy(h) && IsEmployee(h, e) && |ls| == |h| + 1 && entry.Some?
    requires UpwardClosedExcept(h, ls, except)
    requires except != 0 ==> 2 <= except <= |h| + 1 && Manager(h, except) == e
    requires ls' == if ls[e - 1].None? then ls[e - 1 := entry] else ls
    ensures UpwardClosedExcept(h, ls', if ls[e - 1].None? then e else 0)
  {
    var stored := ls[e - 1].None?;
    forall i | 0 <= i < |h| && i + 2 != (if stored then e else 0) && HasSummary(ls', i + 2)
      ensures HasSummary(ls', h[i])
    {
      if i + 2 == except {
        assert Manager(h, except) == h[i] == e;
      } else if i + 2 != e || !stored {
        assert HasSummary(ls, i + 2);
      }
    }
  }

  /**
   * The end of a management-line query: climb from `start` one manager at a
   * time, for at most `steps` steps, looking for `m`.
   */
  method WalkUp(h: seq<int>, m: int, start: int, steps: int) returns (r: bool)
    requires ValidHierarchy(h) && IsEmployee(h, start) && steps >= 0 && m != start
    ensures r == ManagesWithin(h, m, start, steps)
  {
    var managee, distance := start, steps;
    while distance > 0
      invariant IsEmployee(h, managee) && distance >= 0 && m != managee
      invariant ManagesWithin(h, m, start, steps) == ManagesWithin(h, m, managee, distance)
      decreases distance
    {
      var nextManager := ManagerOf(h, managee);
      if nextManager.None? {
        return false;
      }
      if m > nextManager.value {
        if ManagesWithin(h, m, nextManager.value, distance - 1) {
          ManagesWithinBound(h, m, nextManager.value, distance - 1);
        }
        return false;
      }
      if nextManager.value == m {
        return true;
      }
      managee := nextManager.value;
      distance := distance - 1;
    }
    return false;
  }

  /**
   * The entries of `xs`, a list kept in step with the queued readers `ps`,
   * whose reader a memo does not reach, in queue order. With `xs == ps` these
   * are the readers themselves; with the multipliers, their multipliers.
   */
  ghost function Unreached(h: seq<int>, memo: Event, ps: seq<int>, xs: seq<int>): seq<int>
    requires ValidHierarchy(h) && AllEmployees(h, ps) && |xs| == |ps|
  {
    if ps == [] then []
    else (if Reaches(h, memo, ps[0]) then [] else [xs[0]]) + Unreached(h, memo, ps[1..], xs[1..])
  }

  /** A reader stays exactly when it was queued and the memo misses it. */
  lemma {:induction false} UnreachedMembers(h: seq<int>, memo: Event, ps: seq<int>)
    requires ValidHierarchy(h) && AllEmployees(h, ps)
    ensures forall x :: x in Unreached(h, memo, ps, ps) <==> x in ps && !Reaches(h, memo, x)
  {
    if ps != [] {
      UnreachedMembers(h, memo, ps[1..]);
      assert forall x :: x in ps <==> x == ps[0] || x in ps[1..];
    }
  }

  /** Entries in front of the first `k`, none of whose readers is reached, all stay. */
  lemma {:induction false} UnreachedKeepsFront(h: seq<int>, memo: Event, ps: seq<int>, xs: seq<int>, k: nat)
    requires ValidHierarchy(h) && AllEmployees(h, ps) && |xs| == |ps| && k <= |ps|
    requires forall i {:trigger Reaches(h, memo, ps[i])} :: 0 <= i < k ==> !Reaches(h, memo, ps[i])
    ensures Unreached(h, memo, ps, xs) == xs[..k] + Unreached(h, memo, ps[k..], xs[k..])
  {
    if k > 0 {
      var tail, xtail := ps[1..], xs[1..];
      assert forall i :: 0 <= i < |tail| ==> tail[i] == ps[i + 1];
      UnreachedKeepsFront(h, memo, tail, xtail, k - 1);
      assert tail[k - 1..] == ps[k..] && xtail[k - 1..] == xs[k..];
      assert [xs[0]] + xtail[..k - 1] == xs[..k];
      calc {
        Unreached(h, memo, ps, xs);
        [xs[0]] + Unreached(h, memo, tail, xtail);
        [xs[0]] + (xtail[..k - 1] + Unreached(h, memo, tail[k - 1..], xtail[k - 1..]));
        ([xs[0]] + xtail[..k - 1]) + Unreached(h, memo, tail[k - 1..], xtail[k - 1..]);
        xs[..k] + Unreached(h, memo, ps[k..], xs[k..]);
      }
    } else {
      assert xs[..k] == [] && ps[k..] == ps && xs[k..] == xs;
    }
  }

  /**
   * DeliverMemo's scan of a list `xs` kept in step with the readers, with
   * the entries after `idx` settled: those up to `idx` are as queued
   * (`xs0`), those after are the queued ones whose reader the memo misses.
   */
  ghost predicate ScanPrefix(h: seq<int>, memo: Event, ps0: seq<int>, xs0: seq<int>, xs: seq<int>, idx: int)
    requires ValidHierarchy(h) && AllEmployees(h, ps0) && |xs0| == |ps0|
  {
    -1 <= idx < |xs| && idx < |xs0| && xs[..idx + 1] == xs0[..idx + 1]
    && xs[idx + 1..] == Unreached(h, memo, ps0[idx + 1..], xs0[idx + 1..])
  }

  /** Settling the entry at `idx` extends the settled part by one. */
  lemma ScanStepKept(h: seq<int>, memo: Event, ps0: seq<int>, xs0: seq<int>, xs: seq<int>, xs': seq<int>, idx: int)
    requires ValidHierarchy(h) && AllEmployees(h, ps0) && |xs0| == |ps0|
    requires ScanPrefix(h, memo, ps0, xs0, xs, idx) && idx >= 0
    requires if Reaches(h, memo, ps0[idx]) then xs' == xs[..idx] + xs[idx + 1..] else xs' == xs
    ensures ScanPrefix(h, memo, ps0, xs0, xs', idx - 1)
  {
    assert xs[idx] == xs[..idx + 1][idx] == xs0[idx];
    assert ps0[idx..][1..] == ps0[idx + 1..] && xs0[idx..][1..] == xs0[idx + 1..];
    assert xs[..idx] == xs[..idx + 1][..idx];
    assert xs0[..idx] == xs0[..idx + 1][..idx];
    if !Reaches(h, memo, ps0[idx]) {
      assert xs[idx..] == [xs[idx]] + xs[idx + 1..];
    } else {
      assert xs'[idx..] == xs[idx + 1..];
    }
  }

  /** The scan ends with the list holding exactly the entries of the readers the memo misses. */
  lemma ScanStopped(h: seq<int>, memo: Event, ps0: seq<int>, xs0: seq<int>, xs: seq<int>, idx: int)
    requires ValidHierarchy(h) && AllEmployees(h, ps0) && |xs0| == |ps0|
    requires ScanPrefix(h, memo, ps0, xs0, xs, idx)
    requires forall i {:trigger Reaches(h, memo, ps0[i])} :: 0 <= i <= idx ==> !Reaches(h, memo, ps0[i])
    ensures xs == Unreached(h, memo, ps0, xs0)
  {
    UnreachedKeepsFront(h, memo, ps0, xs0, idx + 1);
    assert xs[..idx + 1] == xs0[..idx + 1] && xs[idx + 1..] == Unreached(h, memo, ps0[idx + 1..], xs0[idx + 1..]);
    assert xs == xs[..idx + 1] + xs[idx + 1..];
  }

  class DeepCompany {
    /** The gap between sampled managers in a line summary. */
    const interval: nat
    const numEmployees: nat
    /** hierarchy[i] is the manager of employee i + 2. */
    const hierarchy: seq<int>
    /** lineSummaries[e - 1] is the summary of employee e, once given. */
    var lineSummaries: seq<Option<Summary>>

    ghost predicate Valid()
      reads this
    {
      && ValidHierarchy(hierarchy) && numEmployees == |hierarchy| + 1 && interval >= 1
      && |lineSummaries| == numEmployees
      && HasSummary(lineSummaries, 1)
      && SummariesValid(hierarchy, lineSummaries)
      && UpwardClosed(hierarchy, lineSummaries)
      && Covered(hierarchy, lineSummaries)
    }

    /**
     * Builds the company: records each employee's manager while keeping the
     * sorted list of leaves, then summarises every leaf whose manager has no
     * summary yet and walks up its line summarising managers until one
     * already has a summary. The root is summarised first, with an empty line.
     */
    constructor (interval: nat, numEmployees: nat, hierarchySpec: seq<int>)
      requires interval >= 1 && ValidHierarchy(hierarchySpec) && numEmployees == |hierarchySpec| + 1
      ensures Valid() && SummariesExact(hierarchy, interval, lineSummaries)
      ensures this.interval == interval && this.numEmployees == numEmployees && hierarchy == hierarchySpec
    {
      this.interval := interval;
      this.numEmployees := numEmployees;
      hierarchy := hierarchySpec;
      lineSummaries := [None];
      new;
      var _ := PopulateLineSummary(1, []);

      var sortedLeaves: seq<int> := [];
      var index := 0;
      while index < |hierarchySpec|
        invariant 0 <= index <= |hierarchySpec| && |lineSummaries| == index + 1
        invariant lineSummaries[0] == Some(SummaryOf([], interval))
        invariant forall i :: 1 <= i < |lineSummaries| ==> lineSummaries[i].None?
        invariant SortedLeaves(hierarchy, index + 1, sortedLeaves)
      {
        lineSummaries := lineSummaries + [None];
        sortedLeaves := AddReport(hierarchy, index, sortedLeaves);
        index := index + 1;
      }
      assert forall j :: 0 <= j < |sortedLeaves| ==> sortedLeaves[j] in sortedLeaves;
      assert FullLine(hierarchy, 1) == [];
      SummariseLeaves(sortedLeaves);
      LeavesCover(hierarchy, lineSummaries, sortedLeaves);
      ExactSummariesValid(hierarchy, interval, lineSummaries);
    }

    /**
     * The second pass of the constructor: each leaf in turn is summarised,
     * with its managers, unless its manager already has a summary. Earlier
     * summaries are never overwritten.
     */
    method SummariseLeaves(leaves: seq<int>)
      requires ValidHierarchy(hierarchy) && |lineSummaries| == numEmployees == |hierarchy| + 1 && interval >= 1
      requires forall j :: 0 <= j < |leaves| ==> 2 <= leaves[j] <= numEmployees
      requires HasSummary(lineSummaries, 1)
      requires SummariesExact(hierarchy, interval, lineSummaries) && UpwardClosed(hierarchy, lineSummaries)
      modifies this
      ensures |lineSummaries| == numEmployees && HasSummary(lineSummaries, 1)
      ensures SummariesExact(hierarchy, interval, lineSummaries) && UpwardClosed(hierarchy, lineSummaries)
      ensures forall x :: x in leaves ==> HasSummary(lineSummaries, x) || HasSummary(lineSummaries, Manager(hierarchy, x))
      ensures KeepsSummaries(lineSummaries, old(lineSummaries))
    {
      for k := 0 to |leaves|
        invariant |lineSummaries| == numEmployees && HasSummary(lineSummaries, 1)
        invariant SummariesExact(hierarchy, interval, lineSummaries) && UpwardClosed(hierarchy, lineSummaries)
        invariant forall j :: 0 <= j < k ==>
          HasSummary(lineSummaries, leaves[j]) || HasSummary(lineSummaries, Manager(hierarchy, leaves[j]))
        invariant KeepsSummaries(lineSummaries, old(lineSummaries))
      {
        ghost var ls1 := lineSummaries;
        SummariseFromLeaf(leaves[k]);
        KeepsSummariesTrans(lineSummaries, ls1, old(lineSummaries));
        forall j | 0 <= j <= k
          ensures HasSummary(lineSummaries, leaves[j]) || HasSummary(lineSummaries, Manager(hierarchy, leaves[j]))
        {
          if j == k {
          } else if HasSummary(ls1, leaves[j]) {
            assert HasSummary(lineSummaries, leaves[j]);
          } else {
            assert HasSummary(ls1, Manager(hierarchy, leaves[j]));
          }
        }
      }
    }

    /**
     * One round of the second pass of the constructor: summarise `leaf` (unless
     * its manager already has a summary) and then its managers, going up the
     * line, until one is found that already has a summary.
     */
    method SummariseFromLeaf(leaf: int)
      requires ValidHierarchy(hierarchy) && |lineSummaries| == numEmployees == |hierarchy| + 1 && interval >= 1
      requires 2 <= leaf <= numEmployees
      requires HasSummary(lineSummaries, 1)
      requires SummariesExact(hierarchy, interval, lineSummaries) && UpwardClosed(hierarchy, lineSummaries)
      modifies this
      ensures |lineSummaries| == numEmployees && HasSummary(lineSummaries, 1)
      ensures SummariesExact(hierarchy, interval, lineSummaries) && UpwardClosed(hierarchy, lineSummaries)
      ensures HasSummary(lineSummaries, leaf) || HasSummary(lineSummaries, Manager(hierarchy, leaf))
      ensures KeepsSummaries(lineSummaries, old(lineSummaries))
    {
      var fullLine := BuildLineSummary(leaf);
      if fullLine.None? {
        return;
      }
      PopulatedStaysExact(hierarchy, interval, old(lineSummaries), lineSummaries, leaf, 0);
      var line := PopManager(hierarchy, leaf, fullLine.value);
      SummariseManagers(leaf, line, if old(lineSummaries)[leaf - 1].None? then leaf else 0);
    }

    /**
     * The walk up the line of the second pass: starting with the manager of
     * `child`, gives each manager the summary of its line (`line` holds the
     * line of the first one) until one is found that already has a summary.
     */
    method SummariseManagers(child: int, line: seq<int>, ghost pending: int)
      requires ValidHierarchy(hierarchy) && |lineSummaries| == numEmployees == |hierarchy| + 1 && interval >= 1
      requires 2 <= child <= numEmployees && line == FullLine(hierarchy, Manager(hierarchy, child))
      requires HasSummary(lineSummaries, 1) && (pending == 0 || pending == child)
      requires SummariesExact(hierarchy, interval, lineSummaries) && UpwardClosedExcept(hierarchy, lineSummaries, pending)
      modifies this
      ensures |lineSummaries| == numEmployees && HasSummary(lineSummaries, 1)
      ensures SummariesExact(hierarchy, interval, lineSummaries) && UpwardClosed(hierarchy, lineSummaries)
      ensures HasSummary(lineSummaries, Manager(hierarchy, child))
      ensures KeepsSummaries(lineSummaries, old(lineSummaries))
    {
      ghost var ls0 := lineSummaries;
      ghost var below := child;
      var manager := Manager(hierarchy, child);
      var managerLine := line;
      var stored := StoreManagerSummary(manager, managerLine, pending);
      ghost var first := manager;
      while stored
        invariant Climbing(ls0, first, manager, below, managerLine, stored)
        decreases manager
      {
        manager, below, managerLine, stored := ClimbStep(ls0, first, manager, below, managerLine);
      }
    }

    /**
     * The walk up the line in SummariseManagers: `manager` (the manager of
     * `below`) has just been looked at, `managerLine` is its line, and
     * `stored` says whether it was summarised just now, so that its own
     * manager may still lack a summary.
     */
    ghost predicate Climbing(ls0: seq<Option<Summary>>, first: int, manager: int, below: int,
                             managerLine: seq<int>, stored: bool)
      reads this
    {
      && ValidHierarchy(hierarchy) && |lineSummaries| == numEmployees == |hierarchy| + 1 && interval >= 1
      && 1 <= manager <= numEmployees && (stored ==> manager >= 2)
      && 2 <= below <= numEmployees && Manager(hierarchy, below) == manager
      && managerLine == FullLine(hierarchy, manager)
      && HasSummary(lineSummaries, 1) && HasSummary(lineSummaries, manager) && HasSummary(lineSummaries, first)
      && SummariesExact(hierarchy, interval, lineSummaries)
      && UpwardClosedExcept(hierarchy, lineSummaries, if stored then manager else 0)
      && KeepsSummaries(lineSummaries, ls0)
    }

    /** One round of the walk: move to the next manager up and summarise it unless it already is. */
    method ClimbStep(ghost ls0: seq<Option<Summary>>, ghost first: int, manager: int, ghost below: int,
                     managerLine: seq<int>)
      returns (manager': int, ghost below': int, managerLine': seq<int>, stored: bool)
      requires Climbing(ls0, first, manager, below, managerLine, true)
      modifies this
      ensures Climbing(ls0, first, manager', below', managerLine', stored)
      ensures manager' == Manager(hierarchy, manager) && stored == old(lineSummaries)[manager' - 1].None?
      ensures KeepsSummaries(lineSummaries, old(lineSummaries)) && OnlyAdded(lineSummaries, old(lineSummaries), manager')
    {
      below' := manager;
      manager' := Manager(hierarchy, manager);
      managerLine' := PopManager(hierarchy, manager, managerLine);
      ghost var ls1 := lineSummaries;
      assert manager' == 1 ==> ls1[manager' - 1].Some?;
      stored := StoreManagerSummary(manager', managerLine', below');
      KeepsSummariesTrans(lineSummaries, ls1, ls0);
    }

    /**
     * One step up the line: gives employee `e` the summary of its line `line`
     * unless it already has one. The only summarised employee that may lack
     * a summarised manager is then `e`, if it was just summarised.
     */
    method StoreManagerSummary(e: int, line: seq<int>, ghost except: int) returns (stored: bool)
      requires ValidHierarchy(hierarchy) && |lineSummaries| == |hierarchy| + 1 && interval >= 1
      requires IsEmployee(hierarchy, e) && line == FullLine(hierarchy, e)
      requires SummariesExact(hierarchy, interval, lineSummaries) && UpwardClosedExcept(hierarchy, lineSummaries, except)
      requires except != 0 ==> 2 <= except <= |hierarchy| + 1 && Manager(hierarchy, except) == e
      modifies this
      ensures stored == old(lineSummaries)[e - 1].None?
      ensures |lineSummaries| == |old(lineSummaries)|
      ensures SummariesExact(hierarchy, interval, lineSummaries)
      ensures UpwardClosedExcept(hierarchy, lineSummaries, if stored then e else 0)
      ensures HasSummary(lineSummaries, e) && KeepsSummaries(lineSummaries, old(lineSummaries))
      ensures OnlyAdded(lineSummaries, old(lineSummaries), e)
    {
      stored := PopulateLineSummary(e, line);
      PopulatedStaysExact(hierarchy, interval, old(lineSummaries), lineSummaries, e, except);
    }

    /**
     * Stores the summary of `fullLine` for employee `e` unless `e` already has
     * one; summaries are written once.
     */
    method PopulateLineSummary(e: int, fullLine: seq<int>) returns (stored: bool)
      requires 1 <= e <= |lineSummaries| && interval >= 1
      modifies this
      ensures stored == old(lineSummaries[e - 1]).None?
      ensures lineSummaries ==
        if stored then old(lineSummaries)[e - 1 := Some(SummaryOf(fullLine, interval))] else old(lineSummaries)
    {
      if lineSummaries[e - 1].Some? {
        return false;
      }
      var numEntries := (|fullLine| as real) / (interval as real);
      TrueQuotientAtMostOne(|fullLine|, interval);
      if numEntries <= 1.0 {
        lineSummaries := lineSummaries[e - 1 := Some(Summary([], []))];
      } else {
        var employeeNumbers: seq<int>, distance: seq<int> := [], [];
        var index: nat := 0;
        while index < |fullLine|
          invariant employeeNumbers + SampleNumbers(fullLine, interval, index) == SampleNumbers(fullLine, interval, 0)
          invariant distance + SampleDistances(fullLine, interval, index) == SampleDistances(fullLine, interval, 0)
          decreases |fullLine| - index
        {
          employeeNumbers := employeeNumbers + [fullLine[index]];
          distance := distance + [|fullLine| - index];
          index := index + interval;
        }
        assert employeeNumbers == employeeNumbers + SampleNumbers(fullLine, interval, index);
        assert distance == distance + SampleDistances(fullLine, interval, index);
        lineSummaries := lineSummaries[e - 1 := Some(Summary(employeeNumbers, distance))];
      }
      return true;
    }

    /** The management line of `e`, from the root down to its manager. */
    method BuildFullLine(e: int) returns (fullLine: seq<int>)
      requires ValidHierarchy(hierarchy) && 2 <= e <= |hierarchy| + 1
      ensures fullLine == FullLine(hierarchy, e)
      ensures fullLine[0] == 1
    {
      var line: seq<int> := [];
      var manager := ManagerOf(hierarchy, e);
      while manager.Some?
        invariant manager.Some? ==> IsEmployee(hierarchy, manager.value)
        invariant FullLine(hierarchy, e) ==
          (if manager.Some? then FullLine(hierarchy, manager.value) + [manager.value] else []) + Reversed(line)
        decreases if manager.Some? then manager.value else 0
      {
        var m := manager.value;
        assert Reversed(line + [m]) == [m] + Reversed(line) by {
          assert (line + [m])[..|line|] == line;
        }
        line := line + [m];
        manager := ManagerOf(hierarchy, m);
      }
      fullLine := Reversed(line);
      FullLineIsAncestors(hierarchy, e);
    }

    /**
     * Summarises leaf `e` from its full management line, unless its manager
     * already has a summary, in which case nothing is built and the leaf is
     * left to defer to its manager.
     */
    method BuildLineSummary(e: int) returns (fullLine: Option<seq<int>>)
      requires ValidHierarchy(hierarchy) && 2 <= e <= |hierarchy| + 1
      requires |lineSummaries| == |hierarchy| + 1 && interval >= 1
      modifies this
      ensures HasSummary(old(lineSummaries), Manager(hierarchy, e)) ==> fullLine.None? && lineSummaries == old(lineSummaries)
      ensures !HasSummary(old(lineSummaries), Manager(hierarchy, e)) ==>
        && fullLine == Some(FullLine(hierarchy, e))
        && lineSummaries == if HasSummary(old(lineSummaries), e) then old(lineSummaries)
           else old(lineSummaries)[e - 1 := Some(SummaryOf(FullLine(hierarchy, e), interval))]
    {
      if lineSummaries[Manager(hierarchy, e) - 1].Some? {
        return None;
      }
      var line := BuildFullLine(e);
      var _ := PopulateLineSummary(e, line);
      return Some(line);
    }

    /**
     * Processes the events from last to first and returns the sum of
     * multiplier times tie over the reads. A read joins the queue of pending
     * reads; a memo settles the pending reads it reaches; the reads still
     * pending at the start read the initial tie 1.
     */
    method ProcessEventQueue(eventQueue: EventList) returns (total: int)
      requires Valid() && ValidEvents(hierarchy, eventQueue.items)
      modifies eventQueue
      ensures eventQueue.items == []
      ensures total == ExpectedTotal(hierarchy, old(eventQueue.items))
    {
      ghost var events := eventQueue.items;
      total := 0;
      var readQueue := new ReadEventQueue();
      while |eventQueue.items| > 0
        invariant readQueue.Valid() && AllEmployees(hierarchy, readQueue.personNumbers)
        invariant eventQueue.items == events[..|eventQueue.items|]
        invariant ValidEvents(hierarchy, eventQueue.items)
        invariant total + Weighted(readQueue.personNumbers, readQueue.multipliers, Ties(hierarchy, eventQueue.items))
          + ExpectedTotal(hierarchy, eventQueue.items) == ExpectedTotal(hierarchy, events)
        decreases |eventQueue.items|
      {
        ghost var later := eventQueue.items;
        var nextEvent := eventQueue.Pop();
        ghost var earlier := eventQueue.items;
        assert later == earlier + [nextEvent];
        assert ValidEvent(hierarchy, later[|later| - 1]);
        if nextEvent.Read? {
          QueueRead(nextEvent, readQueue, earlier);
        } else {
          var gained := DeliverMemo(nextEvent, readQueue, earlier);
          total := total + gained;
        }
      }

      // Any reads still pending read the initial tie 1.
      var idx := readQueue.Length() - 1;
      assert readQueue.personNumbers[..idx + 1] == readQueue.personNumbers;
      assert readQueue.multipliers[..idx + 1] == readQueue.multipliers;
      while idx >= 0
        invariant eventQueue.items == []
        invariant readQueue.Valid() && -1 <= idx < |readQueue.personNumbers|
        invariant total + Weighted(readQueue.personNumbers[..idx + 1], readQueue.multipliers[..idx + 1], Ties(hierarchy, []))
          == ExpectedTotal(hierarchy, events)
        decreases idx
      {
        WeightedLast(readQueue.personNumbers, readQueue.multipliers, idx, Ties(hierarchy, []));
        total := total + 1 * readQueue.Get(idx).multiplier;
        idx := idx - 1;
      }
    }

    /**
     * The read branch of ProcessEventQueue: the read joins the queue of
     * pending reads, which then contributes, at the ties before the read,
     * what it contributed at the ties after it plus the read's own share.
     */
    method QueueRead(readEvent: Event, readQueue: ReadEventQueue, ghost earlier: seq<Event>)
      requires ValidHierarchy(hierarchy) && readEvent.Read? && ValidEvent(hierarchy, readEvent)
      requires readQueue.Valid() && AllEmployees(hierarchy, readQueue.personNumbers)
      modifies readQueue
      ensures readQueue.Valid() && AllEmployees(hierarchy, readQueue.personNumbers)
      ensures Weighted(readQueue.personNumbers, readQueue.multipliers, Ties(hierarchy, earlier))
        == old(Weighted(readQueue.personNumbers, readQueue.multipliers, Ties(hierarchy, earlier + [readEvent])))
          + readEvent.multiplier * Ties(hierarchy, earlier)(readEvent.personNumber)
      ensures exists k :: AddedAt(old(readQueue.personNumbers), old(readQueue.multipliers), readEvent, k,
        readQueue.personNumbers, readQueue.multipliers)
    {
      ghost var ps, ms := readQueue.personNumbers, readQueue.multipliers;
      readQueue.AddEvent(readEvent);
      ghost var k :| AddedAt(ps, ms, readEvent, k, readQueue.personNumbers, readQueue.multipliers);
      AddedAtWeight(ps, ms, readEvent, k, readQueue.personNumbers, readQueue.multipliers, Ties(hierarchy, earlier));
      TiesAfterRead(hierarchy, earlier, readEvent, ps);
      WeightedAgree(ps, ms, Ties(hierarchy, earlier + [readEvent]), Ties(hierarchy, earlier));
    }

    /**
     * The memo branch of ProcessEventQueue: scanning the pending reads from
     * the highest person down, each one the memo reaches reads the memo's tie
     * and leaves the queue; the scan stops at the first person numbered below
     * the memo's origin, whom no memo from there can reach. What the queue
     * would still contribute at the ties before the memo, plus what was
     * gained, is what it contributed at the ties after it.
     */
    method DeliverMemo(memo: Event, readQueue: ReadEventQueue, ghost earlier: seq<Event>) returns (gained: int)
      requires Valid() && memo.Memo? && ValidEvent(hierarchy, memo)
      requires readQueue.Valid() && AllEmployees(hierarchy, readQueue.personNumbers)
      modifies readQueue
      ensures readQueue.Valid() && AllEmployees(hierarchy, readQueue.personNumbers)
      ensures gained + Weighted(readQueue.personNumbers, readQueue.multipliers, Ties(hierarchy, earlier))
        == old(Weighted(readQueue.personNumbers, readQueue.multipliers, Ties(hierarchy, earlier + [memo])))
      ensures readQueue.personNumbers
        == Unreached(hierarchy, memo, old(readQueue.personNumbers), old(readQueue.personNumbers))
      ensures readQueue.multipliers
        == Unreached(hierarchy, memo, old(readQueue.personNumbers), old(readQueue.multipliers))
    {
      ghost var later := earlier + [memo];
      ghost var ps0, ms0 := readQueue.personNumbers, readQueue.multipliers;
      gained := 0;
      var idx := readQueue.Length() - 1;
      assert readQueue.personNumbers[..idx + 1] == readQueue.personNumbers;
      assert readQueue.multipliers[..idx + 1] == readQueue.multipliers;
      while idx >= 0
        invariant readQueue.Valid() && AllEmployees(hierarchy, readQueue.personNumbers)
        invariant -1 <= idx < |readQueue.personNumbers|
        invariant gained
          + Weighted(readQueue.personNumbers[..idx + 1], readQueue.multipliers[..idx + 1], Ties(hierarchy, later))
          + Weighted(readQueue.personNumbers[idx + 1..], readQueue.multipliers[idx + 1..], Ties(hierarchy, earlier))
          == old(Weighted(readQueue.personNumbers, readQueue.multipliers, Ties(hierarchy, later)))
        invariant ScanPrefix(hierarchy, memo, ps0, ps0, readQueue.personNumbers, idx)
        invariant ScanPrefix(hierarchy, memo, ps0, ms0, readQueue.multipliers, idx)
        decreases idx
      {
        var readEvent := readQueue.Get(idx);
        ghost var ps, ms := readQueue.personNumbers, readQueue.multipliers;
        if memo.personNumber > readEvent.personNumber {
          ghost var below := ps[..idx + 1];
          forall i | 0 <= i < |below|
            ensures below[i] < memo.personNumber
          {
            assert below[i] == ps[i] <= ps[idx];
          }
          TiesAfterMemoAbove(hierarchy, earlier, memo, below);
          StoppedScan(ps, ms, idx, below, Ties(hierarchy, later), Ties(hierarchy, earlier));
          forall i | 0 <= i <= idx
            ensures !Reaches(hierarchy, memo, ps0[i])
          {
            assert below[i] == ps0[i] && ps0[i] in ps0;
            if Reaches(hierarchy, memo, ps0[i]) {
              ManagesWithinBound(hierarchy, memo.personNumber, ps0[i], memo.importance);
            }
          }
          ScanStopped(hierarchy, memo, ps0, ps0, ps, idx);
          ScanStopped(hierarchy, memo, ps0, ms0, ms, idx);
          break;
        }
        assert ps[idx] == ps[..idx + 1][idx] == ps0[idx];
        var gain := SettleIfReached(memo, readQueue, idx, earlier);
        gained := gained + gain;
        ScanStepKept(hierarchy, memo, ps0, ps0, ps, readQueue.personNumbers, idx);
        ScanStepKept(hierarchy, memo, ps0, ms0, ms, readQueue.multipliers, idx);
        idx := idx - 1;
      }
      if idx < 0 {
        StoppedScan(readQueue.personNumbers, readQueue.multipliers, idx, [], Ties(hierarchy, later), Ties(hierarchy, earlier));
        ScanStopped(hierarchy, memo, ps0, ps0, readQueue.personNumbers, idx);
        ScanStopped(hierarchy, memo, ps0, ms0, readQueue.multipliers, idx);
      }
    }

    /**
     * One step of the scan in DeliverMemo, at a pending read whose person is
     * numbered at least the memo's origin: if the memo reaches the reader,
     * the read gains the memo's tie and leaves the queue; otherwise the
     * queue is left as it is. Either way the queue's weight, with the
     * entries before `idx` at the ties after the memo and the rest at the
     * ties before it, is unchanged once the gain is added.
     */
    method SettleIfReached(memo: Event, readQueue: ReadEventQueue, idx: int, ghost earlier: seq<Event>)
      returns (gain: int)
      requires Valid() && memo.Memo? && ValidEvent(hierarchy, memo)
      requires readQueue.Valid() && AllEmployees(hierarchy, readQueue.personNumbers)
      requires 0 <= idx < |readQueue.personNumbers| && memo.personNumber <= readQueue.personNumbers[idx]
      modifies readQueue
      ensures readQueue.Valid() && AllEmployees(hierarchy, readQueue.personNumbers)
      ensures old(readQueue.personNumbers[idx]) in old(readQueue.personNumbers)
      ensures Reaches(hierarchy, memo, old(readQueue.personNumbers[idx])) ==>
        && readQueue.personNumbers == old(readQueue.personNumbers[..idx] + readQueue.personNumbers[idx + 1..])
        && readQueue.multipliers == old(readQueue.multipliers[..idx] + readQueue.multipliers[idx + 1..])
        && gain == memo.tie * old(readQueue.multipliers[idx])
      ensures !Reaches(hierarchy, memo, old(readQueue.personNumbers[idx])) ==>
        && readQueue.personNumbers == old(readQueue.personNumbers)
        && readQueue.multipliers == old(readQueue.multipliers)
        && gain == 0
      ensures gain
        + Weighted(readQueue.personNumbers[..idx], readQueue.multipliers[..idx], Ties(hierarchy, earlier + [memo]))
        + Weighted(readQueue.personNumbers[idx..], readQueue.multipliers[idx..], Ties(hierarchy, earlier))
        == old(Weighted(readQueue.personNumbers[..idx + 1], readQueue.multipliers[..idx + 1], Ties(hierarchy, earlier + [memo]))
          + Weighted(readQueue.personNumbers[idx + 1..], readQueue.multipliers[idx + 1..], Ties(hierarchy, earlier)))
    {
      ghost var later := earlier + [memo];
      ghost var ps, ms := readQueue.personNumbers, readQueue.multipliers;
      var readEvent := readQueue.Get(idx);
      assert ps[idx] in ps;
      var reached := InManagementLine(readEvent.personNumber, memo.personNumber, memo.importance);
      TieAfterMemo(hierarchy, earlier, memo, ps[idx]);
      if reached {
        SettledStep(ps, ms, idx, memo.tie, Ties(hierarchy, later), Ties(hierarchy, earlier));
        gain := memo.tie * readEvent.multiplier;
        readQueue.Pop(idx);
      } else {
        KeptStep(ps, ms, idx, Ties(hierarchy, later), Ties(hierarchy, earlier));
        gain := 0;
      }
    }

    /**
     * Whether `m` manages `e` within `maxDistance` hops (or is `e`). The walk
     * up the line starts from the summary of `e`, or of its manager when `e`
     * has none, jumping to the nearest sampled manager at or above `m`.
     */
    method InManagementLine(e: int, m: int, maxDistance: int) returns (r: bool)
      requires Valid() && IsEmployee(hierarchy, e) && maxDistance >= 0
      ensures r == ManagesWithin(hierarchy, m, e, maxDistance)
    {
      if m > e {
        if ManagesWithin(hierarchy, m, e, maxDistance) {
          ManagesWithinBound(hierarchy, m, e, maxDistance);
        }
        return false;
      }
      if m == e {
        return true;
      }
      if maxDistance == 0 {
        return false;
      }

      var managee, distance := e, maxDistance;
      if lineSummaries[managee - 1].None? {
        managee := Manager(hierarchy, managee);
        distance := distance - 1;
      }
      assert ManagesWithin(hierarchy, m, e, maxDistance) == ManagesWithin(hierarchy, m, managee, distance);
      var summary := lineSummaries[managee - 1].value;
      assert ValidSummary(hierarchy, managee, summary);
      var startIndex := BisectLeft(summary.employeeNumbers, m);
      if startIndex != |summary.employeeNumbers| {
        var k := summary.distances[startIndex];
        ManagesWithinJump(hierarchy, m, managee, distance, k);
        distance := distance - k;
        if distance < 0 {
          return false;
        }
        managee := summary.employeeNumbers[startIndex];
      }
      if m == managee {
        return true;
      }
      r := WalkUp(hierarchy, m, managee, distance);
    }
  }
}
