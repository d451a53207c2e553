/**
 * The Shallow engine. Events are processed from first to last: a memo is
 * queued without touching anyone, and a read pushes every queued memo that
 * could reach the reader down the hierarchy, one level at a time, setting
 * the tie of each employee it passes, until no queued memo starts at or
 * above the reader's number; the reader's tie is then read off directly.
 *
 * The state after a prefix of the events is the ties applied so far plus
 * the memos still queued; the tie it stands for is that of the latest
 * queued memo reaching an employee, else the applied tie (Effective).
 */
module ShallowCompanyEngine {
  import opened Hierarchy
  import opened Wrappers
  import opened Events
  import opened MemoQueues

  /** Every queued entry is a well-formed memo. */
  predicate ValidMemos(h: seq<int>, items: seq<Event>) {
    forall i :: 0 <= i < |items| ==> items[i].Memo? && ValidEvent(h, items[i])
  }

  /** The tie `x` stands for: that of the latest queued memo reaching it, else the applied one. */
  function Effective(h: seq<int>, ties: seq<int>, items: seq<Event>, x: int): int
    requires ValidHierarchy(h) && |ties| == |h| + 1 && IsEmployee(h, x)
  {
    match LatestReach(h, items, x)
    case Some(tie) => tie
    case None => ties[x - 1]
  }

  /** One memo per report, in report order, one hop less important. */
  function ReportMemos(reports: seq<int>, importance: int, tie: int): seq<Event> {
    seq(|reports|, i requires 0 <= i < |reports| => Memo(reports[i], importance, tie))
  }

  /** What expanding `memo` hands on: nothing at importance 0, else a memo per report. */
  function Expansion(h: seq<int>, memo: Event): (r: seq<Event>)
    requires ValidHierarchy(h) && memo.Memo?
  {
    if memo.importance == 0 then []
    else ReportMemos(Children(h, memo.personNumber, |h| + 1), memo.importance - 1, memo.tie)
  }

  /** Every handed-on memo starts strictly below the expanded one and is well formed. */
  lemma ExpansionValid(h: seq<int>, memo: Event)
    requires ValidHierarchy(h) && memo.Memo? && ValidEvent(h, memo)
    ensures ValidMemos(h, Expansion(h, memo))
    ensures forall i :: 0 <= i < |Expansion(h, memo)| ==> Expansion(h, memo)[i].personNumber > memo.personNumber
  {
    var kids := Expansion(h, memo);
    if memo.importance != 0 {
      ChildrenSpec(h, memo.personNumber, |h| + 1);
    }
  }

  // ---------------------------------------------------------------------
  // Expansion keeps every employee's effective tie
  // ---------------------------------------------------------------------

  /** Memos that all carry the same tie: the latest reaching one gives that tie. */
  lemma {:induction false} UniformLatestReach(h: seq<int>, memos: seq<Event>, tie: int, x: int)
    requires ValidHierarchy(h) && IsEmployee(h, x)
    requires forall i :: 0 <= i < |memos| ==> memos[i].Memo? && memos[i].tie == tie
    ensures LatestReach(h, memos, x) ==
      if exists i :: 0 <= i < |memos| && Reaches(h, memos[i], x) then Some(tie) else None
    decreases |memos|
  {
    if memos != [] {
      var n := |memos| - 1;
      var prefix := memos[..n];
      UniformLatestReach(h, prefix, tie, x);
      if exists i :: 0 <= i < n && Reaches(h, prefix[i], x) {
        var i :| 0 <= i < n && Reaches(h, prefix[i], x);
        assert Reaches(h, memos[i], x);
      }
      if exists i :: 0 <= i < |memos| && Reaches(h, memos[i], x) {
        var i :| 0 <= i < |memos| && Reaches(h, memos[i], x);
        if i < n {
          assert Reaches(h, prefix[i], x);
        }
      }
    }
  }

  /** The expansion reaches exactly what the memo reaches, except its origin. */
  lemma ExpansionReach(h: seq<int>, memo: Event, x: int)
    requires ValidHierarchy(h) && memo.Memo? && ValidEvent(h, memo) && IsEmployee(h, x)
    ensures LatestReach(h, Expansion(h, memo), x) ==
      if x != memo.personNumber && Reaches(h, memo, x) then Some(memo.tie) else None
  {
    var p := memo.personNumber;
    var kids := Expansion(h, memo);
    UniformLatestReach(h, kids, memo.tie, x);
    if memo.importance != 0 {
      var cs := Children(h, p, |h| + 1);
      var d := memo.importance - 1;
      assert |kids| == |cs|;
      ChildrenReach(h, |h| + 1, p, x, d);
      if x != p && Reaches(h, memo, x) {
        var c :| c in cs && ManagesWithin(h, c, x, d);
        var i :| 0 <= i < |cs| && cs[i] == c;
        assert kids[i] == Memo(c, d, memo.tie);
        assert Reaches(h, kids[i], x);
      } else {
        forall i | 0 <= i < |kids|
          ensures !Reaches(h, kids[i], x)
        {
          assert kids[i] == Memo(cs[i], d, memo.tie);
          assert cs[i] in cs;
        }
      }
    } else if Reaches(h, memo, x) {
      assert x == p;
    }
  }

  /**
   * Expanding the memo at `index` (which starts at or above `t`, while every
   * memo before it starts below `t`) applies its tie to its origin and
   * splices in its expansion: no employee's effective tie changes.
   */
  lemma ExpandKeepsEffective(h: seq<int>, ties: seq<int>, items: seq<Event>, index: nat, t: int, x: int)
    requires ValidHierarchy(h) && |ties| == |h| + 1 && ValidMemos(h, items) && index < |items|
    requires forall j :: 0 <= j < index ==> items[j].personNumber > t
    requires items[index].personNumber <= t
    requires IsEmployee(h, x)
    ensures Effective(h, ties[items[index].personNumber - 1 := items[index].tie],
                      Splice(items, index, Expansion(h, items[index])), x)
      == Effective(h, ties, items, x)
  {
    var memo := items[index];
    var p := memo.personNumber;
    var pre, post, kids := items[..index], items[index + 1..], Expansion(h, memo);
    assert items == pre + [memo] + post;
    assert Splice(items, index, kids) == pre + kids + post;
    LatestReachAppend(h, pre + [memo], post, x);
    LatestReachAppend(h, pre + kids, post, x);
    LatestReachAppend(h, pre, [memo], x);
    LatestReachAppend(h, pre, kids, x);
    assert [memo][..0] == [];
    ExpansionReach(h, memo, x);
    if x == p {
      forall j | 0 <= j < |pre|
        ensures pre[j].personNumber > x
      {
        assert pre[j] == items[j];
      }
      LatestReachAbove(h, pre, x);
    }
  }

  // ---------------------------------------------------------------------
  // Termination of the push-down: the employees still to be visited
  // ---------------------------------------------------------------------

  /** The number of employees in the subtree of `p`, `p` included. */
  function SubtreeSize(h: seq<int>, p: int): nat
    requires ValidHierarchy(h) && IsEmployee(h, p)
    decreases |h| + 2 - p, 1
  {
    ChildrenSpec(h, p, |h| + 1);
    1 + SizesOf(h, Children(h, p, |h| + 1), p)
  }

  function SizesOf(h: seq<int>, cs: seq<int>, p: int): nat
    requires ValidHierarchy(h) && IsEmployee(h, p)
    requires forall i :: 0 <= i < |cs| ==> p < cs[i] <= |h| + 1
    decreases |h| + 2 - p, 0, |cs|
  {
    if cs == [] then 0 else SubtreeSize(h, cs[0]) + SizesOf(h, cs[1..], p)
  }

  /** The subtree sizes of the queued memos that start at or above `t`. */
  function Pending(h: seq<int>, items: seq<Event>, t: int): nat
    requires ValidHierarchy(h)
    decreases |items|
  {
    if items == [] then 0
    else
      (if IsEmployee(h, items[0].personNumber) && items[0].personNumber <= t
       then SubtreeSize(h, items[0].personNumber) else 0)
      + Pending(h, items[1..], t)
  }

  lemma {:induction false} PendingAppend(h: seq<int>, a: seq<Event>, b: seq<Event>, t: int)
    requires ValidHierarchy(h)
    ensures Pending(h, a + b, t) == Pending(h, a, t) + Pending(h, b, t)
    decreases |a|
  {
    if a != [] {
      assert (a + b)[1..] == a[1..] + b;
      PendingAppend(h, a[1..], b, t);
    } else {
      assert a + b == b;
    }
  }

  lemma {:induction false} PendingReportMemos(h: seq<int>, cs: seq<int>, p: int, d: int, tie: int, t: int)
    requires ValidHierarchy(h) && IsEmployee(h, p)
    requires forall i :: 0 <= i < |cs| ==> p < cs[i] <= |h| + 1
    ensures Pending(h, ReportMemos(cs, d, tie), t) <= SizesOf(h, cs, p)
    decreases |cs|
  {
    if cs != [] {
      assert ReportMemos(cs, d, tie)[1..] == ReportMemos(cs[1..], d, tie);
      PendingReportMemos(h, cs[1..], p, d, tie, t);
    }
  }

  /** Expanding a memo that starts at or above `t` strictly shrinks what is pending. */
  lemma PendingShrinks(h: seq<int>, items: seq<Event>, index: nat, t: int)
    requires ValidHierarchy(h) && ValidMemos(h, items) && index < |items|
    requires items[index].personNumber <= t
    ensures Pending(h, Splice(items, index, Expansion(h, items[index]))[index..], t) < Pending(h, items[index..], t)
  {
    var memo := items[index];
    var p := memo.personNumber;
    var kids, post := Expansion(h, memo), items[index + 1..];
    assert Splice(items, index, kids)[index..] == kids + post;
    assert items[index..][1..] == post;
    PendingAppend(h, kids, post, t);
    if memo.importance != 0 {
      var cs := Children(h, p, |h| + 1);
      ChildrenSpec(h, p, |h| + 1);
      PendingReportMemos(h, cs, p, memo.importance - 1, memo.tie, t);
    }
  }

  // ---------------------------------------------------------------------
  // The company
  // ---------------------------------------------------------------------

  class ShallowCompany {
    const numEmployees: nat
    /** hierarchy[i] is the manager of employee i + 2; the company keeps only the reports. */
    ghost const hierarchy: seq<int>
    /** reports[e - 1] lists the reports of employee e, in increasing order. */
    var reports: seq<seq<int>>
    /** ties[e - 1] is the tie last applied to employee e. */
    var ties: seq<int>

    ghost predicate Valid()
      reads this
    {
      && ValidHierarchy(hierarchy) && numEmployees == |hierarchy| + 1
      && |reports| == numEmployees && |ties| == numEmployees
      && (forall i :: 0 <= i < |reports| ==> reports[i] == Children(hierarchy, i + 1, numEmployees))
      && (forall i :: 0 <= i < |ties| ==> ties[i] != 0)
    }

    /** Every employee still holds the initial tie. */
    predicate Untouched()
      reads this
    {
      forall i :: 0 <= i < |ties| ==> ties[i] == 1
    }

    /**
     * Builds the company: each new employee starts with tie 1 and no reports,
     * and is appended to its manager's reports.
     */
    constructor (numEmployees: nat, hierarchySpec: seq<int>)
      requires ValidHierarchy(hierarchySpec) && numEmployees == |hierarchySpec| + 1
      ensures Valid() && Untouched()
      ensures this.numEmployees == numEmployees && hierarchy == hierarchySpec
    {
      this.numEmployees := numEmployees;
      hierarchy := hierarchySpec;
      reports := [[]];
      ties := [1];
      new;
      for index := 0 to |hierarchySpec|
        invariant |reports| == |ties| == index + 1
        invariant forall i :: 0 <= i < |ties| ==> ties[i] == 1
        invariant forall i :: 0 <= i < |reports| ==> reports[i] == Children(hierarchy, i + 1, index + 1)
      {
        var employeeNumber := index + 2;
        var managerNumber := hierarchySpec[index];
        NoReportsYet(hierarchy, employeeNumber, employeeNumber);
        reports := reports + [[]];
        ties := ties + [1];
        reports := reports[managerNumber - 1 := reports[managerNumber - 1] + [employeeNumber]];
      }
    }

    /**
     * Applies `queuedMemo` to its origin and returns the memos it hands on
     * to the origin's reports.
     */
    method ExpandMemo(queuedMemo: Event) returns (newMemos: seq<Event>)
      requires Valid() && queuedMemo.Memo? && ValidEvent(hierarchy, queuedMemo)
      modifies this
      ensures Valid() && reports == old(reports)
      ensures ties == old(ties)[queuedMemo.personNumber - 1 := queuedMemo.tie]
      ensures newMemos == Expansion(hierarchy, queuedMemo)
    {
      var employee := queuedMemo.personNumber;
      ties := ties[employee - 1 := queuedMemo.tie];
      if queuedMemo.importance == 0 {
        return [];
      }
      newMemos := ReportMemos(reports[employee - 1], queuedMemo.importance - 1, queuedMemo.tie);
    }

    /** Every memo before `index` starts strictly below employee `t`. */
    ghost predicate ScannedBelow(items: seq<Event>, index: int, t: int) {
      forall j :: 0 <= j < index && j < |items| ==> items[j].personNumber > t
    }

    /** Every employee's effective tie is the same in both states. */
    ghost predicate SameEffective(ties1: seq<int>, items1: seq<Event>, ties0: seq<int>, items0: seq<Event>)
      requires ValidHierarchy(hierarchy) && |ties1| == |ties0| == |hierarchy| + 1
    {
      forall x :: IsEmployee(hierarchy, x) ==>
        Effective(hierarchy, ties1, items1, x) == Effective(hierarchy, ties0, items0, x)
    }

    lemma SameEffectiveTrans(ties2: seq<int>, items2: seq<Event>, ties1: seq<int>, items1: seq<Event>,
                             ties0: seq<int>, items0: seq<Event>)
      requires ValidHierarchy(hierarchy) && |ties2| == |ties1| == |ties0| == |hierarchy| + 1
      requires SameEffective(ties2, items2, ties1, items1) && SameEffective(ties1, items1, ties0, items0)
      ensures SameEffective(ties2, items2, ties0, items0)
    {
    }

    /**
     * The tie of `employeeNumber`: pushes down every queued memo starting at
     * or above it, in queue order, revisiting the memos each expansion
     * leaves in its place. No effective tie changes, and afterwards no
     * queued memo starts at or above the employee.
     */
    method GetTie(memoQueue: MemoQueue, employeeNumber: int) returns (result: int)
      requires Valid() && IsEmployee(hierarchy, employeeNumber) && ValidMemos(hierarchy, memoQueue.items)
      modifies this, memoQueue
      ensures Valid() && ValidMemos(hierarchy, memoQueue.items)
      ensures forall j :: 0 <= j < |memoQueue.items| ==> memoQueue.items[j].personNumber > employeeNumber
      ensures result == old(Effective(hierarchy, ties, memoQueue.items, employeeNumber))
      ensures forall x :: IsEmployee(hierarchy, x) ==>
        Effective(hierarchy, ties, memoQueue.items, x) == old(Effective(hierarchy, ties, memoQueue.items, x))
    {
      ghost var ties0, items0 := ties, memoQueue.items;
      result := 0;
      var index := 0;
      while result == 0
        invariant Valid() && ValidMemos(hierarchy, memoQueue.items) && 0 <= index <= |memoQueue.items|
        invariant ScannedBelow(memoQueue.items, index, employeeNumber)
        invariant SameEffective(ties, memoQueue.items, ties0, items0)
        invariant result != 0 ==> index == |memoQueue.items| && result == ties[employeeNumber - 1]
        decreases if result == 0 then 1 else 0
      {
        index := PushDown(memoQueue, index, employeeNumber);
        result := ties[employeeNumber - 1];
      }
      LatestReachAbove(hierarchy, memoQueue.items, employeeNumber);
    }

    /**
     * The inner loop of GetTie: from `index` on, expands every queued memo
     * starting at or above `t` until the whole queue starts below `t`.
     */
    method PushDown(memoQueue: MemoQueue, index0: int, t: int) returns (index: int)
      requires Valid() && ValidMemos(hierarchy, memoQueue.items) && 0 <= index0 <= |memoQueue.items|
      requires ScannedBelow(memoQueue.items, index0, t)
      modifies this, memoQueue
      ensures Valid() && ValidMemos(hierarchy, memoQueue.items)
      ensures index == |memoQueue.items| && ScannedBelow(memoQueue.items, index, t)
      ensures SameEffective(ties, memoQueue.items, old(ties), old(memoQueue.items))
    {
      ghost var ties0, items0 := ties, memoQueue.items;
      index := index0;
      while index < |memoQueue.items|
        invariant Valid() && ValidMemos(hierarchy, memoQueue.items) && 0 <= index <= |memoQueue.items|
        invariant ScannedBelow(memoQueue.items, index, t)
        invariant SameEffective(ties, memoQueue.items, ties0, items0)
        decreases Pending(hierarchy, memoQueue.items[index..], t), |memoQueue.items| - index
      {
        var queuedMemo := memoQueue.items[index];
        if queuedMemo.personNumber <= t {
          ghost var ties1, items := ties, memoQueue.items;
          ExpandStep(items, index, t);
          var newMemos := ExpandMemo(queuedMemo);
          memoQueue.Expand(index, newMemos);
          assert memoQueue.items == Splice(items, index, Expansion(hierarchy, items[index]));
          SameEffectiveTrans(ties, memoQueue.items, ties1, items, ties0, items0);
        } else {
          index := index + 1;
        }
      }
    }

    /** The facts one expansion in GetTie needs, about the current state. */
    lemma ExpandStep(items: seq<Event>, index: nat, t: int)
      requires Valid() && ValidMemos(hierarchy, items) && index < |items|
      requires ScannedBelow(items, index, t) && items[index].personNumber <= t
      ensures ValidMemos(hierarchy, Splice(items, index, Expansion(hierarchy, items[index])))
      ensures ScannedBelow(Splice(items, index, Expansion(hierarchy, items[index])), index, t)
      ensures Pending(hierarchy, Splice(items, index, Expansion(hierarchy, items[index]))[index..], t)
        < Pending(hierarchy, items[index..], t)
      ensures SameEffective(ties[items[index].personNumber - 1 := items[index].tie],
                            Splice(items, index, Expansion(hierarchy, items[index])), ties, items)
    {
      var kids := Expansion(hierarchy, items[index]);
      ExpansionValid(hierarchy, items[index]);
      var r := Splice(items, index, kids);
      SpliceShape(items, index, kids);
      forall i | 0 <= i < |r|
        ensures r[i].Memo? && ValidEvent(hierarchy, r[i])
      {
        if i < index {
        } else if i < index + |kids| {
          assert r[i] == kids[i - index];
        } else {
          assert r[i] == items[i + 1 - |kids|];
        }
      }
      PendingShrinks(hierarchy, items, index, t);
      forall x | IsEmployee(hierarchy, x)
        ensures Effective(hierarchy, ties[items[index].personNumber - 1 := items[index].tie], r, x)
          == Effective(hierarchy, ties, items, x)
      {
        ExpandKeepsEffective(hierarchy, ties, items, index, t, x);
      }
    }

    /**
     * Processes the events from first to last: memos are queued in arrival
     * order and each read adds its multiplier times the reader's tie. The
     * total is the reference total when every employee still holds the
     * initial tie; the events themselves are not consumed.
     */
    method ProcessEventQueue(eventQueue: seq<Event>) returns (total: int)
      requires Valid() && Untouched() && ValidEvents(hierarchy, eventQueue)
      modifies this
      ensures Valid()
      ensures total == ExpectedTotal(hierarchy, eventQueue)
    {
      var memoQueue := new MemoQueue();
      total := 0;
      for index := 0 to |eventQueue|
        invariant Valid() && ValidMemos(hierarchy, memoQueue.items)
        invariant forall x :: IsEmployee(hierarchy, x) ==>
          Effective(hierarchy, ties, memoQueue.items, x) == TieAt(hierarchy, eventQueue[..index], x)
        invariant total == ExpectedTotal(hierarchy, eventQueue[..index])
      {
        var nextEvent := eventQueue[index];
        assert eventQueue[..index + 1] == eventQueue[..index] + [nextEvent];
        assert ValidEvent(hierarchy, nextEvent);
        if nextEvent.Read? {
          var tie := GetTie(memoQueue, nextEvent.personNumber);
          total := total + nextEvent.multiplier * tie;
          forall x | IsEmployee(hierarchy, x)
            ensures TieAt(hierarchy, eventQueue[..index + 1], x) == TieAt(hierarchy, eventQueue[..index], x)
          {
            TieAfterRead(hierarchy, eventQueue[..index], nextEvent, x);
          }
        } else {
          ghost var before := memoQueue.items;
          memoQueue.Append(nextEvent);
          forall x | IsEmployee(hierarchy, x)
            ensures Effective(hierarchy, ties, memoQueue.items, x) == TieAt(hierarchy, eventQueue[..index + 1], x)
          {
            assert (before + [nextEvent])[..|before|] == before;
            TieAfterMemo(hierarchy, eventQueue[..index], nextEvent, x);
          }
        }
      }
      assert eventQueue[..|eventQueue|] == eventQueue;
    }
  }

  /** No employee numbered up to `n` reports to `e` when `n <= e`: a new employee has no reports yet. */
  lemma {:induction false} NoReportsYet(h: seq<int>, e: int, n: int)
    requires ValidHierarchy(h) && n <= e && n <= |h| + 1
    ensures Children(h, e, n) == []
    decreases n
  {
    if n >= 2 {
      NoReportsYet(h, e, n - 1);
    }
  }
}
