/**
 * The company hierarchy shared by every engine.
 *
 * A hierarchy specification `h` lists, for i = 0 .. |h| - 1, the number of the
 * manager of employee i + 2. Employee 1 is the root and has no manager, so a
 * company built from `h` has |h| + 1 employees. Every manager is built before
 * its reports, so a manager's number is smaller than the employee's.
 */
module Hierarchy {
  import opened Wrappers

  /** Every entry names an employee that already exists when the entry is read. */
  predicate ValidHierarchy(h: seq<int>) {
    forall i :: 0 <= i < |h| ==> 1 <= h[i] <= i + 1
  }

  predicate IsEmployee(h: seq<int>, e: int) {
    1 <= e <= |h| + 1
  }

  /** The number of the manager of a non-root employee. */
  function Manager(h: seq<int>, e: int): (m: int)
    requires ValidHierarchy(h) && 2 <= e <= |h| + 1
    ensures 1 <= m < e
  {
    h[e - 2]
  }

  /** Number of hops from `e` up to the root. */
  function Depth(h: seq<int>, e: int): (d: nat)
    requires ValidHierarchy(h) && IsEmployee(h, e)
    ensures d < e
    decreases e
  {
    if e == 1 then 0 else Depth(h, Manager(h, e)) + 1
  }

  /** The ancestor of `e` exactly `k` hops above it. */
  function Ancestor(h: seq<int>, e: int, k: nat): (a: int)
    requires ValidHierarchy(h) && IsEmployee(h, e) && k <= Depth(h, e)
    ensures 1 <= a <= e
    ensures k > 0 ==> a < e
    ensures Depth(h, a) == Depth(h, e) - k
    decreases k
  {
    if k == 0 then e else Ancestor(h, Manager(h, e), k - 1)
  }

  /**
   * `m` is `e` itself or one of its managers at most `d` hops above it:
   * the employees a memo from `m` with importance `d` reaches.
   */
  predicate ManagesWithin(h: seq<int>, m: int, e: int, d: int)
    requires ValidHierarchy(h) && IsEmployee(h, e)
    decreases e
  {
    e == m || (d > 0 && e >= 2 && ManagesWithin(h, m, Manager(h, e), d - 1))
  }

  /** The management line of `e`: its managers, root first, without `e` itself. */
  function FullLine(h: seq<int>, e: int): (line: seq<int>)
    requires ValidHierarchy(h) && IsEmployee(h, e)
    ensures |line| == Depth(h, e)
    decreases e
  {
    if e == 1 then [] else FullLine(h, Manager(h, e)) + [Manager(h, e)]
  }

  /** Dropping the last manager from the line of `e` gives the line of that manager. */
  lemma LineOfManager(h: seq<int>, e: int)
    requires ValidHierarchy(h) && IsEmployee(h, e) && e != 1
    ensures FullLine(h, e)[..|FullLine(h, e)| - 1] == FullLine(h, Manager(h, e))
  {
    assert FullLine(h, e) == FullLine(h, Manager(h, e)) + [Manager(h, e)];
  }

  /** `full_line.pop()`: removing the last entry of the line of `e` leaves the line of its manager. */
  method PopManager(ghost h: seq<int>, ghost e: int, line: seq<int>) returns (rest: seq<int>)
    requires ValidHierarchy(h) && IsEmployee(h, e) && e != 1 && line == FullLine(h, e)
    ensures rest == FullLine(h, Manager(h, e))
  {
    LineOfManager(h, e);
    rest := line[..|line| - 1];
  }

  /**
   * The management line starts at the root, climbs strictly, stays below
   * `e`, and holds at position i the manager |line| - i hops above `e`.
   */
  lemma {:induction false} FullLineIsAncestors(h: seq<int>, e: int)
    requires ValidHierarchy(h) && IsEmployee(h, e)
    ensures e != 1 ==> FullLine(h, e)[0] == 1
    ensures forall i :: 0 <= i < |FullLine(h, e)| ==> FullLine(h, e)[i] == Ancestor(h, e, |FullLine(h, e)| - i)
    ensures forall i, j :: 0 <= i < j < |FullLine(h, e)| ==> FullLine(h, e)[i] < FullLine(h, e)[j]
    ensures forall i :: 0 <= i < |FullLine(h, e)| ==> FullLine(h, e)[i] < e
    decreases e
  {
    if e != 1 {
      var m := Manager(h, e);
      FullLineIsAncestors(h, m);
      var line, up := FullLine(h, e), FullLine(h, m);
      assert line == up + [m];
      forall i | 0 <= i < |line|
        ensures line[i] == Ancestor(h, e, |line| - i)
      {
        if i < |up| {
          assert line[i] == up[i];
        }
      }
    }
  }

  /** Direct reports of `o` among employees 2 .. n, in increasing number order. */
  function Children(h: seq<int>, o: int, n: int): seq<int>
    requires ValidHierarchy(h) && n <= |h| + 1
    decreases n
  {
    if n < 2 then []
    else Children(h, o, n - 1) + (if h[n - 2] == o then [n] else [])
  }

  /**
   * The reports of `o` among employees 2 .. n are exactly those whose manager
   * is `o`, listed in increasing order; all come after `o`.
   */
  lemma {:induction false} ChildrenSpec(h: seq<int>, o: int, n: int)
    requires ValidHierarchy(h) && n <= |h| + 1
    ensures forall c :: c in Children(h, o, n) <==> 2 <= c <= n && h[c - 2] == o
    ensures forall i, j :: 0 <= i < j < |Children(h, o, n)| ==> Children(h, o, n)[i] < Children(h, o, n)[j]
    ensures forall i :: 0 <= i < |Children(h, o, n)| ==> o < Children(h, o, n)[i] <= n
    decreases n
  {
    if n >= 2 {
      ChildrenSpec(h, o, n - 1);
    }
  }

  /** `x` has no report among employees 2 .. n (employee i + 2 reports to h[i]). */
  predicate HasNoReport(h: seq<int>, n: int, x: int)
    requires n <= |h| + 1
  {
    forall i :: 0 <= i < n - 1 ==> h[i] != x
  }

  /** Having no report among employees 2 .. n is having no children there. */
  lemma NoReportIffNoChildren(h: seq<int>, n: int, x: int)
    requires ValidHierarchy(h) && n <= |h| + 1
    ensures HasNoReport(h, n, x) <==> Children(h, x, n) == []
  {
    ChildrenSpec(h, x, n);
    if Children(h, x, n) != [] {
      assert Children(h, x, n)[0] in Children(h, x, n);
    }
    if !HasNoReport(h, n, x) {
      var i :| 0 <= i < n - 1 && h[i] == x;
      assert h[(i + 2) - 2] == x;
    }
  }

  // ---------------------------------------------------------------------
  // Properties of ManagesWithin
  // ---------------------------------------------------------------------

  /** A manager's number never exceeds the number of an employee below it. */
  lemma {:induction false} ManagesWithinBound(h: seq<int>, m: int, e: int, d: int)
    requires ValidHierarchy(h) && IsEmployee(h, e)
    requires ManagesWithin(h, m, e, d)
    ensures 1 <= m <= e
    decreases e
  {
    if e != m {
      ManagesWithinBound(h, m, Manager(h, e), d - 1);
    }
  }

  /** A larger hop budget reaches at least as far. */
  lemma {:induction false} ManagesWithinMonotone(h: seq<int>, m: int, e: int, d: int, d': int)
    requires ValidHierarchy(h) && IsEmployee(h, e)
    requires ManagesWithin(h, m, e, d) && d <= d'
    ensures ManagesWithin(h, m, e, d')
    decreases e
  {
    if e != m {
      ManagesWithinMonotone(h, m, Manager(h, e), d - 1, d' - 1);
    }
  }

  /**
   * ManagesWithin agrees with the explicit ancestor definition: `m` is the
   * ancestor of `e` at some distance k within the budget.
   */
  lemma ManagesWithinIsAncestor(h: seq<int>, m: int, e: int, d: int)
    requires ValidHierarchy(h) && IsEmployee(h, e) && d >= 0
    ensures ManagesWithin(h, m, e, d) <==>
      exists k :: 0 <= k <= d && k <= Depth(h, e) && Ancestor(h, e, k) == m
  {
    if ManagesWithin(h, m, e, d) {
      var k := ManagerDistance(h, m, e, d);
    }
    if exists k :: 0 <= k <= d && k <= Depth(h, e) && Ancestor(h, e, k) == m {
      var k :| 0 <= k <= d && k <= Depth(h, e) && Ancestor(h, e, k) == m;
      AncestorIsManager(h, e, k, d);
    }
  }

  /** The ancestor `k` hops above `e` reaches `e` with any budget of at least k. */
  lemma {:induction false} AncestorIsManager(h: seq<int>, e: int, k: nat, d: int)
    requires ValidHierarchy(h) && IsEmployee(h, e) && k <= Depth(h, e) && k <= d
    ensures ManagesWithin(h, Ancestor(h, e, k), e, d)
    decreases k
  {
    if k > 0 {
      AncestorIsManager(h, Manager(h, e), k - 1, d - 1);
    }
  }

  /** The hop count from `e` up to a manager that reaches it. */
  lemma {:induction false} ManagerDistance(h: seq<int>, m: int, e: int, d: int) returns (k: nat)
    requires ValidHierarchy(h) && IsEmployee(h, e) && d >= 0
    requires ManagesWithin(h, m, e, d)
    ensures k <= d && k <= Depth(h, e) && Ancestor(h, e, k) == m
    decreases e
  {
    if e == m {
      k := 0;
    } else {
      var j := ManagerDistance(h, m, Manager(h, e), d - 1);
      k := j + 1;
    }
  }

  /**
   * The jump through a line summary: when `a` is the ancestor `k` hops above
   * `e` and `m <= a`, then `m` is within `d` hops of `e` exactly when the jump
   * fits in the budget and `m` is within the rest of the budget of `a`.
   */
  lemma {:induction false} ManagesWithinJump(h: seq<int>, m: int, e: int, d: int, k: nat)
    requires ValidHierarchy(h) && IsEmployee(h, e) && k <= Depth(h, e) && d >= 0
    requires m <= Ancestor(h, e, k)
    ensures ManagesWithin(h, m, e, d) <==>
      (k <= d && ManagesWithin(h, m, Ancestor(h, e, k), d - k))
    decreases k
  {
    if k > 0 {
      assert e >= 2;
      var p := Manager(h, e);
      assert Ancestor(h, e, k) == Ancestor(h, p, k - 1);
      if d > 0 {
        ManagesWithinJump(h, m, p, d - 1, k - 1);
      }
      assert e != m;
      assert ManagesWithin(h, m, e, d) == (d > 0 && ManagesWithin(h, m, p, d - 1));
    }
  }

  // ---------------------------------------------------------------------
  // Reports
  // ---------------------------------------------------------------------

  /**
   * A memo expanded at `o` with importance d + 1 becomes one memo per report
   * with importance d; together they reach exactly what the original reached,
   * except `o` itself.
   */
  lemma ChildrenReach(h: seq<int>, n: int, o: int, x: int, d: int)
    requires ValidHierarchy(h) && n == |h| + 1 && IsEmployee(h, x) && d >= 0
    ensures (exists c :: c in Children(h, o, n) && ManagesWithin(h, c, x, d)) <==>
      (x != o && ManagesWithin(h, o, x, d + 1))
  {
    if exists c :: c in Children(h, o, n) && ManagesWithin(h, c, x, d) {
      var c :| c in Children(h, o, n) && ManagesWithin(h, c, x, d);
      ReportReachImpliesManagerReach(h, n, o, c, x, d);
    }
    if x != o && ManagesWithin(h, o, x, d + 1) {
      ManagerReachImpliesReportReach(h, n, o, x, d);
    }
  }

  lemma {:induction false} ReportReachImpliesManagerReach(h: seq<int>, n: int, o: int, c: int, x: int, d: int)
    requires ValidHierarchy(h) && n == |h| + 1 && IsEmployee(h, x) && d >= 0
    requires c in Children(h, o, n) && ManagesWithin(h, c, x, d)
    ensures x != o && ManagesWithin(h, o, x, d + 1)
    decreases x
  {
    ChildrenSpec(h, o, n);
    ManagesWithinBound(h, c, x, d);
    if x != c {
      var p := Manager(h, x);
      assert ManagesWithin(h, c, p, d - 1);
      ReportReachImpliesManagerReach(h, n, o, c, p, d - 1);
    } else {
      assert ManagesWithin(h, o, Manager(h, x), d);
    }
  }

  lemma {:induction false} ManagerReachImpliesReportReach(h: seq<int>, n: int, o: int, x: int, d: int)
    requires ValidHierarchy(h) && n == |h| + 1 && IsEmployee(h, x) && d >= 0
    requires x != o && ManagesWithin(h, o, x, d + 1)
    ensures exists c :: c in Children(h, o, n) && ManagesWithin(h, c, x, d)
    decreases x
  {
    ChildrenSpec(h, o, n);
    var p := Manager(h, x);
    if p == o {
      assert x in Children(h, o, n) && ManagesWithin(h, x, x, d);
    } else {
      assert ManagesWithin(h, o, p, d);
      assert d > 0;
      ManagerReachImpliesReportReach(h, n, o, p, d - 1);
      var c :| c in Children(h, o, n) && ManagesWithin(h, c, p, d - 1);
      ManagesWithinBound(h, c, p, d - 1);
      assert ManagesWithin(h, c, x, d);
    }
  }

  // ---------------------------------------------------------------------
  // Looking employees up by number, and the construction's error paths
  // ---------------------------------------------------------------------

  datatype BuildError = IndexError(position: nat) | CountMismatch

  /**
   * `get_employee(number)` indexes a list of the `count` employees built so
   * far at `number - 1`, with Python's list indexing: a negative index counts
   * from the end, an index out of range raises. Returns the number of the
   * employee actually obtained.
   */
  function LookUp(count: nat, number: int): (r: Option<int>)
    ensures r.None? <==> number > count || number <= -(count as int)
    ensures 1 <= number <= count ==> r == Some(number)
    ensures r.Some? ==> 1 <= r.value <= count
    ensures count >= 1 && number == 0 ==> r == Some(count)
  {
    var index := number - 1;
    if 0 <= index < count then Some(index + 1)
    else if -(count as int) <= index < 0 then Some(count + index + 1)
    else None
  }

  /** Resolves every manager of the specification in order; the first miss fails. */
  function ResolveManagers(spec: seq<int>, i: nat): (r: Result<seq<int>, BuildError>)
    requires i <= |spec|
    ensures r.Success? ==> |r.value| == |spec| - i
    ensures r.Success? ==> forall j :: 0 <= j < |r.value| ==> 1 <= r.value[j] <= i + j + 1
    ensures r.Failure? <==> exists j :: i <= j < |spec| && LookUp(j + 1, spec[j]).None?
    decreases |spec| - i
  {
    if i == |spec| then Success([])
    else
      var manager := LookUp(i + 1, spec[i]);
      var rest := ResolveManagers(spec, i + 1);
      if manager.None? then Failure(IndexError(i))
      else if rest.Failure? then rest
      else Success([manager.value] + rest.value)
  }

  /**
   * Construction of a company from `numEmployees` and `spec`: each manager
   * number is looked up among the employees built so far, then the number of
   * employees is asserted. On success the result is the hierarchy actually
   * built.
   */
  function BuildHierarchy(numEmployees: int, spec: seq<int>): (r: Result<seq<int>, BuildError>)
    ensures r.Success? ==> ValidHierarchy(r.value) && |r.value| == |spec| && numEmployees == |spec| + 1
    ensures r.Failure? <==>
      numEmployees != |spec| + 1 || exists j :: 0 <= j < |spec| && LookUp(j + 1, spec[j]).None?
  {
    match ResolveManagers(spec, 0)
    case Failure(err) => Failure(err)
    case Success(built) =>
      if numEmployees == |spec| + 1 then Success(built) else Failure(CountMismatch)
  }

  /** A valid specification is built as written. */
  lemma {:induction false} ValidSpecBuildsAsWritten(spec: seq<int>, i: nat)
    requires ValidHierarchy(spec) && i <= |spec|
    ensures ResolveManagers(spec, i) == Success(spec[i..])
    decreases |spec| - i
  {
    if i < |spec| {
      ValidSpecBuildsAsWritten(spec, i + 1);
      assert spec[i..] == [spec[i]] + spec[i + 1..];
    }
  }

  /** Manager number 0 is not rejected: it silently names the previous employee. */
  lemma ManagerZeroIsAccepted()
    ensures BuildHierarchy(3, [1, 0]) == Success([1, 2])
  {
    var spec := [1, 0];
    assert LookUp(1, spec[0]) == Some(1);
    assert LookUp(2, spec[1]) == Some(2);
    assert ResolveManagers(spec, 2) == Success([]);
    assert ResolveManagers(spec, 1) == Success([LookUp(2, spec[1]).value] + ResolveManagers(spec, 2).value);
    assert [2] + [] == [2];
    assert ResolveManagers(spec, 1) == Success([2]);
    assert ResolveManagers(spec, 0) == Success([LookUp(1, spec[0]).value] + ResolveManagers(spec, 1).value);
    assert [1] + [2] == [1, 2];
  }
}
