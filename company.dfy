/**
 * Choosing an engine for a hierarchy (problem2015g/company.py). The average
 * depth of the employees is measured and compared with the square root of the
 * head count: a deep company gets the Deep engine, a shallow one the Shallow
 * engine. Both engines return the same total for every event queue, so the
 * choice affects only the running time.
 */
module CompanyModels {
  import opened Wrappers
  import opened Hierarchy
  import opened Events
  import opened DeepCompanyEngine
  import opened ShallowCompanyEngine

  /** The summary interval the Deep engine is built with by the selector. */
  const DeepSummaryInterval: nat := 10000

  datatype ArithmeticError = ZeroDivisionError

  // ---------------------------------------------------------------------
  // The depth counter (a `collections.Counter` keyed by depth)
  // ---------------------------------------------------------------------

  /** A counter lookup: a missing depth counts 0. */
  function Count(counter: map<nat, nat>, d: nat): nat {
    if d in counter then counter[d] else 0
  }

  /** `counter[d] += 1`. */
  function Increment(counter: map<nat, nat>, d: nat): (c: map<nat, nat>)
    ensures Count(c, d) == Count(counter, d) + 1
    ensures forall d' :: d' != d ==> Count(c, d') == Count(counter, d')
    ensures forall d' :: d' in c <==> d' in counter || d' == d
  {
    counter[d := Count(counter, d) + 1]
  }

  /** The counts of the depths below `k`: `sum(counter.values())` once every key is below `k`. */
  function CountSum(counter: map<nat, nat>, k: nat): nat {
    if k == 0 then 0 else CountSum(counter, k - 1) + Count(counter, k - 1)
  }

  /** The depths below `k` weighted by their counts: `sum(d * c for d, c in counter.items())`. */
  function WeightedSum(counter: map<nat, nat>, k: nat): nat {
    if k == 0 then 0 else WeightedSum(counter, k - 1) + (k - 1) * Count(counter, k - 1)
  }

  /** One more employee at depth `d` adds 1 to the count and `d` to the weighted sum. */
  lemma IncrementSums(counter: map<nat, nat>, d: nat, k: nat)
    ensures CountSum(Increment(counter, d), k) == CountSum(counter, k) + (if d < k then 1 else 0)
    ensures WeightedSum(Increment(counter, d), k) == WeightedSum(counter, k) + (if d < k then d else 0)
  {
    IncrementCountSum(counter, d, k);
    IncrementWeightedSum(counter, d, k);
  }

  lemma {:induction false} IncrementCountSum(counter: map<nat, nat>, d: nat, k: nat)
    ensures CountSum(Increment(counter, d), k) == CountSum(counter, k) + (if d < k then 1 else 0)
  {
    if k > 0 {
      IncrementCountSum(counter, d, k - 1);
    }
  }

  lemma {:induction false} IncrementWeightedSum(counter: map<nat, nat>, d: nat, k: nat)
    ensures WeightedSum(Increment(counter, d), k) == WeightedSum(counter, k) + (if d < k then d else 0)
  {
    if k > 0 {
      IncrementWeightedSum(counter, d, k - 1);
      var c := Increment(counter, d);
      var before := Count(counter, k - 1);
      if d == k - 1 {
        assert Count(c, k - 1) == before + 1;
        OneMoreTimes(k - 1, before);
      } else {
        assert Count(c, k - 1) == before;
      }
    }
  }

  lemma OneMoreTimes(a: nat, b: nat)
    ensures a * (b + 1) == a * b + a
  {
  }

  /** An empty counter sums to 0. */
  lemma {:induction false} EmptySums(k: nat)
    ensures CountSum(map[], k) == 0 && WeightedSum(map[], k) == 0
  {
    if k > 0 {
      EmptySums(k - 1);
    }
  }

  // ---------------------------------------------------------------------
  // What the counter is meant to hold, stated on the hierarchy
  // ---------------------------------------------------------------------

  /** The number of employees among 2..n at depth `d` (the root is never counted). */
  function Headcount(h: seq<int>, n: int, d: nat): nat
    requires ValidHierarchy(h) && n <= |h| + 1
  {
    if n < 2 then 0 else Headcount(h, n - 1, d) + (if Depth(h, n) == d then 1 else 0)
  }

  /** The total depth of employees 2..n. */
  function SumDepths(h: seq<int>, n: int): nat
    requires ValidHierarchy(h) && n <= |h| + 1
  {
    if n < 2 then 0 else SumDepths(h, n - 1) + Depth(h, n)
  }

  /** Every non-root employee is at depth at least 1 and below its own number. */
  lemma {:induction false} SumDepthsBounds(h: seq<int>, n: int)
    requires ValidHierarchy(h) && 1 <= n <= |h| + 1
    ensures n - 1 <= SumDepths(h, n) <= (n - 1) * (n - 1)
  {
    if n >= 2 {
      SumDepthsBounds(h, n - 1);
      assert 1 <= Depth(h, n) <= n - 1;
      assert (n - 2) * (n - 2) + (n - 1) <= (n - 1) * (n - 1);
    }
  }

  /**
   * `counter` has counted the depths of employees 2..n, one increment each,
   * and its sums over the depths below `bound` are the head count and the
   * total depth of those employees.
   */
  ghost predicate CountsDepths(h: seq<int>, counter: map<nat, nat>, n: int, bound: nat)
    requires ValidHierarchy(h) && 1 <= n <= bound <= |h| + 1
  {
    && (forall d :: d in counter ==> 1 <= d < n)
    && (forall d: nat :: Count(counter, d) == Headcount(h, n, d))
    && CountSum(counter, bound) == n - 1
    && WeightedSum(counter, bound) == SumDepths(h, n)
  }

  /** `depths` lists the depths of employees 1..|depths|. */
  ghost predicate ListsDepths(h: seq<int>, depths: seq<nat>)
    requires ValidHierarchy(h)
  {
    && |depths| <= |h| + 1
    && forall e :: 1 <= e <= |depths| ==> depths[e - 1] == Depth(h, e)
  }

  /** Counting employee `n + 1` at its depth extends the count to 2..n+1. */
  lemma CountNext(h: seq<int>, counter: map<nat, nat>, n: int, bound: nat)
    requires ValidHierarchy(h) && 1 <= n < bound <= |h| + 1
    requires CountsDepths(h, counter, n, bound)
    ensures CountsDepths(h, Increment(counter, Depth(h, n + 1)), n + 1, bound)
  {
    var depth := Depth(h, n + 1);
    assert 1 <= depth < n + 1;
    IncrementSums(counter, depth, bound);
  }

  // ---------------------------------------------------------------------
  // DepthMeasureCompany
  // ---------------------------------------------------------------------

  class DepthMeasureCompany {
    const numEmployees: nat
    ghost const hierarchy: seq<int>
    /** `depths[e - 1]` is the depth of employee `e` (the root has depth 0). */
    var depths: seq<nat>
    var depthCounter: map<nat, nat>

    /**
     * Every employee's depth is its distance from the root, and the counter
     * holds one count per non-root employee at its depth.
     */
    ghost predicate Valid()
      reads this
    {
      && ValidHierarchy(hierarchy) && numEmployees == |hierarchy| + 1
      && |depths| == numEmployees && ListsDepths(hierarchy, depths)
      && CountsDepths(hierarchy, depthCounter, numEmployees, numEmployees)
    }

    constructor (numEmployees: nat, hierarchySpec: seq<int>)
      requires ValidHierarchy(hierarchySpec) && numEmployees == |hierarchySpec| + 1
      ensures Valid()
      ensures this.numEmployees == numEmployees && hierarchy == hierarchySpec
    {
      var allDepths: seq<nat> := [0];
      var counter: map<nat, nat> := map[];
      EmptySums(numEmployees);
      for index := 0 to |hierarchySpec|
        invariant |allDepths| == index + 1 && ListsDepths(hierarchySpec, allDepths)
        invariant CountsDepths(hierarchySpec, counter, index + 1, numEmployees)
      {
        var employeeNumber := index + 2;
        var managerNumber := hierarchySpec[index];
        var depth := allDepths[managerNumber - 1] + 1;
        assert depth == Depth(hierarchySpec, employeeNumber);
        allDepths := allDepths + [depth];
        CountNext(hierarchySpec, counter, index + 1, numEmployees);
        counter := Increment(counter, depth);
      }
      this.numEmployees := numEmployees;
      hierarchy := hierarchySpec;
      depths := allDepths;
      depthCounter := counter;
    }

    /**
     * The mean depth of the non-root employees; with no such employee the
     * source divides by zero.
     */
    function AverageDepth(): (r: Result<real, ArithmeticError>)
      requires Valid()
      reads this
      ensures r.Failure? <==> numEmployees == 1
      ensures r.Success? ==>
        r.value == SumDepths(hierarchy, numEmployees) as real / (numEmployees - 1) as real
      ensures r.Success? ==> 1.0 <= r.value <= (numEmployees - 1) as real
    {
      var counted := CountSum(depthCounter, numEmployees);
      if counted == 0 then
        Failure(ZeroDivisionError)
      else
        SumDepthsBounds(hierarchy, numEmployees);
        MeanBounds(SumDepths(hierarchy, numEmployees), counted);
        Success(WeightedSum(depthCounter, numEmployees) as real / counted as real)
    }
  }

  /** A total between `m` and `m * m` over `m` items has a mean between 1 and `m`. */
  lemma MeanBounds(total: nat, m: nat)
    requires 1 <= m && m <= total <= m * m
    ensures 1.0 <= total as real / m as real <= m as real
  {
    var q := total as real / m as real;
    assert q * m as real == total as real;
    assert (m * m) as real == m as real * m as real && 1.0 * m as real == m as real;
    ScalePositive(q, 1.0, m as real);
    ScalePositive(q, m as real, m as real);
  }

  // ---------------------------------------------------------------------
  // The selection rule
  // ---------------------------------------------------------------------

  /** Multiplying by a positive number keeps a strict order. */
  lemma ScalePositive(x: real, y: real, c: real)
    requires c > 0.0
    ensures x > y <==> x * c > y * c
  {
    if x > y {
      assert x * c - y * c == (x - y) * c;
    } else {
      assert y * c - x * c == (y - x) * c;
    }
  }

  /** `average > sqrt(n)`, stated without the square root. */
  predicate AboveSquareRoot(average: real, n: nat) {
    average >= 0.0 && average * average > n as real
  }

  /** For the non-negative square root `root` of `n`, the predicate is `average > root`. */
  lemma SquareRootCriterion(average: real, root: real, n: nat)
    requires root >= 0.0 && root * root == n as real
    ensures AboveSquareRoot(average, n) <==> average > root
  {
    if average > root {
      SquareGrows(average, root);
    } else if average >= 0.0 {
      SquareNoGrow(average, root);
    }
  }

  /** Squaring is strictly increasing on the non-negative reals. */
  lemma SquareGrows(a: real, r: real)
    requires a > r >= 0.0
    ensures a * a > r * r
  {
    assert a * a - r * r == (a - r) * (a + r);
    PositiveProduct(a - r, a + r);
  }

  lemma SquareNoGrow(a: real, r: real)
    requires 0.0 <= a <= r
    ensures a * a <= r * r
  {
    assert r * r - a * a == (r - a) * (r + a);
    NonNegativeProduct(r - a, r + a);
  }

  lemma PositiveProduct(x: real, y: real)
    requires x > 0.0 && y > 0.0
    ensures x * y > 0.0
  {
  }

  lemma NonNegativeProduct(x: real, y: real)
    requires x >= 0.0 && y >= 0.0
    ensures x * y >= 0.0
  {
  }

  /**
   * The selector's rule on integers: the company is deep when the squared
   * total depth exceeds `n * (n - 1)^2`.
   */
  predicate PrefersDeep(sumDepths: nat, n: nat) {
    sumDepths * sumDepths > n * (n - 1) * (n - 1)
  }

  lemma DeepCriterion(sumDepths: nat, n: nat)
    requires n >= 2
    ensures AboveSquareRoot(sumDepths as real / (n - 1) as real, n) <==> PrefersDeep(sumDepths, n)
  {
    var m := (n - 1) as real;
    var a := sumDepths as real / m;
    var s := sumDepths as real;
    assert a * m == s;
    assert a * a * (m * m) == s * s;
    assert (n * (n - 1) * (n - 1)) as real == n as real * (m * m);
    ScalePositive(a * a, n as real, m * m);
  }

  /**
   * A chain (each employee managed by the previous one) of 4 employees is
   * shallow, of 5 employees deep; a star of 5 employees is shallow.
   */
  lemma SelectionExamples()
    ensures !PrefersDeep(SumDepths([1, 2, 3], 4), 4)
    ensures PrefersDeep(SumDepths([1, 2, 3, 4], 5), 5)
    ensures !PrefersDeep(SumDepths([1, 1, 1, 1], 5), 5)
  {
    assert Depth([1, 2, 3], 4) == 3;
    assert Depth([1, 2, 3, 4], 5) == 4;
  }

  // ---------------------------------------------------------------------
  // create_company_model
  // ---------------------------------------------------------------------

  datatype CompanyModel = DeepModel(deep: DeepCompany) | ShallowModel(shallow: ShallowCompany)

  /** The hierarchy a model was built from. */
  ghost function HierarchyOf(model: CompanyModel): seq<int> {
    match model
    case DeepModel(d) => d.hierarchy
    case ShallowModel(s) => s.hierarchy
  }

  method CreateCompanyModel(numEmployees: nat, hierarchySpec: seq<int>)
    returns (r: Result<CompanyModel, ArithmeticError>)
    requires ValidHierarchy(hierarchySpec) && numEmployees == |hierarchySpec| + 1
    ensures r.Failure? <==> numEmployees == 1
    ensures r.Success? ==>
      && HierarchyOf(r.value) == hierarchySpec
      && (r.value.DeepModel? <==> PrefersDeep(SumDepths(hierarchySpec, numEmployees), numEmployees))
    ensures r.Success? && r.value.DeepModel? ==>
      r.value.deep.Valid() && r.value.deep.interval == DeepSummaryInterval
    ensures r.Success? && r.value.ShallowModel? ==>
      r.value.shallow.Valid() && r.value.shallow.Untouched()
  {
    var depthMeasureCompany := new DepthMeasureCompany(numEmployees, hierarchySpec);
    var averageDepth := depthMeasureCompany.AverageDepth();
    if averageDepth.Failure? {
      return Failure(averageDepth.error);
    }
    DeepCriterion(SumDepths(hierarchySpec, numEmployees), numEmployees);
    if AboveSquareRoot(averageDepth.value, numEmployees) {
      var deep := new DeepCompany(DeepSummaryInterval, numEmployees, hierarchySpec);
      r := Success(DeepModel(deep));
    } else {
      var shallow := new ShallowCompany(numEmployees, hierarchySpec);
      r := Success(ShallowModel(shallow));
    }
  }

  /**
   * Whichever engine the selector picks, the event queue yields the same
   * total: both engines compute the reference total of the queue.
   */
  method BothEnginesAgree(numEmployees: nat, hierarchySpec: seq<int>, events: seq<Event>)
    returns (deepTotal: int, shallowTotal: int)
    requires ValidHierarchy(hierarchySpec) && numEmployees == |hierarchySpec| + 1
    requires ValidEvents(hierarchySpec, events)
    ensures deepTotal == shallowTotal == ExpectedTotal(hierarchySpec, events)
  {
    var deep := new DeepCompany(DeepSummaryInterval, numEmployees, hierarchySpec);
    var eventQueue := new EventList(events);
    deepTotal := deep.ProcessEventQueue(eventQueue);
    var shallow := new ShallowCompany(numEmployees, hierarchySpec);
    shallowTotal := shallow.ProcessEventQueue(events);
  }
}
