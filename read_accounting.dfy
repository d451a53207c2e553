/**
 * What the reads waiting in the Deep engine's queue will contribute: each
 * queued person's multiplier times that person's tie, for a given tie
 * assignment (the ties after some prefix of the events).
 */
module ReadAccounting {
  import opened Hierarchy
  import opened Events
  import opened ReadEvents

  /** The tie of `x` after `events`; anyone who is not an employee counts as 1. */
  function TieOf(h: seq<int>, events: seq<Event>, x: int): int
    requires ValidHierarchy(h)
  {
    if IsEmployee(h, x) then TieAt(h, events, x) else 1
  }

  /** The ties after `events`, as a function of the person. */
  function Ties(h: seq<int>, events: seq<Event>): int -> int
    requires ValidHierarchy(h)
  {
    x => TieOf(h, events, x)
  }

  /** The sum of multiplier times tie over the queued persons. */
  function Weighted(ps: seq<int>, ms: seq<int>, tie: int -> int): int
    requires |ps| == |ms|
    decreases |ps|
  {
    if ps == [] then 0 else ms[0] * tie(ps[0]) + Weighted(ps[1..], ms[1..], tie)
  }

  lemma {:induction false} WeightedAppend(ps: seq<int>, ms: seq<int>, ps': seq<int>, ms': seq<int>, tie: int -> int)
    requires |ps| == |ms| && |ps'| == |ms'|
    ensures Weighted(ps + ps', ms + ms', tie) == Weighted(ps, ms, tie) + Weighted(ps', ms', tie)
    decreases |ps|
  {
    if ps != [] {
      assert (ps + ps')[1..] == ps[1..] + ps';
      assert (ms + ms')[1..] == ms[1..] + ms';
      WeightedAppend(ps[1..], ms[1..], ps', ms', tie);
    } else {
      assert ps + ps' == ps' && ms + ms' == ms';
    }
  }

  /** Entry `i` splits off the end of the first `i + 1` entries. */
  lemma WeightedLast(ps: seq<int>, ms: seq<int>, i: nat, tie: int -> int)
    requires |ps| == |ms| && i < |ps|
    ensures Weighted(ps[..i + 1], ms[..i + 1], tie) == Weighted(ps[..i], ms[..i], tie) + ms[i] * tie(ps[i])
  {
    assert ps[..i + 1] == ps[..i] + [ps[i]];
    assert ms[..i + 1] == ms[..i] + [ms[i]];
    WeightedAppend(ps[..i], ms[..i], [ps[i]], [ms[i]], tie);
  }

  /** Entry `i` splits off the front of the entries from `i` on. */
  lemma WeightedFirst(ps: seq<int>, ms: seq<int>, i: nat, tie: int -> int)
    requires |ps| == |ms| && i < |ps|
    ensures Weighted(ps[i..], ms[i..], tie) == ms[i] * tie(ps[i]) + Weighted(ps[i + 1..], ms[i + 1..], tie)
  {
    assert ps[i..][1..] == ps[i + 1..];
    assert ms[i..][1..] == ms[i + 1..];
  }

  /**
   * The backward scan over the queue at position i, where entries up to i
   * are weighed by `tie` and those after by `tie'`: an entry that settles at
   * tie `t` leaves the queue and contributes `t` times its multiplier.
   */
  lemma SettledStep(ps: seq<int>, ms: seq<int>, i: nat, t: int, tie: int -> int, tie': int -> int)
    requires |ps| == |ms| && i < |ps| && tie(ps[i]) == t
    ensures Weighted(ps[..i + 1], ms[..i + 1], tie) + Weighted(ps[i + 1..], ms[i + 1..], tie')
      == t * ms[i]
        + Weighted((ps[..i] + ps[i + 1..])[..i], (ms[..i] + ms[i + 1..])[..i], tie)
        + Weighted((ps[..i] + ps[i + 1..])[i..], (ms[..i] + ms[i + 1..])[i..], tie')
  {
    assert (ps[..i] + ps[i + 1..])[..i] == ps[..i];
    assert (ms[..i] + ms[i + 1..])[..i] == ms[..i];
    assert (ps[..i] + ps[i + 1..])[i..] == ps[i + 1..];
    assert (ms[..i] + ms[i + 1..])[i..] == ms[i + 1..];
    WeightedLast(ps, ms, i, tie);
  }

  /** An entry whose tie is the same on both sides stays in the queue. */
  lemma KeptStep(ps: seq<int>, ms: seq<int>, i: nat, tie: int -> int, tie': int -> int)
    requires |ps| == |ms| && i < |ps| && tie(ps[i]) == tie'(ps[i])
    ensures Weighted(ps[..i + 1], ms[..i + 1], tie) + Weighted(ps[i + 1..], ms[i + 1..], tie')
      == Weighted(ps[..i], ms[..i], tie) + Weighted(ps[i..], ms[i..], tie')
  {
    WeightedLast(ps, ms, i, tie);
    WeightedFirst(ps, ms, i, tie');
  }

  /**
   * The scan stops at position i (i = -1 when it ran off the front): if the
   * entries up to i have the same tie on both sides, the whole queue is
   * weighed by `tie'`.
   */
  lemma StoppedScan(ps: seq<int>, ms: seq<int>, i: int, below: seq<int>, tie: int -> int, tie': int -> int)
    requires |ps| == |ms| && -1 <= i < |ps| && below == ps[..i + 1]
    requires forall j :: 0 <= j < |below| ==> tie(below[j]) == tie'(below[j])
    ensures Weighted(ps[..i + 1], ms[..i + 1], tie) + Weighted(ps[i + 1..], ms[i + 1..], tie') == Weighted(ps, ms, tie')
  {
    WeightedAgree(ps[..i + 1], ms[..i + 1], tie, tie');
    assert ps == ps[..i + 1] + ps[i + 1..];
    assert ms == ms[..i + 1] + ms[i + 1..];
    WeightedAppend(ps[..i + 1], ms[..i + 1], ps[i + 1..], ms[i + 1..], tie');
  }

  /** Only the ties of the queued persons matter. */
  lemma {:induction false} WeightedAgree(ps: seq<int>, ms: seq<int>, tie: int -> int, tie': int -> int)
    requires |ps| == |ms|
    requires forall i :: 0 <= i < |ps| ==> tie(ps[i]) == tie'(ps[i])
    ensures Weighted(ps, ms, tie) == Weighted(ps, ms, tie')
    decreases |ps|
  {
    if ps != [] {
      assert tie(ps[0]) == tie'(ps[0]);
      WeightedAgree(ps[1..], ms[1..], tie, tie');
    }
  }

  /** Adding `m` to the multiplier of entry `k` adds `m` times its tie. */
  lemma MergedWeight(ps: seq<int>, ms: seq<int>, k: nat, m: int, tie: int -> int)
    requires |ps| == |ms| && k < |ps|
    ensures Weighted(ps, ms[k := ms[k] + m], tie) == Weighted(ps, ms, tie) + m * tie(ps[k])
  {
    var ms' := ms[k := ms[k] + m];
    assert ps == ps[..k + 1] + ps[k + 1..];
    assert ms == ms[..k + 1] + ms[k + 1..];
    assert ms' == ms'[..k + 1] + ms'[k + 1..];
    assert ms'[..k] == ms[..k] && ms'[k + 1..] == ms[k + 1..];
    WeightedAppend(ps[..k + 1], ms[..k + 1], ps[k + 1..], ms[k + 1..], tie);
    WeightedAppend(ps[..k + 1], ms'[..k + 1], ps[k + 1..], ms'[k + 1..], tie);
    WeightedLast(ps, ms, k, tie);
    WeightedLast(ps, ms', k, tie);
    var t := tie(ps[k]);
    assert (ms[k] + m) * t == ms[k] * t + m * t by {
      Distribute(ms[k], m, t);
    }
  }

  lemma Distribute(a: int, b: int, c: int)
    ensures (a + b) * c == a * c + b * c
  {
  }

  /** Inserting an entry adds its multiplier times its tie. */
  lemma InsertedWeight(ps: seq<int>, ms: seq<int>, k: nat, x: int, m: int, tie: int -> int)
    requires |ps| == |ms| && k <= |ps|
    ensures Weighted(ps[..k] + [x] + ps[k..], ms[..k] + [m] + ms[k..], tie) == Weighted(ps, ms, tie) + m * tie(x)
  {
    assert ps == ps[..k] + ps[k..];
    assert ms == ms[..k] + ms[k..];
    WeightedAppend(ps[..k] + [x], ms[..k] + [m], ps[k..], ms[k..], tie);
    WeightedAppend(ps[..k], ms[..k], [x], [m], tie);
    WeightedAppend(ps[..k], ms[..k], ps[k..], ms[k..], tie);
  }

  /** Adding a read to the queue adds its multiplier times the reader's tie. */
  lemma AddedAtWeight(ps: seq<int>, ms: seq<int>, readEvent: Event, k: int,
                      ps': seq<int>, ms': seq<int>, tie: int -> int)
    requires |ps| == |ms| && readEvent.Read?
    requires AddedAt(ps, ms, readEvent, k, ps', ms')
    ensures |ps'| == |ms'|
    ensures Weighted(ps', ms', tie) == Weighted(ps, ms, tie) + readEvent.multiplier * tie(readEvent.personNumber)
  {
    var x, m := readEvent.personNumber, readEvent.multiplier;
    if k < |ps| && ps[k] == x {
      assert ps' == ps && ms' == ms[k := ms[k] + m];
      MergedWeight(ps, ms, k, m, tie);
    } else {
      assert ps' == ps[..k] + [x] + ps[k..] && ms' == ms[..k] + [m] + ms[k..];
      InsertedWeight(ps, ms, k, x, m, tie);
    }
  }

  /** A read changes no tie. */
  lemma TiesAfterRead(h: seq<int>, events: seq<Event>, ev: Event, ps: seq<int>)
    requires ValidHierarchy(h) && ev.Read?
    ensures forall i :: 0 <= i < |ps| ==> Ties(h, events + [ev])(ps[i]) == Ties(h, events)(ps[i])
  {
    forall i | 0 <= i < |ps|
      ensures Ties(h, events + [ev])(ps[i]) == Ties(h, events)(ps[i])
    {
      if IsEmployee(h, ps[i]) {
        TieAfterRead(h, events, ev, ps[i]);
      }
    }
  }

  /** A memo changes no tie of a person numbered below its origin. */
  lemma TiesAfterMemoAbove(h: seq<int>, events: seq<Event>, ev: Event, ps: seq<int>)
    requires ValidHierarchy(h) && ev.Memo?
    requires forall i :: 0 <= i < |ps| ==> ps[i] < ev.personNumber
    ensures forall i :: 0 <= i < |ps| ==> Ties(h, events + [ev])(ps[i]) == Ties(h, events)(ps[i])
  {
    forall i | 0 <= i < |ps|
      ensures Ties(h, events + [ev])(ps[i]) == Ties(h, events)(ps[i])
    {
      if IsEmployee(h, ps[i]) {
        TieAfterMemo(h, events, ev, ps[i]);
        if ManagesWithin(h, ev.personNumber, ps[i], ev.importance) {
          ManagesWithinBound(h, ev.personNumber, ps[i], ev.importance);
        }
      }
    }
  }
}
