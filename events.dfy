/**
 * Memo and read events, and the reference meaning of an event list that both
 * engines are proved against: a read sees the tie of the latest earlier memo
 * whose origin manages the reader within the memo's importance, or the
 * initial tie 1 when there is none.
 */
module Events {
  import opened Wrappers
  import opened Hierarchy

  /**
   * A memo from `personNumber` sets the tie of everyone at most `importance`
   * hops below them (themselves included); a read adds `multiplier` times the
   * reader's current tie to the total.
   */
  datatype Event =
    | Memo(personNumber: int, importance: int, tie: int)
    | Read(personNumber: int, multiplier: int)

  /**
   * Events as the puzzle reader produces them: every person exists, every
   * importance is non-negative, and every memo tie is non-zero (a zero tie
   * marks a read in the input).
   */
  predicate ValidEvent(h: seq<int>, ev: Event) {
    IsEmployee(h, ev.personNumber) && (ev.Memo? ==> ev.importance >= 0 && ev.tie != 0)
  }

  predicate ValidEvents(h: seq<int>, events: seq<Event>) {
    forall i :: 0 <= i < |events| ==> ValidEvent(h, events[i])
  }

  /** `ev` is a memo that reaches employee `x`. */
  predicate Reaches(h: seq<int>, ev: Event, x: int)
    requires ValidHierarchy(h) && IsEmployee(h, x)
  {
    ev.Memo? && ManagesWithin(h, ev.personNumber, x, ev.importance)
  }

  /** The tie of the latest memo of `events` that reaches `x`, if any. */
  function LatestReach(h: seq<int>, events: seq<Event>, x: int): Option<int>
    requires ValidHierarchy(h) && IsEmployee(h, x)
    decreases |events|
  {
    if events == [] then None
    else
      var last := events[|events| - 1];
      if Reaches(h, last, x) then Some(last.tie)
      else LatestReach(h, events[..|events| - 1], x)
  }

  /**
   * LatestReach finds nothing exactly when no memo reaches `x`, and otherwise
   * the tie of a reaching memo that no later memo overrides.
   */
  lemma {:induction false} LatestReachIsLatest(h: seq<int>, events: seq<Event>, x: int)
    requires ValidHierarchy(h) && IsEmployee(h, x)
    ensures LatestReach(h, events, x).None? <==> forall i :: 0 <= i < |events| ==> !Reaches(h, events[i], x)
    ensures LatestReach(h, events, x).Some? ==>
      exists i :: 0 <= i < |events| && Reaches(h, events[i], x) && events[i].tie == LatestReach(h, events, x).value &&
        (forall j :: i < j < |events| ==> !Reaches(h, events[j], x))
    decreases |events|
  {
    if events != [] {
      var n := |events| - 1;
      var prefix := events[..n];
      LatestReachIsLatest(h, prefix, x);
      if Reaches(h, events[n], x) {
        assert Reaches(h, events[n], x) && events[n].tie == LatestReach(h, events, x).value;
      } else {
        assert forall i :: 0 <= i < n ==> events[i] == prefix[i];
        if LatestReach(h, prefix, x).Some? {
          var i :| 0 <= i < n && Reaches(h, prefix[i], x) && prefix[i].tie == LatestReach(h, prefix, x).value &&
            (forall j :: i < j < n ==> !Reaches(h, prefix[j], x));
          assert Reaches(h, events[i], x) && events[i].tie == LatestReach(h, events, x).value;
        }
      }
    }
  }

  /** The tie employee `x` holds after `events`: every tie starts at 1. */
  function TieAt(h: seq<int>, events: seq<Event>, x: int): int
    requires ValidHierarchy(h) && IsEmployee(h, x)
  {
    match LatestReach(h, events, x)
    case Some(tie) => tie
    case None => 1
  }

  /** The sum over the reads of `events` of multiplier times the tie read. */
  function ExpectedTotal(h: seq<int>, events: seq<Event>): int
    requires ValidHierarchy(h) && ValidEvents(h, events)
    decreases |events|
  {
    if events == [] then 0
    else
      var prefix := events[..|events| - 1];
      var last := events[|events| - 1];
      ExpectedTotal(h, prefix) +
        if last.Read? then last.multiplier * TieAt(h, prefix, last.personNumber) else 0
  }

  /** The latest reaching memo of a concatenation comes from its second part if it can. */
  lemma {:induction false} LatestReachAppend(h: seq<int>, a: seq<Event>, b: seq<Event>, x: int)
    requires ValidHierarchy(h) && IsEmployee(h, x)
    ensures LatestReach(h, a + b, x) ==
      if LatestReach(h, b, x).Some? then LatestReach(h, b, x) else LatestReach(h, a, x)
    decreases |b|
  {
    if b != [] {
      var n := |b| - 1;
      assert (a + b)[..|a + b| - 1] == a + b[..n];
      assert (a + b)[|a + b| - 1] == b[n];
      LatestReachAppend(h, a, b[..n], x);
    } else {
      assert a + b == a;
    }
  }

  /** Memos whose origins all have numbers above `x` cannot reach `x`. */
  lemma LatestReachAbove(h: seq<int>, events: seq<Event>, x: int)
    requires ValidHierarchy(h) && IsEmployee(h, x)
    requires forall i :: 0 <= i < |events| ==> events[i].personNumber > x
    ensures LatestReach(h, events, x) == None
  {
    forall i | 0 <= i < |events| && Reaches(h, events[i], x)
      ensures false
    {
      ManagesWithinBound(h, events[i].personNumber, x, events[i].importance);
    }
    LatestReachIsLatest(h, events, x);
  }

  /** A read does not change any tie. */
  lemma TieAfterRead(h: seq<int>, events: seq<Event>, ev: Event, x: int)
    requires ValidHierarchy(h) && IsEmployee(h, x) && ev.Read?
    ensures TieAt(h, events + [ev], x) == TieAt(h, events, x)
  {
    assert (events + [ev])[..|events|] == events;
  }

  /** A memo sets the tie of exactly the employees it reaches. */
  lemma TieAfterMemo(h: seq<int>, events: seq<Event>, ev: Event, x: int)
    requires ValidHierarchy(h) && IsEmployee(h, x) && ev.Memo?
    ensures TieAt(h, events + [ev], x) ==
      if ManagesWithin(h, ev.personNumber, x, ev.importance) then ev.tie else TieAt(h, events, x)
  {
    assert (events + [ev])[..|events|] == events;
  }

  /** A list that is consumed from its end, as `event_queue.pop()` does. */
  class EventList {
    var items: seq<Event>

    constructor (events: seq<Event>)
      ensures items == events
    {
      items := events;
    }

    method Pop() returns (last: Event)
      requires items != []
      modifies this
      ensures last == old(items)[|old(items)| - 1]
      ensures items == old(items)[..|old(items)| - 1]
    {
      last := items[|items| - 1];
      items := items[..|items| - 1];
    }
  }

  // ---------------------------------------------------------------------
  // Worked examples
  // ---------------------------------------------------------------------

  /** No events, no reads: the total is 0. */
  lemma EmptyEventsTotal(h: seq<int>)
    requires ValidHierarchy(h)
    ensures ExpectedTotal(h, []) == 0
  {
  }

  /** A chain 1 <- 2 <- 3: a memo from 1 with importance 2 reaches 3. */
  lemma ChainExample()
    ensures ExpectedTotal([1, 2], [Memo(1, 2, 7), Read(3, 1)]) == 7
  {
    var h, events := [1, 2], [Memo(1, 2, 7), Read(3, 1)];
    assert events[..1] == [Memo(1, 2, 7)];
    assert ManagesWithin(h, 1, 3, 2) by {
      assert ManagesWithin(h, 1, 2, 1);
    }
    assert LatestReach(h, events[..1], 3) == Some(7);
    assert ExpectedTotal(h, events[..1]) == 0;
  }

  /** A memo with importance 0 reaches only its origin. */
  lemma ImportanceZeroExample()
    ensures ExpectedTotal([1, 1], [Memo(1, 0, 9), Read(2, 1)]) == 1
  {
    var h, events := [1, 1], [Memo(1, 0, 9), Read(2, 1)];
    assert events[..1] == [Memo(1, 0, 9)];
    assert !ManagesWithin(h, 1, 2, 0);
    assert LatestReach(h, events[..1][..0], 2) == None;
    assert LatestReach(h, events[..1], 2) == None;
    assert ExpectedTotal(h, events[..1]) == 0;
  }

  /** Of two memos reaching a reader, the later one wins. */
  lemma OverridingExample()
    ensures ExpectedTotal([1, 1], [Memo(1, 2, 3), Memo(1, 2, 8), Read(2, 1)]) == 8
  {
    var h, events := [1, 1], [Memo(1, 2, 3), Memo(1, 2, 8), Read(2, 1)];
    assert events[..2] == [Memo(1, 2, 3), Memo(1, 2, 8)];
    assert events[..2][..1] == [Memo(1, 2, 3)];
    assert ManagesWithin(h, 1, 2, 2);
    assert LatestReach(h, events[..2], 2) == Some(8);
    assert ExpectedTotal(h, events[..2]) == 0 by {
      assert ExpectedTotal(h, events[..2][..1]) == 0;
    }
  }
}
