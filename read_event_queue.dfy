/**
 * The Deep engine's pending reads: two parallel lists, person numbers kept
 * strictly increasing so that they can be searched with bisect, and the
 * multiplier accumulated for each person.
 */
module ReadEvents {
  import opened Bisect
  import opened Events

  /**
   * `ps'`/`ms'` is `ps`/`ms` after adding `readEvent` at bisect position `k`:
   * a person already queued there gets the multiplier added, otherwise one
   * entry is inserted at `k`.
   */
  ghost predicate AddedAt(ps: seq<int>, ms: seq<int>, readEvent: Event, k: int, ps': seq<int>, ms': seq<int>)
    requires |ps| == |ms| && readEvent.Read?
  {
    IsBisectLeft(ps, readEvent.personNumber, k) &&
    if k < |ps| && ps[k] == readEvent.personNumber then
      ps' == ps && ms' == ms[k := ms[k] + readEvent.multiplier]
    else
      && ps' == ps[..k] + [readEvent.personNumber] + ps[k..]
      && ms' == ms[..k] + [readEvent.multiplier] + ms[k..]
  }

  class ReadEventQueue {
    var personNumbers: seq<int>
    var multipliers: seq<int>

    /** Both lists have the same length and no person is queued twice. */
    ghost predicate Valid()
      reads this
    {
      |personNumbers| == |multipliers| && StrictlyIncreasing(personNumbers)
    }

    constructor ()
      ensures Valid() && personNumbers == [] && multipliers == []
    {
      personNumbers := [];
      multipliers := [];
    }

    function Length(): nat
      reads this
    {
      |personNumbers|
    }

    /** The pending read at `index`. */
    function Get(index: nat): Event
      requires Valid() && index < |personNumbers|
      reads this
    {
      Read(personNumbers[index], multipliers[index])
    }

    /**
     * A read for a person already queued adds its multiplier to that entry;
     * otherwise one entry is inserted at the bisect position.
     */
    method AddEvent(readEvent: Event)
      requires Valid() && readEvent.Read?
      modifies this
      ensures Valid()
      ensures exists k :: AddedAt(old(personNumbers), old(multipliers), readEvent, k, personNumbers, multipliers)
      ensures forall x :: x in personNumbers <==> x in old(personNumbers) || x == readEvent.personNumber
    {
      var index := BisectLeft(personNumbers, readEvent.personNumber);
      if index != |personNumbers| && personNumbers[index] == readEvent.personNumber {
        multipliers := multipliers[index := multipliers[index] + readEvent.multiplier];
      } else {
        InsertKeepsIncreasing(personNumbers, readEvent.personNumber, index);
        assert personNumbers == personNumbers[..index] + personNumbers[index..];
        personNumbers := personNumbers[..index] + [readEvent.personNumber] + personNumbers[index..];
        multipliers := multipliers[..index] + [readEvent.multiplier] + multipliers[index..];
      }
      assert AddedAt(old(personNumbers), old(multipliers), readEvent, index, personNumbers, multipliers);
    }

    /** Removes entry `index` from both lists, keeping the others in order. */
    method Pop(index: nat)
      requires Valid() && index < |personNumbers|
      modifies this
      ensures Valid()
      ensures personNumbers == old(personNumbers[..index] + personNumbers[index + 1..])
      ensures multipliers == old(multipliers[..index] + multipliers[index + 1..])
      ensures forall x :: x in personNumbers <==> x in old(personNumbers) && x != old(personNumbers[index])
    {
      RemoveKeepsIncreasing(personNumbers, index);
      personNumbers := personNumbers[..index] + personNumbers[index + 1..];
      multipliers := multipliers[..index] + multipliers[index + 1..];
    }
  }
}
