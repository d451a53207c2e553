/**
 * The Shallow engine's queue of memos not yet pushed down to everyone they
 * reach. Memos are appended at the end and a memo is expanded in place: its
 * slot is replaced by the memos it hands on to its origin's reports.
 */
module MemoQueues {
  import opened Events

  /**
   * `s` with the slot at `index` replaced by the elements of `sub`, as the
   * slice assignment `s[index:index + 1] = sub`; at `index == |s|` the slot
   * is empty and `sub` is appended.
   */
  function Splice(s: seq<Event>, index: nat, sub: seq<Event>): seq<Event>
    requires index <= |s|
  {
    if index < |s| then s[..index] + sub + s[index + 1..] else s + sub
  }

  /**
   * Splicing keeps the elements before `index`, puts `sub` in order at
   * `index`, and shifts the elements after the replaced slot.
   */
  lemma SpliceShape(s: seq<Event>, index: nat, sub: seq<Event>)
    requires index <= |s|
    ensures |Splice(s, index, sub)| == (if index < |s| then |s| - 1 else |s|) + |sub|
    ensures forall j :: 0 <= j < index ==> Splice(s, index, sub)[j] == s[j]
    ensures forall j :: 0 <= j < |sub| ==> Splice(s, index, sub)[index + j] == sub[j]
    ensures forall j :: index < j < |s| ==> Splice(s, index, sub)[j - 1 + |sub|] == s[j]
  {
    if index < |s| {
      var pre, post := s[..index], s[index + 1..];
      var r := pre + sub + post;
      assert Splice(s, index, sub) == r;
      forall j | 0 <= j < |sub|
        ensures r[index + j] == sub[j]
      {
        assert (pre + sub)[index + j] == sub[j];
      }
      forall j | index < j < |s|
        ensures r[j - 1 + |sub|] == s[j]
      {
        assert post[j - index - 1] == s[j];
      }
    }
  }

  /** Splicing one element in at the end is appending it. */
  lemma SpliceAtEnd(s: seq<Event>, x: Event)
    ensures Splice(s, |s|, [x]) == s + [x]
  {
  }

  class MemoQueue {
    var items: seq<Event>

    constructor ()
      ensures items == []
    {
      items := [];
    }

    method Expand(index: nat, sublist: seq<Event>)
      requires index <= |items|
      modifies this
      ensures items == Splice(old(items), index, sublist)
    {
      if index < |items| {
        items := items[..index] + sublist + items[index + 1..];
      } else {
        items := items + sublist;
      }
    }

    method Append(queuedMemo: Event)
      modifies this
      ensures items == old(items) + [queuedMemo]
    {
      Expand(|items|, [queuedMemo]);
      SpliceAtEnd(old(items), queuedMemo);
    }
  }
}
