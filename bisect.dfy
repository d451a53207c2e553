/** Binary search for the leftmost insertion point, as Python's `bisect.bisect_left`. */
module Bisect {
  predicate Sorted(s: seq<int>) {
    forall i, j :: 0 <= i < j < |s| ==> s[i] <= s[j]
  }

  predicate StrictlyIncreasing(s: seq<int>) {
    forall i, j :: 0 <= i < j < |s| ==> s[i] < s[j]
  }

  /** `k` splits `s` into the elements below `x` and those at least `x`. */
  predicate IsBisectLeft(s: seq<int>, x: int, k: int) {
    && 0 <= k <= |s|
    && (forall j :: 0 <= j < k ==> s[j] < x)
    && (forall j :: k <= j < |s| ==> x <= s[j])
  }

  method BisectLeft(s: seq<int>, x: int) returns (k: nat)
    requires Sorted(s)
    ensures IsBisectLeft(s, x, k)
  {
    var lo, hi := 0, |s|;
    while lo < hi
      invariant 0 <= lo <= hi <= |s|
      invariant forall j :: 0 <= j < lo ==> s[j] < x
      invariant forall j :: hi <= j < |s| ==> x <= s[j]
    {
      var mid := (lo + hi) / 2;
      if s[mid] < x {
        lo := mid + 1;
      } else {
        hi := mid;
      }
    }
    k := lo;
  }

  /** After a bisect, `x` occurs in `s` exactly when it sits at the insertion point. */
  lemma BisectFinds(s: seq<int>, x: int, k: int)
    requires Sorted(s) && IsBisectLeft(s, x, k)
    ensures x in s <==> k < |s| && s[k] == x
  {
    if x in s {
      var j :| 0 <= j < |s| && s[j] == x;
      assert k <= j;
    }
  }

  /** Inserting an absent `x` at its bisect position keeps a list strictly increasing. */
  lemma InsertKeepsIncreasing(s: seq<int>, x: int, k: int)
    requires StrictlyIncreasing(s) && IsBisectLeft(s, x, k)
    requires k == |s| || s[k] != x
    ensures StrictlyIncreasing(s[..k] + [x] + s[k..])
  {
    var t := s[..k] + [x] + s[k..];
    forall i, j | 0 <= i < j < |t|
      ensures t[i] < t[j]
    {
      if j < k {
        assert t[i] == s[i] && t[j] == s[j];
      } else if j == k {
        assert t[i] == s[i];
      } else if i < k {
        assert t[i] == s[i] && t[j] == s[j - 1];
      } else if i == k {
        assert t[j] == s[j - 1] && s[k] > x;
      } else {
        assert t[i] == s[i - 1] && t[j] == s[j - 1];
      }
    }
  }

  /** Removing one element keeps a list strictly increasing and removes exactly that value. */
  lemma RemoveKeepsIncreasing(s: seq<int>, k: int)
    requires StrictlyIncreasing(s) && 0 <= k < |s|
    ensures StrictlyIncreasing(s[..k] + s[k + 1..])
    ensures forall x :: x in s[..k] + s[k + 1..] <==> x in s && x != s[k]
  {
    var t := s[..k] + s[k + 1..];
    forall x | x in s && x != s[k]
      ensures x in t
    {
      var i :| 0 <= i < |s| && s[i] == x;
      if i < k {
        assert t[i] == x;
      } else {
        assert t[i - 1] == x;
      }
    }
    forall i, j | 0 <= i < j < |t|
      ensures t[i] < t[j]
    {
      if j < k {
        assert t[i] == s[i] && t[j] == s[j];
      } else if i < k {
        assert t[i] == s[i] && t[j] == s[j + 1];
      } else {
        assert t[i] == s[i + 1] && t[j] == s[j + 1];
      }
    }
  }
}
