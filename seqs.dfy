/** Sequence helpers for Python list operations used by the script. */
module Seqs {

  ghost predicate Distinct<T>(s: seq<T>) {
    forall i, j :: 0 <= i < j < |s| ==> s[i] != s[j]
  }

  /** Python's `list.remove(x)`: drops the first element equal to `x`. */
  function RemoveFirst<T(==)>(s: seq<T>, x: T): (r: seq<T>)
    requires x in s
    ensures |r| == |s| - 1
  {
    if s[0] == x then
      assert s == [s[0]] + s[1..];
      s[1..]
    else
      assert s == [s[0]] + s[1..];
      [s[0]] + RemoveFirst(s[1..], x)
  }

  /** `list.remove(x)` takes exactly one copy of `x` out of the list. */
  lemma {:induction false} RemoveFirstMultiset<T>(s: seq<T>, x: T)
    requires x in s
    ensures multiset(RemoveFirst(s, x)) == multiset(s) - multiset{x}
  {
    assert s == [s[0]] + s[1..];
    if s[0] != x {
      RemoveFirstMultiset(s[1..], x);
    }
  }

  /** In a list of distinct values, removing the element at `k` removes exactly position `k`. */
  lemma {:induction false} RemoveFirstOfDistinct<T>(s: seq<T>, k: nat)
    requires Distinct(s) && k < |s|
    ensures RemoveFirst(s, s[k]) == s[..k] + s[k + 1..]
  {
    if k > 0 {
      var t := s[1..];
      assert t[k - 1] == s[k];
      assert s[0] != s[k];
      assert RemoveFirst(s, s[k]) == [s[0]] + RemoveFirst(t, t[k - 1]);
      DistinctTail(s);
      RemoveFirstOfDistinct(t, k - 1);
      assert [s[0]] + (t[..k - 1] + t[k..]) == s[..k] + s[k + 1..];
    }
  }

  lemma DistinctTail<T>(s: seq<T>)
    requires Distinct(s) && |s| > 0
    ensures Distinct(s[1..])
  {
    var t := s[1..];
    forall i, j | 0 <= i < j < |t| ensures t[i] != t[j] {
      assert t[i] == s[i + 1] && t[j] == s[j + 1];
    }
  }

  lemma DistinctWithout<T>(s: seq<T>, k: nat)
    requires Distinct(s) && k < |s|
    ensures Distinct(s[..k] + s[k + 1..])
  {
    var t := s[..k] + s[k + 1..];
    forall i, j | 0 <= i < j < |t| ensures t[i] != t[j] {
      var i' := if i < k then i else i + 1;
      var j' := if j < k then j else j + 1;
      assert t[i] == s[i'] && t[j] == s[j'] && i' < j';
    }
  }

  /** The elements of `s` whose flag in `keep` is set, in their original order. */
  function Select<T>(s: seq<T>, keep: seq<bool>): (r: seq<T>)
    requires |keep| == |s|
    ensures |r| <= |s|
    ensures multiset(r) <= multiset(s)
  {
    if s == [] then []
    else
      assert s == [s[0]] + s[1..];
      if keep[0] then [s[0]] + Select(s[1..], keep[1..])
      else Select(s[1..], keep[1..])
  }

  /** Selecting keeps every element exactly when every flag is set. */
  lemma SelectAll<T>(s: seq<T>, keep: seq<bool>)
    requires |keep| == |s|
    ensures Select(s, keep) == s <==> forall i :: 0 <= i < |keep| ==> keep[i]
  {
    if forall i :: 0 <= i < |keep| ==> keep[i] {
      SelectAllSet(s, keep);
    } else {
      var i :| 0 <= i < |keep| && !keep[i];
      SelectDrops(s, keep, i);
    }
  }

  lemma {:induction false} SelectAllSet<T>(s: seq<T>, keep: seq<bool>)
    requires |keep| == |s|
    requires forall i :: 0 <= i < |keep| ==> keep[i]
    ensures Select(s, keep) == s
  {
    if s != [] {
      assert keep[0];
      assert forall i :: 0 <= i < |keep[1..]| ==> keep[1..][i] by {
        forall i | 0 <= i < |keep[1..]| ensures keep[1..][i] { assert keep[1..][i] == keep[i + 1]; }
      }
      SelectAllSet(s[1..], keep[1..]);
      assert s == [s[0]] + s[1..];
    }
  }

  /** A cleared flag makes the selection shorter than the sequence. */
  lemma {:induction false} SelectDrops<T>(s: seq<T>, keep: seq<bool>, i: nat)
    requires |keep| == |s| && i < |s| && !keep[i]
    ensures |Select(s, keep)| < |s|
  {
    if i > 0 {
      assert keep[1..][i - 1] == keep[i];
      SelectDrops(s[1..], keep[1..], i - 1);
    } else {
      assert |Select(s[1..], keep[1..])| <= |s| - 1;
    }
  }
}
