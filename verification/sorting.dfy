/**
  The two slice algorithms of the Rust standard library that the tree
  relies on: sorting by a key (`sort_by`) and finding the position of a key
  in a sorted sequence (`binary_search_by`).
*/
module Sorting {

  ghost predicate SortedBy<T>(s: seq<T>, key: T -> int) {
    forall i, j :: 0 <= i < j < |s| ==> key(s[i]) <= key(s[j])
  }

  /** Inserts `x` in front of the first element whose key is not smaller. */
  function InsertByKey<T>(s: seq<T>, x: T, key: T -> int): (r: seq<T>)
    requires SortedBy(s, key)
    ensures |r| == |s| + 1
    ensures multiset(r) == multiset(s) + multiset{x}
    ensures r[0] == x || (|s| > 0 && r[0] == s[0])
    ensures SortedBy(r, key)
  {
    if s == [] || key(x) <= key(s[0]) then
      SortedCons(x, s, key);
      [x] + s
    else
      assert s == [s[0]] + s[1..];
      var t := InsertByKey(s[1..], x, key);
      SortedCons(s[0], t, key);
      [s[0]] + t
  }

  /** Putting an element no greater than the head in front keeps a sequence sorted. */
  lemma SortedCons<T>(h: T, t: seq<T>, key: T -> int)
    requires SortedBy(t, key)
    requires |t| > 0 ==> key(h) <= key(t[0])
    ensures SortedBy([h] + t, key)
  {
    var r := [h] + t;
    forall i, j | 0 <= i < j < |r| ensures key(r[i]) <= key(r[j]) {
      if i > 0 {
        assert r[i] == t[i - 1] && r[j] == t[j - 1];
      } else {
        assert r[j] == t[j - 1];
      }
    }
  }

  /**
    `sort_by`: the result holds the same elements, ordered by `key`.
    (The standard library's sort is stable; stability is not modelled.)
  */
  method SortBy<T>(s: seq<T>, key: T -> int) returns (r: seq<T>)
    ensures multiset(r) == multiset(s)
    ensures SortedBy(r, key)
  {
    r := [];
    for i := 0 to |s|
      invariant multiset(r) == multiset(s[..i])
      invariant SortedBy(r, key)
    {
      assert s[..i + 1] == s[..i] + [s[i]];
      r := InsertByKey(r, s[i], key);
    }
    assert s[..|s|] == s;
  }

  /**
    `sort_by` followed by `split_off`: the elements of `s` ordered by `key`
    and cut so that the last `count` of them are the ones with the largest
    keys.
  */
  method SplitOffLargest<T>(s: seq<T>, key: T -> int, count: nat) returns (kept: seq<T>, rest: seq<T>)
    requires count <= |s|
    ensures |rest| == count && |kept| == |s| - count
    ensures multiset(kept + rest) == multiset(s)
    ensures forall a, b :: a in kept && b in rest ==> key(a) <= key(b)
  {
    var sorted := SortBy(s, key);
    assert |sorted| == |multiset(sorted)| == |s|;
    var keep := |sorted| - count;
    kept, rest := sorted[..keep], sorted[keep..];
    assert kept + rest == sorted;
    SortedCut(sorted, key, keep);
  }

  /** Cutting a sorted sequence leaves no key of the front above a key of the back. */
  lemma SortedCut<T>(s: seq<T>, key: T -> int, k: nat)
    requires SortedBy(s, key) && k <= |s|
    ensures forall a, b :: a in s[..k] && b in s[k..] ==> key(a) <= key(b)
  {
    forall a, b | a in s[..k] && b in s[k..] ensures key(a) <= key(b) {
      var front, back := s[..k], s[k..];
      var i :| 0 <= i < |front| && front[i] == a;
      var j :| 0 <= j < |back| && back[j] == b;
      assert front[i] == s[i] && back[j] == s[k + j];
    }
  }

  /**
    `binary_search_by` followed by taking the index of either outcome: a
    position at which `k` can be inserted keeping the sequence sorted.
  */
  method InsertionPoint<T>(s: seq<T>, key: T -> int, k: int) returns (index: nat)
    requires SortedBy(s, key)
    ensures index <= |s|
    ensures forall i :: 0 <= i < index ==> key(s[i]) <= k
    ensures forall i :: index <= i < |s| ==> k <= key(s[i])
  {
    var lo, hi := 0, |s|;
    while lo < hi
      invariant 0 <= lo <= hi <= |s|
      invariant forall i :: 0 <= i < lo ==> key(s[i]) < k
      invariant forall i :: hi <= i < |s| ==> k < key(s[i])
    {
      var mid := lo + (hi - lo) / 2;
      if key(s[mid]) < k {
        lo := mid + 1;
      } else if k < key(s[mid]) {
        hi := mid;
      } else {
        return mid;
      }
    }
    index := lo;
  }

  /** Inserting at such a position keeps the sequence sorted. */
  lemma InsertAtPointSorted<T>(s: seq<T>, key: T -> int, index: nat, x: T)
    requires SortedBy(s, key) && index <= |s|
    requires forall i :: 0 <= i < index ==> key(s[i]) <= key(x)
    requires forall i :: index <= i < |s| ==> key(x) <= key(s[i])
    ensures SortedBy(s[..index] + [x] + s[index..], key)
  {
    var r := s[..index] + [x] + s[index..];
    assert forall i :: 0 <= i < index ==> r[i] == s[i];
    assert r[index] == x;
    assert forall i :: index < i < |r| ==> r[i] == s[i - 1];
  }

  /** Inserting adds exactly the inserted element. */
  lemma InsertAtPointMultiset<T>(s: seq<T>, index: nat, x: T)
    requires index <= |s|
    ensures multiset(s[..index] + [x] + s[index..]) == multiset(s) + multiset{x}
  {
    assert s == s[..index] + s[index..];
  }
}
