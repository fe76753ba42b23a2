/** The kernel's `sort` is called with a three-way comparison on one
    unsigned key (a region's start, a mapping's virtual address). Its code
    is not part of this model; this insertion sort stands in for it and is
    proved to return a permutation of its input in nondecreasing key order,
    which is all its callers rely on. */
module Sorting {

  ghost predicate SortedBy<T>(s: seq<T>, key: T -> nat) {
    forall i, j | 0 <= i < j < |s| :: key(s[i]) <= key(s[j])
  }

  /** The three-way comparison of two keys the callers pass to `sort`:
      -1, 0 or 1. */
  function Compare(a: nat, b: nat): (c: int)
    ensures c == -1 <==> a < b
    ensures c == 0 <==> a == b
    ensures c == 1 <==> a > b
  {
    if a < b then -1 else if a > b then 1 else 0
  }

  /** x inserted into a sorted sequence before the first element with a
      larger key. */
  function Insert<T>(x: T, s: seq<T>, key: T -> nat): (r: seq<T>)
    ensures |r| == |s| + 1
  {
    if s == [] || key(x) <= key(s[0]) then [x] + s
    else [s[0]] + Insert(x, s[1..], key)
  }

  lemma {:induction false} InsertPermutation<T>(x: T, s: seq<T>, key: T -> nat)
    ensures multiset(Insert(x, s, key)) == multiset(s) + multiset{x}
    decreases |s|
  {
    if s != [] && key(x) > key(s[0]) {
      InsertPermutation(x, s[1..], key);
      assert s == [s[0]] + s[1..];
    }
  }

  lemma {:induction false} InsertSorted<T>(x: T, s: seq<T>, key: T -> nat)
    requires SortedBy(s, key)
    ensures SortedBy(Insert(x, s, key), key)
    decreases |s|
  {
    if s != [] && key(x) > key(s[0]) {
      InsertSorted(x, s[1..], key);
      InsertPermutation(x, s[1..], key);
      var r := Insert(x, s, key);
      var t := Insert(x, s[1..], key);
      assert r == [s[0]] + t;
      forall k | 0 <= k < |t|
        ensures key(s[0]) <= key(t[k])
      {
        assert t[k] in multiset(t);
        assert t[k] == x || t[k] in multiset(s[1..]);
        if t[k] != x {
          var m :| 0 <= m < |s[1..]| && s[1..][m] == t[k];
          assert s[1..][m] == s[m + 1];
        }
      }
    }
  }

  /** Insertion sort: a permutation of s in nondecreasing key order. */
  function SortBy<T>(s: seq<T>, key: T -> nat): (r: seq<T>)
    ensures |r| == |s|
  {
    if s == [] then [] else Insert(s[0], SortBy(s[1..], key), key)
  }

  lemma {:induction false} SortByPermutation<T>(s: seq<T>, key: T -> nat)
    ensures multiset(SortBy(s, key)) == multiset(s)
    decreases |s|
  {
    if s != [] {
      SortByPermutation(s[1..], key);
      InsertPermutation(s[0], SortBy(s[1..], key), key);
      assert s == [s[0]] + s[1..];
    }
  }

  lemma {:induction false} SortBySorted<T>(s: seq<T>, key: T -> nat)
    ensures SortedBy(SortBy(s, key), key)
    decreases |s|
  {
    if s != [] {
      SortBySorted(s[1..], key);
      InsertSorted(s[0], SortBy(s[1..], key), key);
    }
  }
}
