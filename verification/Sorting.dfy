/** The stable sort by a key that the median, the ranking of projects and the waterfall share: each
    element in turn goes behind all those before it whose key is at most its own. */
module Sorting {

  function Inserted<T>(s: seq<T>, x: T, key: T -> int): (r: seq<T>)
    ensures |r| == |s| + 1
  {
    if s == [] || key(s[|s| - 1]) <= key(x) then s + [x]
    else Inserted(s[..|s| - 1], x, key) + [s[|s| - 1]]
  }

  function Sorted<T>(s: seq<T>, key: T -> int): (r: seq<T>)
    ensures |r| == |s|
  {
    if s == [] then [] else Inserted(Sorted(s[..|s| - 1], key), s[|s| - 1], key)
  }

  ghost predicate Ascending<T>(s: seq<T>, key: T -> int) {
    forall i, j :: 0 <= i < j < |s| ==> key(s[i]) <= key(s[j])
  }

  // ----- Where an element goes

  /** The place of x among the first n elements, looking from the right. */
  function Place<T>(s: seq<T>, x: T, key: T -> int, n: nat): (p: nat)
    requires n <= |s|
    ensures p <= n
  {
    if n == 0 || key(s[n - 1]) <= key(x) then n else Place(s, x, key, n - 1)
  }

  lemma {:induction false} InsertedAtPlace<T>(s: seq<T>, x: T, key: T -> int, n: nat)
    requires n <= |s|
    ensures var p := Place(s, x, key, n); Inserted(s[..n], x, key) == s[..p] + [x] + s[p..n]
    ensures forall i :: Place(s, x, key, n) <= i < n ==> key(s[i]) > key(x)
  {
    if n > 0 && key(s[n - 1]) > key(x) {
      InsertedAtPlace(s, x, key, n - 1);
      assert s[..n][..n - 1] == s[..n - 1];
      var p := Place(s, x, key, n);
      assert s[p..n - 1] + [s[n - 1]] == s[p..n];
    }
  }

  // ----- The result is in order and holds what it was given

  lemma {:induction false} InsertedFrom<T>(s: seq<T>, x: T, key: T -> int, i: nat)
    requires i <= |s|
    ensures Inserted(s, x, key)[i] == x || Inserted(s, x, key)[i] in s
    decreases |s|
  {
    if s != [] && key(x) < key(s[|s| - 1]) && i < |s| {
      InsertedFrom(s[..|s| - 1], x, key, i);
    }
  }

  lemma {:induction false} InsertedAscends<T>(s: seq<T>, x: T, key: T -> int)
    requires Ascending(s, key)
    ensures Ascending(Inserted(s, x, key), key)
    decreases |s|
  {
    if s != [] && key(x) < key(s[|s| - 1]) {
      var front, last := s[..|s| - 1], s[|s| - 1];
      InsertedAscends(front, x, key);
      var r := Inserted(front, x, key);
      forall i | 0 <= i < |r|
        ensures key(r[i]) <= key(last)
      {
        InsertedFrom(front, x, key, i);
      }
    }
  }

  lemma {:induction false} InsertedHoldsAll<T>(s: seq<T>, x: T, key: T -> int)
    ensures multiset(Inserted(s, x, key)) == multiset(s) + multiset{x}
    decreases |s|
  {
    if s != [] && key(x) < key(s[|s| - 1]) {
      InsertedHoldsAll(s[..|s| - 1], x, key);
      assert s == s[..|s| - 1] + [s[|s| - 1]];
    }
  }

  /** The result is in ascending order of the key and holds exactly the elements it was given. */
  lemma {:induction false} SortedIsASort<T>(s: seq<T>, key: T -> int)
    ensures Ascending(Sorted(s, key), key)
    ensures multiset(Sorted(s, key)) == multiset(s)
    decreases |s|
  {
    if s != [] {
      var front := s[..|s| - 1];
      SortedIsASort(front, key);
      InsertedAscends(Sorted(front, key), s[|s| - 1], key);
      InsertedHoldsAll(Sorted(front, key), s[|s| - 1], key);
      assert s == front + [s[|s| - 1]];
    }
  }

  lemma SortedMembers<T>(s: seq<T>, key: T -> int)
    ensures forall x :: x in Sorted(s, key) <==> x in s
  {
    SortedIsASort(s, key);
    forall x
      ensures x in Sorted(s, key) <==> x in s
    {
      assert x in Sorted(s, key) <==> x in multiset(Sorted(s, key));
    }
  }

  /** What is in order already stays as it is. */
  lemma {:induction false} SortedOfAscending<T>(s: seq<T>, key: T -> int)
    requires Ascending(s, key)
    ensures Sorted(s, key) == s
    decreases |s|
  {
    if s != [] {
      SortedOfAscending(s[..|s| - 1], key);
    }
  }
}
