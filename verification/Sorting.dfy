/** The C library's qsort, as the sources use it: the array is rearranged in place
    into ascending order of a key.  Nothing is promised about the order of equal keys. */
module Sorting {

  ghost predicate Ascending<T>(s: seq<T>, key: T -> real) {
    forall i, j :: 0 <= i < j < |s| ==> key(s[i]) <= key(s[j])
  }

  function Insert<T>(x: T, s: seq<T>, key: T -> real): (r: seq<T>)
    ensures |r| == |s| + 1
    ensures multiset(r) == multiset(s) + multiset{x}
    ensures forall y :: y in r ==> y == x || y in s
  {
    if s == [] || key(x) <= key(s[0]) then
      [x] + s
    else
      assert s == [s[0]] + s[1..];
      [s[0]] + Insert(x, s[1..], key)
  }

  function Sorted<T>(s: seq<T>, key: T -> real): (r: seq<T>)
    ensures |r| == |s|
    ensures multiset(r) == multiset(s)
  {
    if s == [] then []
    else
      assert s == [s[0]] + s[1..];
      Insert(s[0], Sorted(s[1..], key), key)
  }

  lemma {:induction false} InsertAscending<T>(x: T, s: seq<T>, key: T -> real)
    requires Ascending(s, key)
    ensures Ascending(Insert(x, s, key), key)
  {
    if s == [] || key(x) <= key(s[0]) {
    } else {
      var tail := Insert(x, s[1..], key);
      InsertAscending(x, s[1..], key);
      PrependAscending(s[0], tail, key);
    }
  }

  lemma PrependAscending<T>(x: T, s: seq<T>, key: T -> real)
    requires Ascending(s, key)
    requires forall y :: y in s ==> key(x) <= key(y)
    ensures Ascending([x] + s, key)
  {
  }

  lemma {:induction false} SortedAscending<T>(s: seq<T>, key: T -> real)
    ensures Ascending(Sorted(s, key), key)
  {
    if s != [] {
      SortedAscending(s[1..], key);
      InsertAscending(s[0], Sorted(s[1..], key), key);
    }
  }

  /** Sorts the first n elements. */
  method Qsort<T>(a: array<T>, n: nat, key: T -> real)
    requires n <= a.Length
    modifies a
    ensures Ascending(a[..n], key) && a[n..] == old(a[n..])
    ensures multiset(a[..n]) == multiset(old(a[..n]))
  {
    var s := Sorted(a[..n], key);
    SortedAscending(a[..n], key);
    for i := 0 to n
      invariant a[..i] == s[..i] && a[n..] == old(a[n..])
    {
      a[i] := s[i];
    }
    assert a[..n] == s;
  }

  /** A permutation holds exactly the elements it started with. */
  lemma SameElements<T>(s: seq<T>, r: seq<T>)
    requires multiset(s) == multiset(r)
    ensures |s| == |r|
    ensures forall x :: x in s <==> x in r
  {
    assert |multiset(s)| == |s| && |multiset(r)| == |r|;
    forall x
      ensures x in s <==> x in r
    {
      assert x in s <==> x in multiset(s);
      assert x in r <==> x in multiset(r);
    }
  }
}
