/** Insertion sort by an integer key. */
module Sorting {

  ghost predicate SortedBy<T>(a: seq<T>, key: T -> int) {
    forall i, j :: 0 <= i < j < |a| ==> key(a[i]) <= key(a[j])
  }

  function Inserted<T>(a: seq<T>, p: nat, s: T): (r: seq<T>)
    requires p <= |a|
    ensures |r| == |a| + 1
    ensures multiset(r) == multiset(a) + multiset{s}
  {
    assert a == a[..p] + a[p..];
    a[..p] + [s] + a[p..]
  }

  lemma InsertedSorted<T>(a: seq<T>, p: nat, s: T, key: T -> int)
    requires p <= |a| && SortedBy(a, key)
    requires forall q :: 0 <= q < p ==> key(a[q]) <= key(s)
    requires forall q :: p <= q < |a| ==> key(s) <= key(a[q])
    ensures SortedBy(Inserted(a, p, s), key)
  {
    var b := Inserted(a, p, s);
    forall i, j | 0 <= i < j < |b| ensures key(b[i]) <= key(b[j]) {
      assert b[i] == if i < p then a[i] else if i == p then s else a[i - 1];
      assert b[j] == if j < p then a[j] else if j == p then s else a[j - 1];
    }
  }

  method SortBy<T>(a: seq<T>, key: T -> int) returns (sorted: seq<T>)
    ensures SortedBy(sorted, key) && |sorted| == |a|
    ensures multiset(sorted) == multiset(a)
  {
    sorted := [];
    for i := 0 to |a|
      invariant SortedBy(sorted, key) && |sorted| == i
      invariant multiset(sorted) == multiset(a[..i])
    {
      var p := InsertionPoint(sorted, a[i], key);
      InsertedSorted(sorted, p, a[i], key);
      sorted := Inserted(sorted, p, a[i]);
      assert a[..i + 1] == a[..i] + [a[i]];
    }
    assert a[..|a|] == a;
  }

  method InsertionPoint<T>(a: seq<T>, s: T, key: T -> int) returns (p: nat)
    requires SortedBy(a, key)
    ensures p <= |a|
    ensures forall q :: 0 <= q < p ==> key(a[q]) <= key(s)
    ensures forall q :: p <= q < |a| ==> key(s) <= key(a[q])
  {
    p := 0;
    while p < |a| && key(a[p]) <= key(s)
      invariant p <= |a|
      invariant forall q :: 0 <= q < p ==> key(a[q]) <= key(s)
    {
      p := p + 1;
    }
  }
}
