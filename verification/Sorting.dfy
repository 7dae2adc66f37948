/**
 Insertion sort by an order given as a function; it stands for the library sort wherever the original calls it.
 */
module Sorting {

  /** x put into its place: after everything at the front that comes before it or ties with it. */
  function Inserted<T>(xs: seq<T>, x: T, before: (T, T) -> bool): (r: seq<T>)
    ensures multiset(r) == multiset(xs) + multiset{x} && |r| == |xs| + 1
  {
    if xs == [] || before(xs[|xs| - 1], x) then xs + [x]
    else
      assert xs == xs[..|xs| - 1] + [xs[|xs| - 1]];
      Inserted(xs[..|xs| - 1], x, before) + [xs[|xs| - 1]]
  }

  function Sorted<T>(xs: seq<T>, before: (T, T) -> bool): (r: seq<T>)
    ensures multiset(r) == multiset(xs) && |r| == |xs|
  {
    if xs == [] then []
    else
      assert xs == xs[..|xs| - 1] + [xs[|xs| - 1]];
      Inserted(Sorted(xs[..|xs| - 1], before), xs[|xs| - 1], before)
  }

  /** Ties allowed. */
  ghost predicate Ordered<T>(xs: seq<T>, before: (T, T) -> bool) {
    forall i, j :: 0 <= i < j < |xs| ==> before(xs[i], xs[j])
  }

  ghost predicate TotalOrder<T(!new)>(before: (T, T) -> bool) {
    && (forall a, b :: before(a, b) || before(b, a))
    && (forall a, b, c :: before(a, b) && before(b, c) ==> before(a, c))
  }

  lemma SameElements<T>(a: seq<T>, b: seq<T>, x: T)
    requires multiset(a) == multiset(b)
    ensures x in a <==> x in b
  {
    assert x in a <==> x in multiset(a);
  }

  /** Where a member of an insertion came from. */
  lemma InsertedMember<T>(xs: seq<T>, x: T, before: (T, T) -> bool, i: nat) returns (k: nat)
    requires i <= |xs|
    ensures k <= |xs| && Inserted(xs, x, before)[i] == if k < |xs| then xs[k] else x
  {
    var r := Inserted(xs, x, before);
    assert multiset(r) == multiset(xs) + multiset{x};
    hide Inserted;
    assert r[i] in multiset(r);
    if r[i] == x {
      k := |xs|;
    } else {
      assert r[i] in xs;
      k :| 0 <= k < |xs| && xs[k] == r[i];
    }
  }

  lemma {:induction false} InsertedIsOrdered<T(!new)>(xs: seq<T>, x: T, before: (T, T) -> bool)
    requires TotalOrder(before) && Ordered(xs, before)
    ensures Ordered(Inserted(xs, x, before), before)
  {
    if xs != [] && !before(xs[|xs| - 1], x) {
      var n := |xs| - 1;
      InsertedIsOrdered(xs[..n], x, before);
      var r := Inserted(xs[..n], x, before);
      assert Inserted(xs, x, before) == r + [xs[n]];
      hide Inserted;
      forall i | 0 <= i < |r| ensures before(r[i], xs[n]) { var k := InsertedMember(xs[..n], x, before, i); }
    }
  }

  /** Sorting gives the same elements in order. */
  lemma {:induction false} SortedIsOrdered<T(!new)>(xs: seq<T>, before: (T, T) -> bool)
    requires TotalOrder(before)
    ensures Ordered(Sorted(xs, before), before)
    ensures forall x :: x in Sorted(xs, before) <==> x in xs
  {
    forall x ensures x in Sorted(xs, before) <==> x in xs { SameElements(Sorted(xs, before), xs, x); }
    if xs != [] {
      SortedIsOrdered(xs[..|xs| - 1], before);
      InsertedIsOrdered(Sorted(xs[..|xs| - 1], before), xs[|xs| - 1], before);
    }
  }

  ghost predicate Distinct<T, K>(xs: seq<T>, key: T -> K) {
    forall i, j :: 0 <= i < j < |xs| ==> key(xs[i]) != key(xs[j])
  }

  lemma {:induction false} InsertedKeepsDistinct<T, K>(xs: seq<T>, x: T, before: (T, T) -> bool, key: T -> K)
    requires Distinct(xs + [x], key)
    ensures Distinct(Inserted(xs, x, before), key)
  {
    assert forall i :: 0 <= i < |xs| ==> (xs + [x])[i] == xs[i];
    if xs != [] && !before(xs[|xs| - 1], x) {
      var n := |xs| - 1;
      assert (xs + [x])[|xs|] == x;
      InsertedKeepsDistinct(xs[..n], x, before, key);
      var r := Inserted(xs[..n], x, before);
      assert Inserted(xs, x, before) == r + [xs[n]];
      hide Inserted;
      forall i | 0 <= i < |r| ensures key(r[i]) != key(xs[n]) { var k := InsertedMember(xs[..n], x, before, i); }
    }
  }

  lemma RearrangedFrontKeepsDistinct<T, K>(xs: seq<T>, n: nat, front: seq<T>, key: T -> K)
    requires |xs| == n + 1 && Distinct(xs, key) && Distinct(front, key) && multiset(front) == multiset(xs[..n])
    ensures Distinct(front + [xs[n]], key)
  {
    forall i | 0 <= i < |front| ensures key(front[i]) != key(xs[n]) {
      SameElements(front, xs[..n], front[i]);
      assert front[i] in front && front[i] in xs[..n];
    }
  }

  lemma {:induction false} SortedKeepsDistinct<T, K>(xs: seq<T>, before: (T, T) -> bool, key: T -> K)
    requires Distinct(xs, key)
    ensures Distinct(Sorted(xs, before), key)
  {
    if xs != [] {
      var n := |xs| - 1;
      var front := Sorted(xs[..n], before);
      assert Distinct(xs[..n], key);
      assert Sorted(xs, before) == Inserted(front, xs[n], before);
      hide Sorted, Inserted, Distinct;
      SortedKeepsDistinct(xs[..n], before, key);
      RearrangedFrontKeepsDistinct(xs, n, front, key);
      InsertedKeepsDistinct(front, xs[n], before, key);
    }
  }

  method SortBy<T>(xs: seq<T>, before: (T, T) -> bool) returns (r: seq<T>)
    ensures r == Sorted(xs, before)
  {
    hide Inserted;
    r := [];
    for i := 0 to |xs|
      invariant r == Sorted(xs[..i], before)
    {
      assert xs[..i + 1][..i] == xs[..i];
      r := Insert(r, xs[i], before);
    }
    assert xs[..|xs|] == xs;
  }

  method Insert<T>(xs: seq<T>, x: T, before: (T, T) -> bool) returns (r: seq<T>)
    ensures r == Inserted(xs, x, before)
  {
    hide Inserted;
    var k := |xs|;
    assert xs[..k] == xs && xs[k..] == [];
    while k > 0 && !before(xs[k - 1], x)
      invariant k <= |xs| && Inserted(xs, x, before) == Inserted(xs[..k], x, before) + xs[k..]
    {
      InsertsBefore(xs, x, before, k);
      k := k - 1;
    }
    InsertsHere(xs[..k], x, before);
    r := xs[..k] + [x] + xs[k..];
  }

  lemma InsertsBefore<T>(xs: seq<T>, x: T, before: (T, T) -> bool, k: nat)
    requires 0 < k <= |xs| && !before(xs[k - 1], x)
    ensures Inserted(xs[..k], x, before) + xs[k..] == Inserted(xs[..k - 1], x, before) + xs[k - 1..]
  {
    var front := xs[..k];
    assert front[..k - 1] == xs[..k - 1];
    assert Inserted(front, x, before) == Inserted(front[..k - 1], x, before) + [xs[k - 1]];
    hide Inserted;
    assert xs[k - 1..] == [xs[k - 1]] + xs[k..];
  }

  lemma InsertsHere<T>(front: seq<T>, x: T, before: (T, T) -> bool)
    requires front == [] || before(front[|front| - 1], x)
    ensures Inserted(front, x, before) == front + [x]
  {
  }
}
