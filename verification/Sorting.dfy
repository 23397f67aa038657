/** Stable sorting by insertion, for the places where the program sorts records. */
module Sorting {

  predicate Ordered<T>(notAfter: (T, T) -> bool, xs: seq<T>) {
    forall i :: 0 < i < |xs| ==> notAfter(xs[i - 1], xs[i])
  }

  /** Inserts behind every element that need not come after `x`. */
  function Insert<T>(notAfter: (T, T) -> bool, xs: seq<T>, x: T): seq<T> {
    if xs == [] || notAfter(xs[|xs| - 1], x) then xs + [x]
    else Insert(notAfter, xs[..|xs| - 1], x) + [xs[|xs| - 1]]
  }

  /** The stable sort. */
  function Sort<T>(notAfter: (T, T) -> bool, xs: seq<T>): seq<T> {
    if xs == [] then [] else Insert(notAfter, Sort(notAfter, xs[..|xs| - 1]), xs[|xs| - 1])
  }

  /** Of any two elements, one need not come after the other. */
  ghost predicate TotalOn<T>(notAfter: (T, T) -> bool, xs: seq<T>) {
    forall i, j :: 0 <= i < |xs| && 0 <= j < |xs| ==> notAfter(xs[i], xs[j]) || notAfter(xs[j], xs[i])
  }

  lemma {:induction false} InsertKeepsAll<T>(notAfter: (T, T) -> bool, xs: seq<T>, x: T)
    ensures multiset(Insert(notAfter, xs, x)) == multiset(xs) + multiset{x}
  {
    if xs != [] && !notAfter(xs[|xs| - 1], x) {
      var n := |xs| - 1;
      InsertKeepsAll(notAfter, xs[..n], x);
      assert xs == xs[..n] + [xs[n]];
    }
  }

  lemma {:induction false} InsertOrders<T>(notAfter: (T, T) -> bool, xs: seq<T>, x: T)
    requires Ordered(notAfter, xs) && TotalOn(notAfter, xs + [x])
    ensures Ordered(notAfter, Insert(notAfter, xs, x)) && Insert(notAfter, xs, x) != []
    ensures var r := Insert(notAfter, xs, x); r[|r| - 1] == x || (xs != [] && r[|r| - 1] == xs[|xs| - 1])
  {
    if xs != [] && !notAfter(xs[|xs| - 1], x) {
      var n := |xs| - 1;
      assert xs[..n] + [x] == (xs + [x])[..n] + [(xs + [x])[n + 1]];
      assert (xs + [x])[n] == xs[n] && (xs + [x])[n + 1] == x;
      InsertOrders(notAfter, xs[..n], x);
    }
  }

  /** The sort is a permutation, and ordered when any two elements can be compared. */
  lemma {:induction false} SortOrders<T>(notAfter: (T, T) -> bool, xs: seq<T>)
    ensures multiset(Sort(notAfter, xs)) == multiset(xs) && |Sort(notAfter, xs)| == |xs|
    ensures TotalOn(notAfter, xs) ==> Ordered(notAfter, Sort(notAfter, xs))
  {
    hide Insert;
    if xs != [] {
      var n := |xs| - 1;
      var front := Sort(notAfter, xs[..n]);
      assert xs == xs[..n] + [xs[n]];
      SortOrders(notAfter, xs[..n]);
      InsertKeepsAll(notAfter, front, xs[n]);
      assert |Sort(notAfter, xs)| == |multiset(Sort(notAfter, xs))| == |multiset(xs)|;
      if TotalOn(notAfter, xs) {
        assert TotalOn(notAfter, xs[..n]);
        TotalOnPermuted(notAfter, xs, front + [xs[n]]);
        InsertOrders(notAfter, front, xs[n]);
      }
    }
  }

  lemma Occurs<T>(xs: seq<T>, ys: seq<T>, i: nat) returns (k: nat)
    requires multiset(xs) == multiset(ys) && i < |ys|
    ensures k < |xs| && xs[k] == ys[i]
  {
    assert ys[i] in multiset(xs);
    k :| k < |xs| && xs[k] == ys[i];
  }

  lemma TotalOnPermuted<T>(notAfter: (T, T) -> bool, xs: seq<T>, ys: seq<T>)
    requires multiset(xs) == multiset(ys) && TotalOn(notAfter, xs)
    ensures TotalOn(notAfter, ys)
  {
    forall i, j | 0 <= i < |ys| && 0 <= j < |ys|
      ensures notAfter(ys[i], ys[j]) || notAfter(ys[j], ys[i])
    {
      var k := Occurs(xs, ys, i);
      var l := Occurs(xs, ys, j);
    }
  }

  // ----- stability

  function Filter<T>(keep: T -> bool, xs: seq<T>): seq<T> {
    if xs == [] then []
    else
      var n := |xs| - 1;
      Filter(keep, xs[..n]) + if keep(xs[n]) then [xs[n]] else []
  }

  lemma FilterLast<T>(keep: T -> bool, xs: seq<T>, x: T)
    ensures Filter(keep, xs + [x]) == Filter(keep, xs) + if keep(x) then [x] else []
  {
    assert (xs + [x])[..|xs|] == xs;
  }

  /** No kept element need come after another. */
  ghost predicate Level<T>(notAfter: (T, T) -> bool, keep: T -> bool, xs: seq<T>) {
    forall i, j :: 0 <= i < |xs| && 0 <= j < |xs| && keep(xs[i]) && keep(xs[j]) ==> notAfter(xs[i], xs[j])
  }

  lemma LevelPermuted<T>(notAfter: (T, T) -> bool, keep: T -> bool, xs: seq<T>, ys: seq<T>)
    requires multiset(xs) == multiset(ys) && Level(notAfter, keep, xs)
    ensures Level(notAfter, keep, ys)
  {
    forall i, j | 0 <= i < |ys| && 0 <= j < |ys| && keep(ys[i]) && keep(ys[j])
      ensures notAfter(ys[i], ys[j])
    {
      var k := Occurs(xs, ys, i);
      var l := Occurs(xs, ys, j);
    }
  }

  lemma {:induction false} InsertIsStable<T>(notAfter: (T, T) -> bool, keep: T -> bool, xs: seq<T>, x: T)
    requires Level(notAfter, keep, xs + [x])
    ensures Filter(keep, Insert(notAfter, xs, x)) == Filter(keep, xs) + if keep(x) then [x] else []
  {
    if xs == [] || notAfter(xs[|xs| - 1], x) {
      FilterLast(keep, xs, x);
    } else {
      var n := |xs| - 1;
      assert xs[..n] + [x] == (xs + [x])[..n] + [(xs + [x])[n + 1]];
      assert (xs + [x])[n] == xs[n] && (xs + [x])[n + 1] == x;
      InsertIsStable(notAfter, keep, xs[..n], x);
      FilterLast(keep, Insert(notAfter, xs[..n], x), xs[n]);
    }
  }

  /** Elements that need not be reordered keep their places among each other. */
  lemma {:induction false} SortIsStable<T>(notAfter: (T, T) -> bool, keep: T -> bool, xs: seq<T>)
    requires Level(notAfter, keep, xs)
    ensures Filter(keep, Sort(notAfter, xs)) == Filter(keep, xs)
  {
    hide Insert;
    if xs != [] {
      var n := |xs| - 1;
      var front := Sort(notAfter, xs[..n]);
      assert xs == xs[..n] + [xs[n]];
      SortOrders(notAfter, xs[..n]);
      LevelPermuted(notAfter, keep, xs, front + [xs[n]]);
      SortIsStable(notAfter, keep, xs[..n]);
      InsertIsStable(notAfter, keep, front, xs[n]);
    }
  }

  // ----- numeric keys

  function ByKey<T>(key: T -> nat): (T, T) -> bool {
    (a: T, b: T) => key(a) <= key(b)
  }

  lemma {:induction false} KeysAscend<T>(key: T -> nat, xs: seq<T>, i: nat, j: nat)
    requires Ordered(ByKey(key), xs) && i <= j < |xs|
    ensures key(xs[i]) <= key(xs[j])
    decreases j
  {
    if i < j {
      KeysAscend(key, xs, i, j - 1);
      assert ByKey(key)(xs[j - 1], xs[j]);
    }
  }

  // ----- images

  function Images<T, U>(f: T -> U, xs: seq<T>): (r: seq<U>)
    ensures |r| == |xs| && forall i :: 0 <= i < |r| ==> r[i] == f(xs[i])
  {
    seq(|xs|, i requires 0 <= i < |xs| => f(xs[i]))
  }

  /** Permuted sequences have permuted images. */
  lemma {:induction false} ImagesPermuted<T, U>(f: T -> U, xs: seq<T>, ys: seq<T>)
    requires multiset(xs) == multiset(ys)
    ensures multiset(Images(f, xs)) == multiset(Images(f, ys))
    decreases |xs|
  {
    assert |xs| == |multiset(xs)| == |multiset(ys)| == |ys|;
    if xs != [] {
      var n := |xs| - 1;
      var j := Occurs(ys, xs, n);
      Without(xs, n);
      Without(ys, j);
      ImagesWithout(f, xs, n);
      ImagesWithout(f, ys, j);
      ImagesPermuted(f, xs[..n] + xs[n + 1..], ys[..j] + ys[j + 1..]);
    }
  }

  lemma Without<T>(xs: seq<T>, i: nat)
    requires i < |xs|
    ensures multiset(xs) == multiset(xs[..i] + xs[i + 1..]) + multiset{xs[i]}
    ensures multiset(xs[..i] + xs[i + 1..]) == multiset(xs) - multiset{xs[i]}
  {
    assert xs == xs[..i] + [xs[i]] + xs[i + 1..];
  }

  lemma ImagesWithout<T, U>(f: T -> U, xs: seq<T>, i: nat)
    requires i < |xs|
    ensures multiset(Images(f, xs)) == multiset(Images(f, xs[..i] + xs[i + 1..])) + multiset{f(xs[i])}
  {
    Without(Images(f, xs), i);
    assert Images(f, xs[..i] + xs[i + 1..]) == Images(f, xs)[..i] + Images(f, xs)[i + 1..];
  }
}
