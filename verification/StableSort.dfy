/** The standard library's stable `sort_by_key`, as far as the builder relies on it. */
module StableSort {

  /** The elements with key k, in order. */
  function KeyIs<T>(xs: seq<T>, key: T -> nat, k: nat): seq<T> {
    if xs == [] then []
    else
      var m := |xs| - 1;
      KeyIs(xs[..m], key, k) + if key(xs[m]) == k then [xs[m]] else []
  }

  ghost predicate SortedBy<T>(xs: seq<T>, key: T -> nat) {
    forall i, j :: 0 <= i <= j < |xs| ==> key(xs[i]) <= key(xs[j])
  }

  function Insert<T>(xs: seq<T>, key: T -> nat, x: T): seq<T> {
    if xs == [] || key(xs[|xs| - 1]) <= key(x) then xs + [x]
    else Insert(xs[..|xs| - 1], key, x) + [xs[|xs| - 1]]
  }

  function SortByKey<T>(xs: seq<T>, key: T -> nat): seq<T> {
    if xs == [] then [] else Insert(SortByKey(xs[..|xs| - 1], key), key, xs[|xs| - 1])
  }

  ghost predicate AtMost<T>(xs: seq<T>, key: T -> nat, bound: nat) {
    forall i :: 0 <= i < |xs| ==> key(xs[i]) <= bound
  }

  lemma {:induction false} InsertAtMost<T>(xs: seq<T>, key: T -> nat, x: T, bound: nat)
    requires AtMost(xs, key, bound) && key(x) <= bound
    ensures AtMost(Insert(xs, key, x), key, bound)
  {
    if xs != [] && key(xs[|xs| - 1]) > key(x) { InsertAtMost(xs[..|xs| - 1], key, x, bound); }
  }

  lemma SortedSnoc<T>(xs: seq<T>, key: T -> nat, x: T)
    ensures SortedBy(xs + [x], key) <==> SortedBy(xs, key) && AtMost(xs, key, key(x))
  {
    var all := xs + [x];
    assert forall i :: 0 <= i < |xs| ==> all[i] == xs[i];
    if SortedBy(all, key) {
      forall i | 0 <= i < |xs| ensures key(xs[i]) <= key(x) { assert key(all[i]) <= key(all[|xs|]); }
    }
  }

  lemma {:induction false} SortedAtMostLast<T>(xs: seq<T>, key: T -> nat, bound: nat)
    requires SortedBy(xs, key) && (xs != [] ==> key(xs[|xs| - 1]) <= bound)
    ensures AtMost(xs, key, bound)
  {
  }

  lemma {:induction false} InsertSorts<T>(xs: seq<T>, key: T -> nat, x: T)
    requires SortedBy(xs, key)
    ensures SortedBy(Insert(xs, key, x), key)
    ensures multiset(Insert(xs, key, x)) == multiset(xs) + multiset{x}
  {
    var m := |xs| - 1;
    if xs == [] || key(xs[m]) <= key(x) {
      SortedAtMostLast(xs, key, key(x));
      SortedSnoc(xs, key, x);
    } else {
      assert xs == xs[..m] + [xs[m]];
      SortedSnoc(xs[..m], key, xs[m]);
      InsertSorts(xs[..m], key, x);
      InsertAtMost(xs[..m], key, x, key(xs[m]));
      SortedSnoc(Insert(xs[..m], key, x), key, xs[m]);
    }
  }

  lemma {:induction false} InsertKeepsOrder<T>(xs: seq<T>, key: T -> nat, x: T, k: nat)
    ensures KeyIs(Insert(xs, key, x), key, k) == KeyIs(xs, key, k) + if key(x) == k then [x] else []
  {
    var m := |xs| - 1;
    if xs == [] || key(xs[m]) <= key(x) {
      assert (xs + [x])[..|xs|] == xs;
    } else {
      InsertKeepsOrder(xs[..m], key, x, k);
      var front := Insert(xs[..m], key, x);
      assert (front + [xs[m]])[..|front|] == front;
    }
  }

  lemma SameSize<T>(xs: seq<T>, ys: seq<T>)
    requires multiset(xs) == multiset(ys)
    ensures |xs| == |ys|
  {
    assert |multiset(xs)| == |xs|;
    assert |multiset(ys)| == |ys|;
  }

  /** Sorted, a permutation, and stable: the elements with one key keep their order. */
  lemma {:induction false} SortIsStable<T>(xs: seq<T>, key: T -> nat, k: nat)
    ensures SortedBy(SortByKey(xs, key), key)
    ensures multiset(SortByKey(xs, key)) == multiset(xs)
    ensures |SortByKey(xs, key)| == |xs|
    ensures KeyIs(SortByKey(xs, key), key, k) == KeyIs(xs, key, k)
  {
    hide Insert, AtMost;
    if xs == [] {
    } else {
      var m := |xs| - 1;
      var front := SortByKey(xs[..m], key);
      SortIsStable(xs[..m], key, k);
      InsertSorts(front, key, xs[m]);
      InsertKeepsOrder(front, key, xs[m], k);
      assert xs == xs[..m] + [xs[m]];
      SameSize(SortByKey(xs, key), xs);
    }
  }
}
