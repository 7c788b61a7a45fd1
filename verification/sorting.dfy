/** Sorting in place by a comparator, and what a comparator must satisfy for it. */
module Sorting {

  /** A strict weak order: asymmetric, and "not less" is transitive. */
  ghost predicate StrictWeakOrder<T(!new)>(less: (T, T) -> bool) {
    && (forall x, y :: less(x, y) ==> !less(y, x))
    && (forall x, y, z :: !less(x, y) && !less(y, z) ==> !less(x, z))
  }

  ghost predicate Sorted<T>(less: (T, T) -> bool, s: seq<T>) {
    forall i, j :: 0 <= i < j < |s| ==> !less(s[j], s[i])
  }

  method Swap<T>(a: array<T>, i: nat, j: nat)
    requires i < j < a.Length
    modifies a
    ensures a[..] == old(a[..])[i := old(a[j])][j := old(a[i])]
    ensures multiset(a[..]) == multiset(old(a[..]))
  {
    a[i], a[j] := a[j], a[i];
  }

  /** The first i positions hold their final elements. */
  ghost predicate Settled<T>(less: (T, T) -> bool, s: seq<T>, i: nat) {
    forall p, q :: 0 <= p < i && p < q < |s| ==> !less(s[q], s[p])
  }

  /** Nothing between i and j belongs before position i. */
  ghost predicate LeastSoFar<T>(less: (T, T) -> bool, s: seq<T>, i: nat, j: nat)
    requires i < |s|
  {
    forall q :: i < q < j && q < |s| ==> !less(s[q], s[i])
  }

  lemma SwapKeepsSettled<T(!new)>(less: (T, T) -> bool, s: seq<T>, i: nat, j: nat)
    requires StrictWeakOrder(less) && i < j < |s|
    requires Settled(less, s, i) && LeastSoFar(less, s, i, j) && less(s[j], s[i])
    ensures var t := s[i := s[j]][j := s[i]]; Settled(less, t, i) && LeastSoFar(less, t, i, j + 1)
  {
    var t := s[i := s[j]][j := s[i]];
    forall p, q | 0 <= p < i && p < q < |t| ensures !less(t[q], t[p]) {
      assert t[p] == s[p];
      assert t[q] == s[if q == i then j else if q == j then i else q];
    }
    forall q | i < q < j + 1 && q < |t| ensures !less(t[q], t[i]) {
      if q < j {
        assert t[q] == s[q] && !less(s[q], s[i]) && !less(s[i], s[j]);
      }
    }
  }

  /** The exchange sort: every later element that belongs before position i is swapped into it. */
  method ExchangeSort<T(!new)>(a: array<T>, less: (T, T) -> bool)
    requires StrictWeakOrder(less)
    modifies a
    ensures Sorted(less, a[..])
    ensures multiset(a[..]) == multiset(old(a[..]))
    ensures Sorted(less, old(a[..])) ==> a[..] == old(a[..])
  {
    hide StrictWeakOrder, Settled, LeastSoFar, Sorted;
    ghost var before := a[..];
    SettledStart(less, before);
    var i := 0;
    while i < a.Length - 1
      invariant 0 <= i && (a.Length > 0 ==> i < a.Length)
      invariant Settled(less, a[..], i)
      invariant multiset(a[..]) == multiset(before)
      invariant Sorted(less, before) ==> a[..] == before
    {
      var j := i + 1;
      LeastStart(less, a[..], i);
      while j < a.Length
        invariant i < j <= a.Length
        invariant Settled(less, a[..], i) && LeastSoFar(less, a[..], i, j)
        invariant multiset(a[..]) == multiset(before)
        invariant Sorted(less, before) ==> a[..] == before
      {
        if less(a[j], a[i]) {
          SortedAt(less, a[..], i, j);
          SwapKeepsSettled(less, a[..], i, j);
          Swap(a, i, j);
        } else {
          LeastStep(less, a[..], i, j);
        }
        j := j + 1;
      }
      SettledStep(less, a[..], i);
      i := i + 1;
    }
    SettledIsSorted(less, a[..]);
  }

  lemma SettledStart<T>(less: (T, T) -> bool, s: seq<T>)
    ensures Settled(less, s, 0)
  {
  }

  lemma LeastStart<T>(less: (T, T) -> bool, s: seq<T>, i: nat)
    requires i < |s|
    ensures LeastSoFar(less, s, i, i + 1)
  {
  }

  lemma LeastStep<T>(less: (T, T) -> bool, s: seq<T>, i: nat, j: nat)
    requires i < j < |s| && LeastSoFar(less, s, i, j) && !less(s[j], s[i])
    ensures LeastSoFar(less, s, i, j + 1)
  {
  }

  lemma SettledStep<T>(less: (T, T) -> bool, s: seq<T>, i: nat)
    requires i < |s| && Settled(less, s, i) && LeastSoFar(less, s, i, |s|)
    ensures Settled(less, s, i + 1)
  {
  }

  lemma SortedAt<T>(less: (T, T) -> bool, s: seq<T>, i: nat, j: nat)
    requires i < j < |s| && less(s[j], s[i])
    ensures !Sorted(less, s)
  {
  }

  lemma SettledIsSorted<T>(less: (T, T) -> bool, s: seq<T>)
    requires |s| > 0 ==> Settled(less, s, |s| - 1)
    ensures Sorted(less, s)
  {
  }

  // ---- reorderings ----

  /** Every list has a sorted reordering. */
  lemma {:induction false} SortedReordering<T(!new)>(less: (T, T) -> bool, s: seq<T>) returns (p: seq<T>)
    requires StrictWeakOrder(less)
    ensures Sorted(less, p) && multiset(p) == multiset(s)
  {
    if s == [] {
      p := [];
    } else {
      var n := |s| - 1;
      var rest := SortedReordering(less, s[..n]);
      var k := PlaceFor(less, rest, s[n]);
      p := rest[..k] + [s[n]] + rest[k..];
      Inserted(less, rest, s[n], k);
      assert s == s[..n] + [s[n]] && rest == rest[..k] + rest[k..];
    }
  }

  lemma PlaceFor<T(!new)>(less: (T, T) -> bool, s: seq<T>, x: T) returns (k: nat)
    requires StrictWeakOrder(less) && Sorted(less, s)
    ensures k <= |s|
    ensures forall i :: 0 <= i < k ==> !less(x, s[i])
    ensures forall i :: k <= i < |s| ==> !less(s[i], x)
  {
    k := 0;
    while k < |s| && !less(x, s[k])
      invariant 0 <= k <= |s|
      invariant forall i :: 0 <= i < k ==> !less(x, s[i])
    {
      k := k + 1;
    }
    forall i | k <= i < |s| ensures !less(s[i], x) {
      assert i > k ==> !less(s[i], s[k]);
      assert !less(s[k], x);
    }
  }

  lemma Inserted<T(!new)>(less: (T, T) -> bool, s: seq<T>, x: T, k: nat)
    requires Sorted(less, s) && k <= |s|
    requires forall i :: 0 <= i < k ==> !less(x, s[i])
    requires forall i :: k <= i < |s| ==> !less(s[i], x)
    ensures Sorted(less, s[..k] + [x] + s[k..])
  {
    var p := s[..k] + [x] + s[k..];
    forall i, j | 0 <= i < j < |p| ensures !less(p[j], p[i]) {
      if i != k && j != k {
        assert p[i] == s[if i < k then i else i - 1] && p[j] == s[if j < k then j else j - 1];
      }
    }
  }

  /** Elements at two places of a list are at two places of any reordering of it. */
  lemma TwoPlaces<T>(xs: seq<T>, ys: seq<T>, i: nat, j: nat) returns (p: nat, q: nat)
    requires multiset(xs) == multiset(ys) && i < |xs| && j < |xs| && i != j
    ensures p < |ys| && q < |ys| && p != q && ys[p] == xs[i] && ys[q] == xs[j]
  {
    assert xs[i] in multiset(ys);
    p :| 0 <= p < |ys| && ys[p] == xs[i];
    StillThere(xs, ys, i, j, p);
    q := PlaceInRest(ys, p, xs[j]);
  }

  /** With the i-th element gone from both lists, the j-th is still in both. */
  lemma StillThere<T>(xs: seq<T>, ys: seq<T>, i: nat, j: nat, p: nat)
    requires multiset(xs) == multiset(ys) && i < |xs| && j < |xs| && i != j && p < |ys| && ys[p] == xs[i]
    ensures xs[j] in ys[..p] + ys[p + 1..]
  {
    RemoveAt(xs, i);
    RemoveAt(ys, p);
    var rest := xs[..i] + xs[i + 1..];
    assert rest[if j < i then j else j - 1] == xs[j];
    assert xs[j] in multiset(rest);
    assert xs[j] in multiset(ys[..p] + ys[p + 1..]);
  }

  lemma PlaceInRest<T>(ys: seq<T>, p: nat, x: T) returns (q: nat)
    requires p < |ys| && x in ys[..p] + ys[p + 1..]
    ensures q < |ys| && q != p && ys[q] == x
  {
    var rest := ys[..p] + ys[p + 1..];
    var k :| 0 <= k < |rest| && rest[k] == x;
    q := if k < p then k else k + 1;
  }

  lemma RemoveAt<T>(s: seq<T>, k: nat)
    requires k < |s|
    ensures multiset(s[..k] + s[k + 1..]) == multiset(s) - multiset{s[k]}
  {
    assert s == s[..k] + [s[k]] + s[k + 1..];
  }
}
