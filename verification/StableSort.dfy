/** Ordering of interface entries: the library's stable sort and lower bound, and what decides
    their result. */
module StableSort {

  ghost predicate StrictWeakOrder<T(!new)>(less: (T, T) -> bool) {
    && (forall x :: !less(x, x))
    && (forall x, y, z :: less(x, y) && less(y, z) ==> less(x, z))
    && (forall x, y, z :: !less(x, y) && !less(y, z) ==> !less(x, z))
  }

  /** A strict total order on the entries that occur: no two different ones are equivalent. */
  ghost predicate Separates<T(!new)>(less: (T, T) -> bool, s: seq<T>) {
    forall x, y :: x in s && y in s && x != y ==> less(x, y) || less(y, x)
  }

  ghost predicate Sorted<T>(less: (T, T) -> bool, s: seq<T>) {
    forall i, j :: 0 <= i < j < |s| ==> !less(s[j], s[i])
  }

  /** e goes behind everything it is not less than: equivalent entries keep their order. */
  function InsertLast<T>(less: (T, T) -> bool, s: seq<T>, e: T): (r: seq<T>)
    ensures |r| == |s| + 1
  {
    if |s| == 0 || !less(e, s[|s| - 1]) then s + [e]
    else InsertLast(less, s[..|s| - 1], e) + [s[|s| - 1]]
  }

  /** std::list::sort: a stable sort. */
  function SortBy<T>(less: (T, T) -> bool, s: seq<T>): (r: seq<T>)
    ensures |r| == |s|
  { if |s| == 0 then [] else InsertLast(less, SortBy(less, s[..|s| - 1]), s[|s| - 1]) }

  /** The entries equivalent to x, in their order. */
  function Equivalents<T>(less: (T, T) -> bool, s: seq<T>, x: T): seq<T> {
    if |s| == 0 then []
    else
      var n := |s| - 1;
      Equivalents(less, s[..n], x) + (if !less(s[n], x) && !less(x, s[n]) then [s[n]] else [])
  }

  lemma EquivalentsStep<T>(less: (T, T) -> bool, s: seq<T>, e: T, x: T)
    ensures Equivalents(less, s + [e], x) ==
              Equivalents(less, s, x) + (if !less(e, x) && !less(x, e) then [e] else [])
  { assert (s + [e])[..|s|] == s; }

  lemma {:induction false} InsertLastIsStable<T(!new)>(less: (T, T) -> bool, s: seq<T>, e: T, x: T)
    requires StrictWeakOrder(less)
    ensures Equivalents(less, InsertLast(less, s, e), x) == Equivalents(less, s + [e], x)
  {
    hide Equivalents;
    if |s| > 0 && less(e, s[|s| - 1]) {
      var n := |s| - 1;
      InsertLastIsStable(less, s[..n], e, x);
      assert s == s[..n] + [s[n]];
      EquivalentsStep(less, s[..n], e, x);
      EquivalentsStep(less, s[..n], s[n], x);
      EquivalentsStep(less, s, e, x);
      EquivalentsStep(less, InsertLast(less, s[..n], e), s[n], x);
    }
  }

  /** Sorting is stable: entries that are equivalent to one another stay in their order. */
  lemma {:induction false} SortIsStable<T(!new)>(less: (T, T) -> bool, s: seq<T>, x: T)
    requires StrictWeakOrder(less)
    ensures Equivalents(less, SortBy(less, s), x) == Equivalents(less, s, x)
  {
    hide StrictWeakOrder, InsertLast, Equivalents;
    if |s| > 0 {
      var n := |s| - 1;
      SortIsStable(less, s[..n], x);
      InsertLastIsStable(less, SortBy(less, s[..n]), s[n], x);
      EquivalentsStep(less, SortBy(less, s[..n]), s[n], x);
      EquivalentsStep(less, s[..n], s[n], x);
      assert s == s[..n] + [s[n]];
    }
  }

  lemma {:induction false} InsertLastAdds<T>(less: (T, T) -> bool, s: seq<T>, e: T)
    ensures multiset(InsertLast(less, s, e)) == multiset(s) + multiset{e}
  {
    if |s| > 0 && less(e, s[|s| - 1]) {
      var n := |s| - 1;
      InsertLastAdds(less, s[..n], e);
      assert s == s[..n] + [s[n]];
    }
  }

  lemma InsertLastMember<T>(less: (T, T) -> bool, s: seq<T>, e: T, x: T)
    requires x in InsertLast(less, s, e)
    ensures x == e || x in s
  {
    InsertLastAdds(less, s, e);
    assert x in multiset(InsertLast(less, s, e));
  }

  lemma {:induction false} InsertLastSorted<T(!new)>(less: (T, T) -> bool, s: seq<T>, e: T)
    requires StrictWeakOrder(less) && Sorted(less, s)
    ensures Sorted(less, InsertLast(less, s, e))
  {
    if |s| > 0 && less(e, s[|s| - 1]) {
      var n := |s| - 1;
      InsertLastSorted(less, s[..n], e);
      var r := InsertLast(less, s[..n], e);
      forall i | 0 <= i < |r| ensures !less(s[n], r[i]) { InsertLastMember(less, s[..n], e, r[i]); }
    } else if |s| > 0 {
      LastIsLargest(less, s, e);
    }
  }

  lemma LastIsLargest<T(!new)>(less: (T, T) -> bool, s: seq<T>, e: T)
    requires StrictWeakOrder(less) && Sorted(less, s) && |s| > 0 && !less(e, s[|s| - 1])
    ensures forall i :: 0 <= i < |s| ==> !less(e, s[i])
  {
    forall i | 0 <= i < |s| ensures !less(e, s[i]) { assert !less(s[|s| - 1], s[i]); }
  }

  /** The result is in order and holds the same entries. */
  lemma {:induction false} SortByIsSorted<T(!new)>(less: (T, T) -> bool, s: seq<T>)
    requires StrictWeakOrder(less)
    ensures Sorted(less, SortBy(less, s)) && multiset(SortBy(less, s)) == multiset(s)
  {
    if |s| > 0 {
      var n := |s| - 1;
      SortByIsSorted(less, s[..n]);
      InsertLastSorted(less, SortBy(less, s[..n]), s[n]);
      InsertLastAdds(less, SortBy(less, s[..n]), s[n]);
      assert s == s[..n] + [s[n]];
    }
  }

  /** Under a total order there is only one sorted arrangement. */
  lemma {:induction false} SortedUnique<T(!new)>(less: (T, T) -> bool, a: seq<T>, b: seq<T>)
    requires Separates(less, a) && Sorted(less, a) && Sorted(less, b) && multiset(a) == multiset(b)
    ensures a == b
  {
    hide Sorted, Separates;
    SameLength(a, b);
    if |a| > 0 {
      var n := |a| - 1;
      LastAgrees(less, a, b);
      SameWithoutLast(a, b);
      SortedPrefix(less, a, n);
      SortedPrefix(less, b, n);
      SortedUnique(less, a[..n], b[..n]);
      assert a == a[..n] + [a[n]] && b == b[..n] + [b[n]];
    }
  }

  lemma SameLength<T>(a: seq<T>, b: seq<T>)
    requires multiset(a) == multiset(b)
    ensures |a| == |b|
  { assert |multiset(a)| == |a| && |multiset(b)| == |b|; }

  lemma SameWithoutLast<T>(a: seq<T>, b: seq<T>)
    requires multiset(a) == multiset(b) && |a| == |b| > 0 && a[|a| - 1] == b[|a| - 1]
    ensures multiset(a[..|a| - 1]) == multiset(b[..|a| - 1])
  {
    var n := |a| - 1;
    assert a == a[..n] + [a[n]] && b == b[..n] + [b[n]];
    assert multiset(a[..n]) == multiset(a) - multiset{a[n]};
    assert multiset(b[..n]) == multiset(b) - multiset{b[n]};
  }

  lemma SortedPrefix<T(!new)>(less: (T, T) -> bool, s: seq<T>, n: nat)
    requires n <= |s|
    ensures Sorted(less, s) ==> Sorted(less, s[..n])
    ensures Separates(less, s) ==> Separates(less, s[..n])
  {}

  lemma LastAgrees<T(!new)>(less: (T, T) -> bool, a: seq<T>, b: seq<T>)
    requires Separates(less, a) && Sorted(less, a) && Sorted(less, b) && multiset(a) == multiset(b) && |a| > 0
    ensures |a| == |b| && a[|a| - 1] == b[|b| - 1]
  {
    assert |multiset(a)| == |a| && |multiset(b)| == |b|;
    var x, y := a[|a| - 1], b[|b| - 1];
    assert x in multiset(b) && y in multiset(a);
    var i :| 0 <= i < |b| && b[i] == x;
    var j :| 0 <= j < |a| && a[j] == y;
  }

  // ---- lower bound ----------------------------------------------------------------------------

  /** std::lower_bound on a sorted range: the first entry that is not less than e. */
  function LowerBound<T>(less: (T, T) -> bool, s: seq<T>, e: T): (k: nat)
    ensures k <= |s|
    ensures forall i :: 0 <= i < k ==> less(s[i], e)
    ensures k < |s| ==> !less(s[k], e)
  {
    if |s| == 0 || !less(s[0], e) then 0 else 1 + LowerBound(less, s[1..], e)
  }

  lemma LowerBoundIs<T>(less: (T, T) -> bool, s: seq<T>, e: T, k: nat)
    requires k <= |s| && (forall i :: 0 <= i < k ==> less(s[i], e)) && (k < |s| ==> !less(s[k], e))
    ensures k == LowerBound(less, s, e)
  {
    var b := LowerBound(less, s, e);
    assert b < |s| ==> !less(s[b], e);
    assert k < |s| ==> !less(s[k], e);
  }

  /** What lower_bound needs: the entries less than e stand in front of the others. */
  ghost predicate Partitioned<T>(less: (T, T) -> bool, s: seq<T>, e: T) {
    forall i, j :: 0 <= i < j < |s| && less(s[j], e) ==> less(s[i], e)
  }

  lemma SortedIsPartitioned<T(!new)>(less: (T, T) -> bool, s: seq<T>, e: T)
    requires StrictWeakOrder(less) && Sorted(less, s)
    ensures Partitioned(less, s, e)
  {
    forall i, j | 0 <= i < j < |s| && less(s[j], e) ensures less(s[i], e) { assert !less(s[j], s[i]); }
  }

  /** Inserting there keeps the range sorted, and any earlier or later sorted place is only
      next to equivalent entries. */
  lemma InsertAtLowerBound<T(!new)>(less: (T, T) -> bool, s: seq<T>, e: T, k: nat)
    requires StrictWeakOrder(less) && Sorted(less, s) && k <= |s|
    ensures k == LowerBound(less, s, e) ==> Sorted(less, s[..k] + [e] + s[k..])
    ensures Sorted(less, s[..k] + [e] + s[k..]) ==> LowerBound(less, s, e) <= k
  {
    var b := LowerBound(less, s, e);
    if k == b {
      AfterLowerBound(less, s, e);
      SortedWith(less, s, e, k);
    } else if k < b {
      hide StrictWeakOrder;
      var r := s[..k] + [e] + s[k..];
      assert less(r[k + 1], r[k]);
    }
  }

  lemma SortedWith<T(!new)>(less: (T, T) -> bool, s: seq<T>, e: T, k: nat)
    requires Sorted(less, s) && k <= |s|
    requires forall i :: k <= i < |s| ==> !less(s[i], e)
    requires forall i :: 0 <= i < k ==> !less(e, s[i])
    ensures Sorted(less, s[..k] + [e] + s[k..])
  {
    var r := s[..k] + [e] + s[k..];
    forall i, j | 0 <= i < j < |r| ensures !less(r[j], r[i]) {
      assert r[i] == if i < k then s[i] else if i == k then e else s[i - 1];
      assert r[j] == if j < k then s[j] else if j == k then e else s[j - 1];
    }
  }

  lemma AfterLowerBound<T(!new)>(less: (T, T) -> bool, s: seq<T>, e: T)
    requires StrictWeakOrder(less) && Sorted(less, s)
    ensures forall i :: LowerBound(less, s, e) <= i < |s| ==> !less(s[i], e)
    ensures forall i :: 0 <= i < LowerBound(less, s, e) ==> !less(e, s[i])
  {
    var b := LowerBound(less, s, e);
    forall i | b <= i < |s| ensures !less(s[i], e) { assert i == b || !less(s[i], s[b]); }
    forall i | 0 <= i < b ensures !less(e, s[i]) { assert less(s[i], e); }
  }
}
