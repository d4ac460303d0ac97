/** The array helpers behind the child lists of MG*Info, as functions on lists and as the
    in-place loops that compute them. */
module ChildLists {

  ghost predicate Distinct<T(!new)>(s: seq<T>) { forall i, j :: 0 <= i < j < |s| ==> s[i] != s[j] }

  /** First position of x, or the length of the list. */
  function IndexOf<T(==)>(s: seq<T>, x: T): (i: nat)
    ensures i <= |s| && (i < |s| ==> s[i] == x)
    ensures forall j :: 0 <= j < i ==> s[j] != x
  { if |s| == 0 || s[0] == x then 0 else 1 + IndexOf(s[1..], x) }

  function EraseFirst<T(==)>(s: seq<T>, x: T): seq<T> {
    var i := IndexOf(s, x);
    if i < |s| then s[..i] + s[i + 1..] else s
  }

  /** ArraySwapWithLast followed by pop_back: without a match the last entry goes. */
  function SwapPop<T(==)>(s: seq<T>, x: T): seq<T>
    requires |s| > 0
  {
    var i := IndexOf(s, x);
    (if i + 1 < |s| then s[i := s[|s| - 1]] else s)[..|s| - 1]
  }

  function ReplaceFirst<T(==)>(s: seq<T>, newEntry: T, oldEntry: T): seq<T> {
    var i := IndexOf(s, oldEntry);
    if i < |s| then s[i := newEntry] else s
  }

  /** r is s without x, up to order. */
  ghost predicate Without<T(!new)>(r: seq<T>, s: seq<T>, x: T) {
    Distinct(r) && |r| + 1 == |s| && forall y :: y in r <==> y in s && y != x
  }

  lemma EraseRemovesOne<T(!new)>(s: seq<T>, x: T)
    requires Distinct(s) && x in s
    ensures Without(EraseFirst(s, x), s, x)
  {
    var i := IndexOf(s, x);
    var r := EraseFirst(s, x);
    forall y | y in s && y != x ensures y in r {
      var j :| 0 <= j < |s| && s[j] == y;
      assert r[if j < i then j else j - 1] == y;
    }
  }

  lemma SwapPopRemovesOne<T(!new)>(s: seq<T>, x: T)
    requires Distinct(s) && x in s
    ensures Without(SwapPop(s, x), s, x)
  {
    var i := IndexOf(s, x);
    var r := SwapPop(s, x);
    forall y | y in s && y != x ensures y in r {
      var j :| 0 <= j < |s| && s[j] == y;
      assert r[if j < |s| - 1 then j else i] == y;
    }
  }

  /** The new entry takes the place of the old one; everything else stays where it is. */
  lemma ReplaceKeepsPlaces<T(!new)>(s: seq<T>, n: T, o: T)
    requires Distinct(s) && o in s && n !in s
    ensures var r := ReplaceFirst(s, n, o);
            && Distinct(r) && |r| == |s|
            && (forall i :: 0 <= i < |s| ==> r[i] == if s[i] == o then n else s[i])
            && (forall y :: y in r <==> y == n || (y in s && y != o))
  {
    var r := ReplaceFirst(s, n, o);
    assert r[IndexOf(s, o)] == n;
    forall y | y in s && y != o ensures y in r {
      var j :| 0 <= j < |s| && s[j] == y;
      assert r[j] == y;
    }
  }

  /** What happens at the first match, at place pos, in any list: the rest moves up, the last entry
      takes the place, or the new entry does. */
  lemma AtFirstMatch<T>(s: seq<T>, x: T, n: T, pos: nat)
    requires pos < |s| && s[pos] == x && x !in s[..pos]
    ensures EraseFirst(s, x) == s[..pos] + s[pos + 1..]
    ensures SwapPop(s, x) == s[pos := s[|s| - 1]][..|s| - 1]
    ensures ReplaceFirst(s, n, x) == s[pos := n]
  {
    forall j | 0 <= j < pos ensures s[j] != x { assert s[j] in s[..pos]; }
    assert IndexOf(s, x) == pos;
  }

  /** Without a match nothing is erased or replaced, but the last entry is popped. */
  lemma WithoutMatch<T>(s: seq<T>, x: T, n: T)
    requires x !in s
    ensures EraseFirst(s, x) == s == ReplaceFirst(s, n, x)
    ensures |s| > 0 ==> SwapPop(s, x) == s[..|s| - 1]
  {
    forall j | 0 <= j < |s| ensures s[j] != x { assert s[j] in s; }
    assert IndexOf(s, x) == |s|;
  }

  // ---- the loops ----------------------------------------------------------------

  method FindEntry<T(==)>(a: array<T>, entry: T, size: nat) returns (i: nat)
    requires size <= a.Length
    ensures i == IndexOf(a[..size], entry)
  {
    i := 0;
    while i < size
      invariant i <= size && forall j :: 0 <= j < i ==> a[j] != entry
    {
      if a[i] == entry { break; }
      i := i + 1;
    }
  }

  method ArrayEraseEntry<T(==)>(a: array<T>, entry: T, size: nat) returns (n: nat)
    requires size <= a.Length
    modifies a
    ensures n <= size && a[..n] == EraseFirst(old(a[..size]), entry)
    ensures a[size..] == old(a[size..])
  {
    var i := FindEntry(a, entry, size);
    if i >= size { return size; }
    ghost var at, s := i, a[..size];
    while i < size - 1
      invariant at <= i < size
      invariant forall j :: 0 <= j < at ==> a[j] == s[j]
      invariant forall j :: at <= j < i ==> a[j] == s[j + 1]
      invariant forall j :: i <= j < size ==> a[j] == s[j]
      invariant a[size..] == old(a[size..])
    {
      a[i] := a[i + 1];
      i := i + 1;
    }
    assert a[..size - 1] == s[..at] + s[at + 1..];
    n := size - 1;
  }

  method ArraySwapWithLast<T(==)>(a: array<T>, entry: T, size: nat)
    requires 0 < size <= a.Length
    modifies a
    ensures a[..size - 1] == SwapPop(old(a[..size]), entry)
    ensures a[size..] == old(a[size..])
  {
    var i := FindEntry(a, entry, size);
    if i + 1 >= size { return; }
    a[i], a[size - 1] := a[size - 1], a[i];
  }

  method ArrayReplaceEntry<T(==)>(a: array<T>, newEntry: T, oldEntry: T, size: nat) returns (found: bool)
    requires size <= a.Length
    modifies a
    ensures found <==> oldEntry in old(a[..size])
    ensures a[..size] == ReplaceFirst(old(a[..size]), newEntry, oldEntry)
    ensures a[size..] == old(a[size..])
  {
    var i := 0;
    ghost var s := a[..size];
    while i < size
      invariant i <= size && a[..] == old(a[..])
      invariant forall j :: 0 <= j < i ==> s[j] != oldEntry
    {
      if a[i] == oldEntry {
        assert s[i] == oldEntry;
        a[i] := newEntry;
        return true;
      }
      i := i + 1;
    }
    found := false;
  }
}
