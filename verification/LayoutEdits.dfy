/** Edits of layouts: filtering, appending and sorting interfaces, and why two processes that
    apply them consistently stay aligned. */
module LayoutEdits {
  import opened StableSort
  import opened InterfaceLayouts

  // ---- the edits ----------------------------------------------------------------------------------

  /** The selected entries of an interface, in their order. */
  function Kept<T>(s: seq<T>, sel: T -> bool): seq<T> {
    if |s| == 0 then []
    else Kept(s[..|s| - 1], sel) + (if sel(s[|s| - 1]) then [s[|s| - 1]] else [])
  }

  /** What becomes of an interface: it is erased if filtering changed it and left it empty. */
  function FilteredEntry<T>(e: Entry<T>, sel: T -> bool): Level<T> {
    if Kept(e.iface, sel) == [] && e.iface != [] then [] else [Entry(e.proc, Kept(e.iface, sel))]
  }

  function FilteredLevel<T>(lvl: Level<T>, sel: T -> bool): Level<T> {
    if |lvl| == 0 then [] else FilteredLevel(lvl[..|lvl| - 1], sel) + FilteredEntry(lvl[|lvl| - 1], sel)
  }

  function Filtered<T>(lay: Layout<T>, sel: T -> bool): (r: Layout<T>)
    ensures |r| == |lay| && forall l :: 0 <= l < |lay| ==> r[l] == FilteredLevel(lay[l], sel)
  { seq(|lay|, l requires 0 <= l < |lay| => FilteredLevel(lay[l], sel)) }

  /** Appends entries to the interface with q, which is created in its place if missing. */
  function Extended<T>(lvl: Level<T>, q: int, es: seq<T>): Level<T> {
    if |lvl| == 0 then [Entry(q, es)]
    else
      var n := |lvl| - 1;
      if lvl[n].proc == q then lvl[..n] + [Entry(q, lvl[n].iface + es)]
      else if lvl[n].proc < q then lvl + [Entry(q, es)]
      else Extended(lvl[..n], q, es) + [lvl[n]]
  }

  function Added<T>(dest: Level<T>, source: Level<T>): Level<T> {
    if |source| == 0 then dest
    else var n := |source| - 1; Extended(Added(dest, source[..n]), source[n].proc, source[n].iface)
  }

  function SortedLevel<T>(lvl: Level<T>, less: (T, T) -> bool): (r: Level<T>)
    ensures |r| == |lvl|
    ensures forall i :: 0 <= i < |lvl| ==> r[i] == Entry(lvl[i].proc, SortBy(less, lvl[i].iface))
  { seq(|lvl|, i requires 0 <= i < |lvl| => Entry(lvl[i].proc, SortBy(less, lvl[i].iface))) }

  function SortedLayout<T>(lay: Layout<T>, less: (T, T) -> bool): (r: Layout<T>)
    ensures |r| == |lay| && forall l :: 0 <= l < |lay| ==> r[l] == SortedLevel(lay[l], less)
  { seq(|lay|, l requires 0 <= l < |lay| => SortedLevel(lay[l], less)) }

  // ---- peers --------------------------------------------------------------------------------------

  ghost predicate HasPeer<T>(lvl: Level<T>, q: int) { exists i :: 0 <= i < |lvl| && lvl[i].proc == q }

  ghost predicate HasPeerAt<T>(lay: Layout<T>, l: nat, q: int) { l < |lay| && HasPeer(lay[l], q) }

  /** p has an interface with q on exactly the levels on which q has one with p, and they hold
      partners at equal positions. */
  ghost predicate InStep<V, E>(partner: E -> V, mine: Layout<V>, q: int, theirs: Layout<E>, p: int) {
    && Aligned(partner, mine, q, theirs, p)
    && forall l: nat :: HasPeerAt(mine, l, q) <==> HasPeerAt(theirs, l, p)
  }

  lemma {:induction false} NoPeerNothing<T>(lvl: Level<T>, q: int)
    ensures !HasPeer(lvl, q) ==> Find(lvl, q) == []
  {
    if !HasPeer(lvl, q) { FindAbsent(lvl, q); }
  }

  lemma PeerStep<T>(lvl: Level<T>, e: Entry<T>, q: int)
    ensures HasPeer(lvl + [e], q) <==> HasPeer(lvl, q) || e.proc == q
  {
    var r := lvl + [e];
    assert r[|lvl|] == e;
    if HasPeer(lvl, q) { var i :| 0 <= i < |lvl| && lvl[i].proc == q; assert r[i].proc == q; }
    if HasPeer(r, q) { var i :| 0 <= i < |r| && r[i].proc == q; if i < |lvl| { assert lvl[i].proc == q; } }
  }

  lemma FindStep<T>(lvl: Level<T>, e: Entry<T>, q: int)
    ensures Find(lvl + [e], q) == if e.proc == q then e.iface else Find(lvl, q)
  { assert (lvl + [e])[..|lvl|] == lvl; }

  // ---- filtering ------------------------------------------------------------------------------------

  /** The filter keeps an interface exactly when it selects everything. */
  lemma {:induction false} KeptAll<T>(s: seq<T>, sel: T -> bool)
    ensures |Kept(s, sel)| <= |s|
    ensures Kept(s, sel) == s <==> forall i :: 0 <= i < |s| ==> sel(s[i])
    ensures |Kept(s, sel)| == |s| ==> Kept(s, sel) == s
  {
    if |s| > 0 {
      var n := |s| - 1;
      KeptAll(s[..n], sel);
      assert s == s[..n] + [s[n]];
      if Kept(s, sel) == s { assert Kept(s[..n], sel) == s[..n]; assert forall i :: 0 <= i < n ==> sel(s[..n][i]); }
      if forall i :: 0 <= i < |s| ==> sel(s[i]) { assert forall i :: 0 <= i < n ==> sel(s[..n][i]); }
    }
  }

  lemma {:induction false} KeptConcat<T>(a: seq<T>, b: seq<T>, sel: T -> bool)
    ensures Kept(a + b, sel) == Kept(a, sel) + Kept(b, sel)
  {
    if |b| == 0 {
      assert a + b == a;
    } else {
      var n := |b| - 1;
      KeptConcat(a, b[..n], sel);
      assert (a + b)[..|a + b| - 1] == a + b[..n];
    }
  }

  /** Order is preserved: an entry that is kept stands behind exactly the kept ones before it. */
  lemma KeptAt<T>(s: seq<T>, sel: T -> bool, i: nat)
    requires i < |s| && sel(s[i])
    ensures var k := |Kept(s[..i], sel)|; k < |Kept(s, sel)| && Kept(s, sel)[k] == s[i]
  {
    KeptConcat(s[..i], s[i..], sel);
    assert s == s[..i] + s[i..];
    KeptConcat([s[i]], s[i + 1..], sel);
    assert s[i..] == [s[i]] + s[i + 1..];
    KeptOne(s[i], sel);
  }

  lemma KeptOne<T>(x: T, sel: T -> bool)
    ensures Kept([x], sel) == if sel(x) then [x] else []
  { assert [x][..0] == []; }

  lemma {:induction false} KeptPartners<V, E>(partner: E -> V, s: seq<E>, selV: V -> bool, selE: E -> bool)
    requires forall i :: 0 <= i < |s| ==> selE(s[i]) == selV(partner(s[i]))
    ensures Partners(partner, Kept(s, selE)) == Kept(Partners(partner, s), selV)
  {
    if |s| > 0 {
      var n := |s| - 1;
      KeptPartners(partner, s[..n], selV, selE);
      assert Partners(partner, s)[..n] == Partners(partner, s[..n]);
    }
  }

  lemma {:induction false} FilteredFind<T>(lvl: Level<T>, sel: T -> bool, q: int)
    requires IsLevel(lvl)
    ensures Find(FilteredLevel(lvl, sel), q) == Kept(Find(lvl, q), sel)
    ensures HasPeer(FilteredLevel(lvl, sel), q) <==>
              HasPeer(lvl, q) && !(Find(lvl, q) != [] && Kept(Find(lvl, q), sel) == [])
  {
    hide Kept, Find, HasPeer, IsLevel;
    if |lvl| == 0 {
      KeptNothing(sel);
      NoPeerNothing(lvl, q);
      NobodyThere(lvl, q);
    } else {
      var n := |lvl| - 1;
      LevelPrefix(lvl, n);
      FilteredFind(lvl[..n], sel, q);
      var before := FilteredLevel(lvl[..n], sel);
      assert lvl == lvl[..n] + [lvl[n]];
      PeerStep(lvl[..n], lvl[n], q);
      FindStep(lvl[..n], lvl[n], q);
      KeptNothing(sel);
      if lvl[n].proc == q { NotBefore(lvl, n, q); NoPeerBefore(lvl, n, q); }
      if FilteredEntry(lvl[n], sel) != [] {
        var e := FilteredEntry(lvl[n], sel)[0];
        PeerStep(before, e, q);
        FindStep(before, e, q);
      } else {
        assert before + [] == before;
      }
    }
  }

  lemma LevelPrefix<T>(lvl: Level<T>, n: nat)
    requires IsLevel(lvl) && n <= |lvl|
    ensures IsLevel(lvl[..n])
  {}

  lemma KeptNothing<T>(sel: T -> bool)
    ensures Kept([], sel) == []
  {}

  lemma NoPeerBefore<T>(lvl: Level<T>, n: nat, q: int)
    requires IsLevel(lvl) && n < |lvl| && lvl[n].proc == q
    ensures !HasPeer(lvl[..n], q)
  {}

  lemma FilteredAt<T>(lay: Layout<T>, sel: T -> bool, l: nat, q: int)
    requires IsLayout(lay)
    ensures At(Filtered(lay, sel), l, q) == Kept(At(lay, l, q), sel)
    ensures HasPeerAt(Filtered(lay, sel), l, q) <==>
              HasPeerAt(lay, l, q) && !(At(lay, l, q) != [] && Kept(At(lay, l, q), sel) == [])
  {
    hide Find, HasPeer, Kept, FilteredLevel;
    if l < |lay| { FilteredFind(lay[l], sel, q); } else { KeptNothing(sel); }
  }

  /** Filtering keeps two processes in step if, on the entries between them, their selections agree
      on partners. */
  lemma FilterKeepsStep<V, E>(partner: E -> V, mine: Layout<V>, q: int, theirs: Layout<E>, p: int, selV: V -> bool,
                              selE: E -> bool)
    requires IsLayout(mine) && IsLayout(theirs) && InStep(partner, mine, q, theirs, p)
    requires forall l: nat, i :: 0 <= i < |At(theirs, l, p)| ==>
               selE(At(theirs, l, p)[i]) == selV(partner(At(theirs, l, p)[i]))
    ensures InStep(partner, Filtered(mine, selV), q, Filtered(theirs, selE), p)
  {
    hide Filtered, At, HasPeerAt, IsLayout, Kept;
    forall l: nat
      ensures At(Filtered(mine, selV), l, q) == Partners(partner, At(Filtered(theirs, selE), l, p))
      ensures HasPeerAt(Filtered(mine, selV), l, q) <==> HasPeerAt(Filtered(theirs, selE), l, p)
    {
      FilteredAt(mine, selV, l, q);
      FilteredAt(theirs, selE, l, p);
      assert At(mine, l, q) == Partners(partner, At(theirs, l, p));
      assert HasPeerAt(mine, l, q) <==> HasPeerAt(theirs, l, p);
      KeptPartners(partner, At(theirs, l, p), selV, selE);
    }
  }

  // ---- appending ------------------------------------------------------------------------------------

  ghost predicate Under<T>(lvl: Level<T>, b: int) { forall i :: 0 <= i < |lvl| ==> lvl[i].proc < b }

  lemma {:induction false} ExtendedUnder<T>(lvl: Level<T>, q: int, es: seq<T>, b: int)
    requires Under(lvl, b) && q < b
    ensures Under(Extended(lvl, q, es), b)
  { if |lvl| > 0 { ExtendedUnder(lvl[..|lvl| - 1], q, es, b); } }

  lemma {:induction false} ExtendedIsLevel<T>(lvl: Level<T>, q: int, es: seq<T>)
    requires IsLevel(lvl)
    ensures IsLevel(Extended(lvl, q, es))
  {
    if |lvl| > 0 && q < lvl[|lvl| - 1].proc {
      var n := |lvl| - 1;
      ExtendedIsLevel(lvl[..n], q, es);
      ExtendedUnder(lvl[..n], q, es, lvl[n].proc);
    }
  }

  lemma {:induction false} ExtendedFind<T>(lvl: Level<T>, q: int, es: seq<T>, x: int)
    requires IsLevel(lvl)
    ensures Find(Extended(lvl, q, es), x) == if x == q then Find(lvl, q) + es else Find(lvl, x)
    ensures HasPeer(Extended(lvl, q, es), x) <==> HasPeer(lvl, x) || x == q
  {
    hide HasPeer, Find, IsLevel;
    if |lvl| == 0 {
      FindStep(lvl, Entry(q, es), x);
      PeerStep(lvl, Entry(q, es), x);
      NoPeerNothing(lvl, q);
      NobodyThere(lvl, q);
      assert lvl + [Entry(q, es)] == [Entry(q, es)];
    } else {
      var n := |lvl| - 1;
      assert lvl == lvl[..n] + [lvl[n]];
      LevelPrefix(lvl, n);
      PeerStep(lvl[..n], lvl[n], x);
      FindStep(lvl[..n], lvl[n], x);
      FindStep(lvl[..n], lvl[n], q);
      if lvl[n].proc == q {
        PeerStep(lvl[..n], Entry(q, lvl[n].iface + es), x);
        FindStep(lvl[..n], Entry(q, lvl[n].iface + es), x);
      } else if lvl[n].proc < q {
        PeerStep(lvl, Entry(q, es), x);
        FindStep(lvl, Entry(q, es), x);
        AboveAll(lvl, q);
      } else {
        ExtendedFind(lvl[..n], q, es, x);
        PeerStep(Extended(lvl[..n], q, es), lvl[n], x);
        FindStep(Extended(lvl[..n], q, es), lvl[n], x);
      }
    }
  }

  lemma AboveAll<T>(lvl: Level<T>, q: int)
    requires IsLevel(lvl) && |lvl| > 0 && lvl[|lvl| - 1].proc < q
    ensures Find(lvl, q) == []
  { FindAbsent(lvl, q); }

  /** Appending entry by entry is appending them at once. */
  lemma {:induction false} ExtendedTwice<T>(lvl: Level<T>, q: int, a: seq<T>, b: seq<T>)
    ensures Extended(Extended(lvl, q, a), q, b) == Extended(lvl, q, a + b)
  {
    if |lvl| > 0 {
      var n := |lvl| - 1;
      if lvl[n].proc == q {
        assert (lvl[n].iface + a) + b == lvl[n].iface + (a + b);
        assert (lvl[..n] + [Entry(q, lvl[n].iface + a)])[..n] == lvl[..n];
      } else if lvl[n].proc < q {
        assert (lvl + [Entry(q, a)])[..n + 1] == lvl;
      } else {
        ExtendedTwice(lvl[..n], q, a, b);
        var r := Extended(lvl[..n], q, a);
        assert (r + [lvl[n]])[..|r|] == r;
      }
    }
  }

  lemma {:induction false} AddedFind<T>(dest: Level<T>, source: Level<T>, q: int)
    requires IsLevel(dest) && IsLevel(source)
    ensures IsLevel(Added(dest, source))
    ensures Find(Added(dest, source), q) == Find(dest, q) + Find(source, q)
    ensures HasPeer(Added(dest, source), q) <==> HasPeer(dest, q) || HasPeer(source, q)
  {
    hide Extended, HasPeer;
    if |source| == 0 {
      NobodyThere(source, q);
      assert Find(dest, q) + [] == Find(dest, q);
    } else {
      var n := |source| - 1;
      AddedFind(dest, source[..n], q);
      ExtendedIsLevel(Added(dest, source[..n]), source[n].proc, source[n].iface);
      ExtendedFind(Added(dest, source[..n]), source[n].proc, source[n].iface, q);
      assert source == source[..n] + [source[n]];
      PeerStep(source[..n], source[n], q);
      if source[n].proc == q {
        NotBefore(source, n, q);
        assert Find(dest, q) + [] == Find(dest, q);
      }
    }
  }

  lemma NobodyThere<T>(lvl: Level<T>, q: int)
    requires |lvl| == 0
    ensures !HasPeer(lvl, q)
  {}

  lemma PartnersConcat<V, E>(partner: E -> V, a: seq<E>, b: seq<E>)
    ensures Partners(partner, a + b) == Partners(partner, a) + Partners(partner, b)
  {}

  /** Appending layouts that are in step to layouts that are in step keeps them so. */
  lemma AddKeepsStep<V, E>(partner: E -> V, mine: Level<V>, mine': Level<V>, q: int, theirs: Level<E>,
                           theirs': Level<E>, p: int)
    requires IsLevel(mine) && IsLevel(mine') && IsLevel(theirs) && IsLevel(theirs')
    requires InStep(partner, [mine], q, [theirs], p) && InStep(partner, [mine'], q, [theirs'], p)
    ensures InStep(partner, [Added(mine, mine')], q, [Added(theirs, theirs')], p)
  {
    hide Added, Find, HasPeer, IsLevel;
    AddedFind(mine, mine', q);
    AddedFind(theirs, theirs', p);
    PartnersConcat(partner, Find(theirs, p), Find(theirs', p));
    assert At([mine], 0, q) == Partners(partner, At([theirs], 0, p));
    assert At([mine'], 0, q) == Partners(partner, At([theirs'], 0, p));
    assert HasPeerAt([mine], 0, q) <==> HasPeerAt([theirs], 0, p);
    assert HasPeerAt([mine'], 0, q) <==> HasPeerAt([theirs'], 0, p);
    forall l: nat ensures At([Added(mine, mine')], l, q) == Partners(partner, At([Added(theirs, theirs')], l, p)) {}
  }

  // ---- sorting --------------------------------------------------------------------------------------

  lemma {:induction false} SortedFind<T>(lvl: Level<T>, less: (T, T) -> bool, q: int)
    ensures Find(SortedLevel(lvl, less), q) == SortBy(less, Find(lvl, q))
    ensures HasPeer(SortedLevel(lvl, less), q) <==> HasPeer(lvl, q)
  {
    hide SortBy;
    if |lvl| == 0 {
      SortNothing(less);
    } else {
      var n := |lvl| - 1;
      SortedFind(lvl[..n], less, q);
      assert SortedLevel(lvl, less)[..n] == SortedLevel(lvl[..n], less);
      var r := SortedLevel(lvl, less);
      if HasPeer(lvl, q) { var i :| 0 <= i < |lvl| && lvl[i].proc == q; assert r[i].proc == q; }
      if HasPeer(r, q) { var i :| 0 <= i < |r| && r[i].proc == q; assert lvl[i].proc == q; }
    }
  }

  lemma SortNothing<T>(less: (T, T) -> bool)
    ensures SortBy(less, []) == []
  {}

  lemma {:induction false} InsertPartners<V, E>(partner: E -> V, s: seq<E>, e: E, lessV: (V, V) -> bool,
                                                lessE: (E, E) -> bool)
    requires forall x, y :: lessE(x, y) == lessV(partner(x), partner(y))
    ensures Partners(partner, InsertLast(lessE, s, e)) == InsertLast(lessV, Partners(partner, s), partner(e))
  {
    var n := |s| - 1;
    if |s| > 0 && lessE(e, s[n]) {
      InsertPartners(partner, s[..n], e, lessV, lessE);
      assert Partners(partner, s)[..n] == Partners(partner, s[..n]);
    }
  }

  lemma {:induction false} SortPartners<V, E>(partner: E -> V, s: seq<E>, lessV: (V, V) -> bool, lessE: (E, E) -> bool)
    requires forall x, y :: lessE(x, y) == lessV(partner(x), partner(y))
    ensures Partners(partner, SortBy(lessE, s)) == SortBy(lessV, Partners(partner, s))
  {
    if |s| > 0 {
      var n := |s| - 1;
      SortPartners(partner, s[..n], lessV, lessE);
      InsertPartners(partner, SortBy(lessE, s[..n]), s[n], lessV, lessE);
      assert Partners(partner, s)[..n] == Partners(partner, s[..n]);
    }
  }

  /** Sorting by a comparison that agrees on partners keeps two processes in step. */
  lemma SortKeepsStep<V, E>(partner: E -> V, mine: Layout<V>, q: int, theirs: Layout<E>, p: int,
                            lessV: (V, V) -> bool, lessE: (E, E) -> bool)
    requires InStep(partner, mine, q, theirs, p) && forall x, y :: lessE(x, y) == lessV(partner(x), partner(y))
    ensures InStep(partner, SortedLayout(mine, lessV), q, SortedLayout(theirs, lessE), p)
  {
    hide Find, HasPeer, SortBy, SortedLevel;
    forall l: nat
      ensures At(SortedLayout(mine, lessV), l, q) == Partners(partner, At(SortedLayout(theirs, lessE), l, p))
      ensures HasPeerAt(SortedLayout(mine, lessV), l, q) <==> HasPeerAt(SortedLayout(theirs, lessE), l, p)
    {
      assert At(mine, l, q) == Partners(partner, At(theirs, l, p));
      assert HasPeerAt(mine, l, q) <==> HasPeerAt(theirs, l, p);
      if l < |mine| { SortedFind(mine[l], lessV, q); } else { SortNothing(lessV); }
      if l < |theirs| { SortedFind(theirs[l], lessE, p); } else { SortNothing(lessE); }
      SortPartners(partner, At(theirs, l, p), lessV, lessE);
    }
  }

  lemma {:induction false} PartnersMultiset<V, E>(partner: E -> V, a: seq<E>, b: seq<E>)
    requires multiset(a) == multiset(b)
    ensures multiset(Partners(partner, a)) == multiset(Partners(partner, b))
    decreases |a|
  {
    hide Partners;
    SameLength(a, b);
    if |a| == 0 {
      assert a == b;
    } else {
      assert a[0] in multiset(b);
      var k :| 0 <= k < |b| && b[k] == a[0];
      PartnersWithout(partner, a, 0);
      PartnersWithout(partner, b, k);
      PartnersMultiset(partner, a[..0] + a[1..], b[..k] + b[k + 1..]);
    }
  }

  lemma PartnersWithout<V, E>(partner: E -> V, s: seq<E>, k: nat)
    requires k < |s|
    ensures multiset(s[..k] + s[k + 1..]) == multiset(s) - multiset{s[k]}
    ensures multiset(Partners(partner, s)) == multiset(Partners(partner, s[..k] + s[k + 1..])) + multiset{partner(s[k])}
  {
    MovedToEnd(s, k);
    MovedToEnd(Partners(partner, s), k);
    assert Partners(partner, s)[..k] + Partners(partner, s)[k + 1..] == Partners(partner, s[..k] + s[k + 1..]);
  }

  lemma MovedToEnd<T>(s: seq<T>, k: nat)
    requires k < |s|
    ensures multiset(s) == multiset(s[..k] + s[k + 1..]) + multiset{s[k]}
  {
    assert s == s[..k] + [s[k]] + s[k + 1..];
  }

  /** Any sort will do when the shared key tells the entries apart: whatever sorted
      arrangements two processes end up with, partners stand at equal positions. */
  lemma AnySortKeepsPartners<V(!new), E(!new)>(partner: E -> V, mine: seq<V>, theirs: seq<E>, mine': seq<V>,
                                               theirs': seq<E>,
                                                lessV: (V, V) -> bool, lessE: (E, E) -> bool)
    requires mine == Partners(partner, theirs) && forall x, y :: lessE(x, y) == lessV(partner(x), partner(y))
    requires Separates(lessV, mine)
    requires multiset(mine') == multiset(mine) && Sorted(lessV, mine')
    requires multiset(theirs') == multiset(theirs) && Sorted(lessE, theirs')
    ensures mine' == Partners(partner, theirs')
  {
    PartnersMultiset(partner, theirs, theirs');
    SeparatesPermuted(lessV, mine, mine');
    PartnersSorted(partner, theirs', lessV, lessE);
    SortedUnique(lessV, mine', Partners(partner, theirs'));
  }

  lemma SeparatesPermuted<V(!new)>(less: (V, V) -> bool, a: seq<V>, b: seq<V>)
    requires Separates(less, a) && multiset(a) == multiset(b)
    ensures Separates(less, b)
  {
    forall x | x in b ensures x in a { assert x in multiset(a); }
  }

  lemma PartnersSorted<V(!new), E(!new)>(partner: E -> V, s: seq<E>, lessV: (V, V) -> bool, lessE: (E, E) -> bool)
    requires Sorted(lessE, s) && forall x, y :: lessE(x, y) == lessV(partner(x), partner(y))
    ensures Sorted(lessV, Partners(partner, s))
  {
    var r := Partners(partner, s);
    forall i, j | 0 <= i < j < |r| ensures !lessV(r[j], r[i]) { assert !lessE(s[j], s[i]); }
  }
}
