/** Replacing an element: created with replacesParent, then erased with replacedBy. */
module GridReplacement {
  import opened Options
  import opened ChildLists
  import opened GridHierarchy
  import opened GridEdits

  /** element_created(elem, pParent, pReplaceMe): n takes the place of o in the list of o's
      parent, and o's level and parent type. o itself still points to that parent. */
  function Placed(h: Hierarchy, n: Elem, o: Elem): Hierarchy
    requires Domains(h) && h.Live(o) && (h.parent[o].Some? ==> h.parent[o].value in h.info)
  {
    var a := Attached(h, n);
    a.(parent := a.parent[n := h.parent[o]], ptype := a.ptype[n := h.ptype[o]], level := a.level[n := h.level[o]],
       info := match h.parent[o]
         case None => a.info
         case Some(p) => a.info[p := a.info[p].ReplaceChild(n, o)])
  }

  /** The children of o are handed to n; a face or volume gets an info object only for that. */
  function Moved(h: Hierarchy, n: Elem, o: Elem): Hierarchy {
    if o in h.info && h.info[o].HasChildren() then
      h.(parent := map c | c in h.parent :: if c in h.info[o].All() then Some(n) else h.parent[c],
         ptype := map c | c in h.ptype :: if c in h.info[o].All() then Dim(n.kind) else h.ptype[c],
         info := h.info[n := h.info[o]])
    else h
  }

  ghost predicate Replaceable(h: Hierarchy, n: Elem, o: Elem) {
    Valid(h) && h.Live(o) && !h.Live(n) && n.kind == o.kind
  }

  /** State between the two callbacks. */
  function Midway(h: Hierarchy, n: Elem, o: Elem): Hierarchy
    requires Replaceable(h, n, o)
  {
    assert ElemOk(h, o);
    Moved(Placed(h, n, o), n, o)
  }

  /** The second callback returns at once because a replacement is given; the grid drops o. */
  function Replaced(h: Hierarchy, n: Elem, o: Elem): Hierarchy
    requires Replaceable(h, n, o)
  { Dropped(Midway(h, n, o), o) }

  lemma PlacedIs(h: Hierarchy, n: Elem, o: Elem)
    requires Replaceable(h, n, o)
    ensures h.parent[o].Some? ==> h.parent[o].value in h.info && h.parent[o].value != o && h.parent[o].value != n
    ensures n !in h.info && n !in h.parent && n != o && Domains(h)
    ensures forall p :: p in h.info ==> h.Live(p)
  {
    if h.parent[o].Some? { ParentDiffers(h, o); }
  }

  lemma ReplaceChildKids(inf: Info, n: Elem, o: Elem, k: Kind)
    ensures inf.ReplaceChild(n, o).Kids(k) ==
            if k != n.kind then inf.Kids(k) else if k == VERTEX then [n] else ReplaceFirst(inf.Kids(k), n, o)
  {}

  lemma PlacedKids(h: Hierarchy, n: Elem, o: Elem, p: Elem, k: Kind)
    requires Replaceable(h, n, o) && (h.parent[o].Some? ==> h.parent[o].value in h.info)
    ensures Placed(h, n, o).Kids(p, k) ==
            if p == n then []
            else if h.parent[o] == Some(p) && k == o.kind
            then (if k == VERTEX then [n] else ReplaceFirst(h.Kids(p, k), n, o))
            else h.Kids(p, k)
    ensures o in h.info ==> o in Placed(h, n, o).info && Placed(h, n, o).info[o] == h.info[o]
    ensures o !in h.info ==> o !in Placed(h, n, o).info
    ensures Placed(h, n, o).info.Keys == h.info.Keys + (if Embedded(n) then {n} else {})
  {
    hide Valid, Info.ReplaceChild, ReplaceFirst;
    PlacedIs(h, n, o);
    if h.parent[o].Some? { ReplaceChildKids(h.info[h.parent[o].value], n, o, k); }
  }

  /** Lists between the callbacks. */
  lemma MidwayKids(h: Hierarchy, n: Elem, o: Elem, p: Elem, k: Kind)
    requires Replaceable(h, n, o)
    ensures Midway(h, n, o).Kids(p, k) ==
            if p == n then h.Kids(o, k)
            else if h.parent[o] == Some(p) && k == o.kind
            then (if k == VERTEX then [n] else ReplaceFirst(h.Kids(p, k), n, o))
            else h.Kids(p, k)
  {
    hide Valid, Info.All, Placed, ReplaceFirst, Info.Kids;
    PlacedIs(h, n, o);
    PlacedKids(h, n, o, p, k);
    if o in h.info { NoChildrenNoKids(h.info[o], k); }
  }

  lemma NoChildrenNoKids(inf: Info, k: Kind)
    ensures !inf.HasChildren() ==> inf.Kids(k) == []
  {}

  lemma MidwayPointers(h: Hierarchy, n: Elem, o: Elem, c: Elem)
    requires Replaceable(h, n, o)
    ensures var m := Midway(h, n, o);
            && (m.Live(c) <==> h.Live(c) || c == n)
            && (m.Live(c) ==>
                  m.parent[c] ==
                    if c == n then h.parent[o] else if h.parent[c] == Some(o) then Some(n) else h.parent[c])
  {
    hide Valid, ElemOk, ListOk;
    PlacedIs(h, n, o);
    ChildrenOf(h, o, c);
    ChildrenOf(h, o, n);
    if o in h.info { AllKids(h.info[o], c); AllKids(h.info[o], n); }
  }

  lemma PlacedRest(h: Hierarchy, n: Elem, o: Elem)
    requires Replaceable(h, n, o) && (h.parent[o].Some? ==> h.parent[o].value in h.info)
    ensures var a := Placed(h, n, o);
            && a.parent.Keys == a.ptype.Keys == a.level.Keys == h.parent.Keys + {n} && Domains(h)
            && a.level == h.level[n := h.level[o]] && a.numLevels == h.numLevels && a.ptype == h.ptype[n := h.ptype[o]]
            && a.insertion == h.insertion
  {
    hide Info.ReplaceChild, ElemOk, ListOk;
  }

  lemma MovedRest(a: Hierarchy, n: Elem, o: Elem, c: Elem)
    requires c in a.ptype
    requires a.parent.Keys == a.ptype.Keys == a.level.Keys
    ensures var m := Moved(a, n, o);
            && m.parent.Keys == m.ptype.Keys == m.level.Keys == a.parent.Keys
            && m.level == a.level && m.numLevels == a.numLevels && m.insertion == a.insertion
            && m.ptype[c] == if o in a.info && c in a.info[o].All() then Dim(n.kind) else a.ptype[c]
  {
    if o in a.info { AllKids(a.info[o], c); }
  }

  lemma MidwayRest(h: Hierarchy, n: Elem, o: Elem, c: Elem)
    requires Replaceable(h, n, o)
    ensures var m := Midway(h, n, o);
            && m.parent.Keys == m.ptype.Keys == m.level.Keys == h.parent.Keys + {n}
            && m.level == h.level[n := h.level[o]] && m.numLevels == h.numLevels && m.insertion == h.insertion
            && (h.Live(c) ==> m.ptype[c] == h.ptype[c]) && m.ptype[n] == h.ptype[o]
  {
    hide Valid, ListOk, ElemOk, Info.All, Placed, Moved;
    PlacedIs(h, n, o);
    PlacedRest(h, n, o);
    PlacedKids(h, n, o, o, VERTEX);
    ChildrenOf(h, o, n);
    MovedRest(Placed(h, n, o), n, o, n);
    if h.Live(c) {
      ChildrenOf(h, o, c);
      ParentTypeFollows(h, c);
      MovedRest(Placed(h, n, o), n, o, c);
    }
  }

  lemma MidwayInfos(h: Hierarchy, n: Elem, o: Elem, c: Elem)
    requires Replaceable(h, n, o)
    ensures var m := Midway(h, n, o);
            && (c != n ==> (c in m.info <==> c in h.info))
            && (Embedded(n) ==> n in m.info)
            && (c in m.Kids(n, c.kind) ==> n in m.info)
  {
    hide Valid, ListOk, Placed, Info.All;
    PlacedIs(h, n, o);
    PlacedKids(h, n, o, n, c.kind);
  }

  lemma ParentTypeFollows(h: Hierarchy, c: Elem)
    requires Valid(h) && h.Live(c)
    ensures h.parent[c].Some? ==> h.ptype[c] == Dim(h.parent[c].value.kind)
  { assert ElemOk(h, c); }

  // ---- the transaction --------------------------------------------------------------

  lemma ReplacedDomains(h: Hierarchy, n: Elem, o: Elem)
    requires Replaceable(h, n, o)
    ensures Domains(Replaced(h, n, o))
  {
    hide Midway, ElemOk, ListOk;
    MidwayRest(h, n, o, o);
    var m := Midway(h, n, o);
    forall c | c in m.info ensures m.Live(c) {
      MidwayInfos(h, n, o, c);
      PlacedIs(h, n, o);
    }
  }

  /** Lists afterwards: the list o was in holds n at the same place, the lists of n are those
      of o, all others are as before. */
  lemma ReplacedKids(h: Hierarchy, n: Elem, o: Elem, p: Elem, k: Kind)
    requires Replaceable(h, n, o) && p != o
    ensures var h' := Replaced(h, n, o);
            && Distinct(h'.Kids(p, k))
            && if p == n then h'.Kids(p, k) == h.Kids(o, k) else Swapped(h'.Kids(p, k), h.Kids(p, k), n, o)
  {
    hide Midway, Valid, ElemOk, ListOk, ReplaceFirst, Swapped, Distinct;
    MidwayKids(h, n, o, p, k);
    ListsDistinct(h, if p == n then o else p, k);
    if p != n {
      ListedExactlyUnderParent(h, p, o);
      NotListed(h, p, k, n);
      SwapInList(h.Kids(p, k), n, o);
      if k == VERTEX && o in h.Kids(p, k) { VertexSlot(h, p, o, n); }
    }
  }

  /** r is s with the new element in the place of the old one. */
  ghost predicate Swapped(r: seq<Elem>, s: seq<Elem>, n: Elem, o: Elem) {
    |r| == |s| && forall i :: 0 <= i < |s| ==> r[i] == if s[i] == o then n else s[i]
  }

  lemma SwapInList(s: seq<Elem>, n: Elem, o: Elem)
    requires Distinct(s) && n !in s
    ensures o in s ==> Swapped(ReplaceFirst(s, n, o), s, n, o) && Distinct(ReplaceFirst(s, n, o))
    ensures o !in s ==> Swapped(s, s, n, o)
  { if o in s { ReplaceKeepsPlaces(s, n, o); } }

  lemma VertexSlot(h: Hierarchy, p: Elem, o: Elem, n: Elem)
    requires o in h.Kids(p, VERTEX)
    ensures Swapped([n], h.Kids(p, VERTEX), n, o) && Distinct([n])
  {}

  lemma NotListed(h: Hierarchy, p: Elem, k: Kind, n: Elem)
    requires Valid(h) && !h.Live(n)
    ensures n !in h.Kids(p, k)
  { if n in h.Kids(p, k) { KidKind(h, p, k, n); } }

  lemma ReplacedPointers(h: Hierarchy, n: Elem, o: Elem, c: Elem)
    requires Replaceable(h, n, o)
    ensures var h' := Replaced(h, n, o);
            && (h'.Live(c) <==> c == n || (h.Live(c) && c != o))
            && (h'.Live(c) ==>
                  h'.parent[c] ==
                    if c == n then h.parent[o] else if h.parent[c] == Some(o) then Some(n) else h.parent[c])
  {
    hide Midway, Valid, ElemOk, ListOk;
    MidwayPointers(h, n, o, c);
    PlacedIs(h, n, o);
  }

  lemma ReplacedListOk(h: Hierarchy, n: Elem, o: Elem, p: Elem, k: Kind)
    requires Replaceable(h, n, o) && p != o
    ensures ListOk(Replaced(h, n, o), p, k)
  {
    hide Valid, ElemOk, Replaced;
    var h' := Replaced(h, n, o);
    var p0 := if p == n then o else p;
    ReplacedKids(h, n, o, p, k);
    ListsDistinct(h, p0, k);
    forall c | c in h'.Kids(p, k) ensures c.kind == k && h'.Live(c) && h'.parent[c] == Some(p) {
      var i :| 0 <= i < |h'.Kids(p, k)| && h'.Kids(p, k)[i] == c;
      KidKind(h, p0, k, h.Kids(p0, k)[i]);
      ReplacedPointers(h, n, o, c);
      PlacedIs(h, n, o);
      ParentLive(h, o);
    }
  }

  lemma ParentLive(h: Hierarchy, o: Elem)
    requires Valid(h) && h.Live(o)
    ensures h.parent[o] != Some(o)
    ensures h.parent[o].Some? ==> h.Live(h.parent[o].value)
  { if h.parent[o].Some? { ParentDiffers(h, o); } }

  lemma ReplacedElemOk(h: Hierarchy, n: Elem, o: Elem, c: Elem)
    requires Replaceable(h, n, o) && Domains(Replaced(h, n, o)) && Replaced(h, n, o).Live(c)
    ensures ElemOk(Replaced(h, n, o), c)
  {
    hide ListOk, Midway;
    var h' := Replaced(h, n, o);
    ReplacedPointers(h, n, o, c);
    MidwayRest(h, n, o, c);
    MidwayInfos(h, n, o, c);
    var c0 := if c == n then o else c;
    assert ElemOk(h, c0);
    ParentLive(h, c0);
    PlacedIs(h, n, o);
    if h.parent[c0].Some? { ReplacedListed(h, n, o, c0); }
  }

  lemma ReplacedListed(h: Hierarchy, n: Elem, o: Elem, c0: Elem)
    requires Replaceable(h, n, o) && h.Live(c0) && h.parent[c0].Some?
    ensures var h' := Replaced(h, n, o);
            var p := if h.parent[c0].value == o then n else h.parent[c0].value;
            var c := if c0 == o then n else c0;
            && p in h'.info && c in h'.info[p].Kids(c.kind) && h'.Live(p) && p.kind == h.parent[c0].value.kind
  {
    hide Valid, ListOk, ElemOk, Midway;
    var h' := Replaced(h, n, o);
    var p0 := h.parent[c0].value;
    var p := if p0 == o then n else p0;
    var c := if c0 == o then n else c0;
    PlacedIs(h, n, o);
    ParentLive(h, c0);
    ParentLive(h, o);
    ListedExactlyUnderParent(h, p0, c0);
    ReplacedKids(h, n, o, p, c.kind);
    var i :| 0 <= i < |h.Kids(p0, c0.kind)| && h.Kids(p0, c0.kind)[i] == c0;
    assert h'.Kids(p, c.kind)[i] == c;
    ReplacedPointers(h, n, o, p);
  }

  /** The transaction as a whole keeps the invariant. */
  lemma ReplacedValid(h: Hierarchy, n: Elem, o: Elem)
    requires Replaceable(h, n, o)
    ensures Valid(Replaced(h, n, o))
  {
    hide ElemOk, ListOk, Replaced;
    var h' := Replaced(h, n, o);
    ReplacedDomains(h, n, o);
    forall p, k | p in h'.info ensures ListOk(h', p, k) {
      ReplacedPointers(h, n, o, p);
      ReplacedListOk(h, n, o, p, k);
    }
    forall c | h'.Live(c) ensures ElemOk(h', c) { ReplacedElemOk(h, n, o, c); }
  }

  /** The new element stands where the old one stood: same level, parent type and parent, same
      place in its parent's list, all children of all kinds in the same order; and no live
      element refers to the old one any more. */
  lemma ReplacementIsComplete(h: Hierarchy, n: Elem, o: Elem)
    requires Replaceable(h, n, o)
    ensures var h' := Replaced(h, n, o);
            && h'.Live(n) && !h'.Live(o)
            && h'.level[n] == h.level[o] && h'.ptype[n] == h.ptype[o] && h'.parent[n] == h.parent[o]
            && (forall k :: h'.Kids(n, k) == h.Kids(o, k))
            && (h.parent[o].Some? ==>
                  Swapped(h'.Kids(h.parent[o].value, o.kind), h.Kids(h.parent[o].value, o.kind), n, o))
            && (forall c :: h'.Live(c) ==> h'.parent[c] != Some(o))
            && (forall p, k :: o !in h'.Kids(p, k))
  {
    hide Valid, ElemOk, ListOk, Replaced;
    var h' := Replaced(h, n, o);
    PlacedIs(h, n, o);
    ReplacedPointers(h, n, o, n);
    ReplacedPointers(h, n, o, o);
    ReplacedLevel(h, n, o);
    forall k ensures h'.Kids(n, k) == h.Kids(o, k) { ReplacedKids(h, n, o, n, k); }
    if h.parent[o].Some? { ReplacedKids(h, n, o, h.parent[o].value, o.kind); }
    forall c | h'.Live(c) ensures h'.parent[c] != Some(o) {
      ReplacedPointers(h, n, o, c);
      ParentLive(h, o);
    }
    ReplacedValid(h, n, o);
    forall p, k ensures o !in h'.Kids(p, k) { NotListed(h', p, k, o); }
  }

  /** All other elements keep level and parent type. */
  lemma ReplacedFrame(h: Hierarchy, n: Elem, o: Elem, c: Elem)
    requires Replaceable(h, n, o) && h.Live(c) && c != o
    ensures var h' := Replaced(h, n, o);
            && c in h.level && c in h.ptype && c in h'.level && c in h'.ptype
            && h'.level[c] == h.level[c] && h'.ptype[c] == h.ptype[c]
            && h'.numLevels == h.numLevels && h'.insertion == h.insertion
  {
    hide Midway, Valid;
    MidwayRest(h, n, o, c);
    PlacedIs(h, n, o);
  }

  lemma ReplacedLevel(h: Hierarchy, n: Elem, o: Elem)
    requires Replaceable(h, n, o)
    ensures var h' := Replaced(h, n, o);
            n in h'.level && n in h'.ptype && h'.level[n] == h.level[o] && h'.ptype[n] == h.ptype[o]
  {
    hide Midway, Valid;
    MidwayRest(h, n, o, n);
    PlacedIs(h, n, o);
  }

  /** Between the callbacks the invariant holds only for an isolated element: with a parent,
      the old element points to a parent that no longer lists it; with children, it still
      lists children that point elsewhere. */
  lemma MidwayValidIff(h: Hierarchy, n: Elem, o: Elem)
    requires Replaceable(h, n, o)
    ensures Valid(Midway(h, n, o)) <==> h.parent[o].None? && forall k :: h.Kids(o, k) == []
  {
    hide Valid, ElemOk, ListOk, Midway;
    var m := Midway(h, n, o);
    PlacedIs(h, n, o);
    if h.parent[o].Some? {
      var p := h.parent[o].value;
      MidwayPointers(h, n, o, o);
      MidwayKids(h, n, o, p, o.kind);
      ParentLive(h, o);
      ListedExactlyUnderParent(h, p, o);
      ListsDistinct(h, p, o.kind);
      NotListed(h, p, o.kind, n);
      if o.kind != VERTEX { ReplaceKeepsPlaces(h.Kids(p, o.kind), n, o); }
      if Valid(m) { ListedExactlyUnderParent(m, p, o); }
    } else if k :| h.Kids(o, k) != [] {
      var c := h.Kids(o, k)[0];
      KidKind(h, o, k, c);
      MidwayPointers(h, n, o, c);
      MidwayKids(h, n, o, o, k);
      if Valid(m) { KidKind(m, o, k, c); }
    } else {
      MidwayIsolated(h, n, o);
    }
  }

  lemma MidwayIsolated(h: Hierarchy, n: Elem, o: Elem)
    requires Replaceable(h, n, o) && h.parent[o].None? && forall k :: h.Kids(o, k) == []
    ensures Valid(Midway(h, n, o))
  {
    hide Midway, ElemOk, ListOk;
    var m := Midway(h, n, o);
    MidwayRest(h, n, o, o);
    forall c | c in m.info ensures m.Live(c) { MidwayInfos(h, n, o, c); }
    forall p, k | p in m.info ensures ListOk(m, p, k) { IsolatedListOk(h, n, o, p, k); }
    forall c | m.Live(c) ensures ElemOk(m, c) { IsolatedElemOk(h, n, o, c); }
  }

  lemma IsolatedListOk(h: Hierarchy, n: Elem, o: Elem, p: Elem, k: Kind)
    requires Replaceable(h, n, o) && h.parent[o].None? && forall k :: h.Kids(o, k) == []
    ensures ListOk(Midway(h, n, o), p, k)
  {
    hide Valid, ElemOk, Midway;
    var m := Midway(h, n, o);
    MidwayKids(h, n, o, p, k);
    ListsDistinct(h, p, k);
    NoneFits(p.kind, k);
    forall c | c in m.Kids(p, k) ensures c.kind == k && m.Live(c) && m.parent[c] == Some(p) {
      KidKind(h, p, k, c);
      MidwayPointers(h, n, o, c);
      PlacedIs(h, n, o);
    }
  }

  lemma IsolatedElemOk(h: Hierarchy, n: Elem, o: Elem, c: Elem)
    requires Replaceable(h, n, o) && h.parent[o].None? && forall k :: h.Kids(o, k) == []
    requires Domains(Midway(h, n, o)) && Midway(h, n, o).Live(c)
    ensures ElemOk(Midway(h, n, o), c)
  {
    hide Midway, ListOk;
    MidwayPointers(h, n, o, c);
    MidwayRest(h, n, o, c);
    MidwayInfos(h, n, o, c);
    PlacedIs(h, n, o);
    if c == n {
      assert ElemOk(h, o);
    } else {
      assert ElemOk(h, c);
      if h.parent[c].Some? {
        var p := h.parent[c].value;
        ListedExactlyUnderParent(h, p, c);
        MidwayKids(h, n, o, p, c.kind);
        MidwayInfos(h, n, o, p);
        ParentLive(h, c);
        MidwayPointers(h, n, o, p);
      }
    }
  }
}
