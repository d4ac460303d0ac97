/** What a creation does to every field of the hierarchy, element by element. */
module GridEffects {
  import opened Options
  import opened GridHierarchy
  import opened GridEdits

  ghost predicate Same<V>(m: map<Elem, V>, m': map<Elem, V>, x: Elem) {
    (x in m <==> x in m') && (x in m ==> m[x] == m'[x])
  }

  /** The pointer, the parent type and the level of x are what they were. */
  ghost predicate Kept(h: Hierarchy, h': Hierarchy, x: Elem) {
    Same(h.parent, h'.parent, x) && Same(h.ptype, h'.ptype, x) && Same(h.level, h'.level, x)
  }

  /** The attachments of one element. */
  ghost predicate Has(h: Hierarchy, e: Elem, parent: Option<Elem>, ptype: int, level: nat) {
    && e in h.parent && h.parent[e] == parent
    && e in h.ptype && h.ptype[e] == ptype
    && e in h.level && h.level[e] == level
  }

  /** Only the list of p for the kind of e grows, by e at its end. */
  ghost predicate ListedUnder(h: Hierarchy, h': Hierarchy, e: Elem, p: Elem) {
    && (forall q, k :: q != e && (q != p || k != e.kind) ==> h'.Kids(q, k) == h.Kids(q, k))
    && h'.Kids(p, e.kind) == if e.kind == VERTEX then [e] else h.Kids(p, e.kind) + [e]
  }

  ghost predicate AtLeast(numLevels: nat, before: nat, needed: nat) {
    numLevels >= before && numLevels >= needed && (numLevels == before || numLevels == needed)
  }

  /** The element enters on level 0 without a parent, or one level above its parent and at the end
      of its list; or, with a parent of lower dimension, on no level. The parent is the one passed,
      or the parent of that one if hierarchical insertion is off. Nothing else changes. */
  ghost predicate Enters(h: Hierarchy, h': Hierarchy, e: Elem, po: Option<Elem>)
    requires po.Some? ==> po.value in h.parent
  {
    var rp := if po.Some? && !h.insertion then h.parent[po.value] else po;
    && h'.insertion == h.insertion
    && (forall k :: h'.Kids(e, k) == [])
    && (forall x :: x != e ==> Kept(h, h', x))
    && match rp
       case None =>
         && Has(h', e, None, -1, 0) && AtLeast(h'.numLevels, h.numLevels, 1)
         && forall q, k :: q != e ==> h'.Kids(q, k) == h.Kids(q, k)
       case Some(p) =>
         if (e.kind == EDGE && p.kind == VERTEX) || (e.kind == FACE && (p.kind == VERTEX || p.kind == EDGE)) then
           && e in h'.parent && h'.parent[e] == None && e in h'.ptype && h'.ptype[e] == -1 && e !in h'.level
           && h'.numLevels == h.numLevels
           && forall q, k :: q != e ==> h'.Kids(q, k) == h.Kids(q, k)
         else
           && p in h.level && Has(h', e, Some(p), TypeOf(p), h.level[p] + 1)
           && AtLeast(h'.numLevels, h.numLevels, h.level[p] + 2)
           && ListedUnder(h, h', e, p)
  }

  /** base_object_id */
  function TypeOf(p: Elem): int {
    if p.kind == VERTEX then 0 else if p.kind == EDGE then 1 else if p.kind == FACE then 2 else 3
  }

  lemma NothingUnder(h: Hierarchy, e: Elem, k: Kind)
    requires Valid(h) && !h.Live(e)
    ensures e !in h.info && h.Kids(e, k) == []
  {}

  lemma CreationEffect(h: Hierarchy, e: Elem, po: Option<Elem>)
    requires Requested(h, e, po)
    ensures Enters(h, Created(h, e, po), e, po)
  {
    var rp := RealParent(h, po);
    forall k ensures h.Kids(e, k) == [] && e !in h.info { NothingUnder(h, e, k); }
    if NoCase(e, rp) {
      NoCaseEffect(h, e, po);
    } else if rp.None? {
      RootEffect(h, e, po);
    } else {
      ChildEffect(h, e, po);
    }
  }

  lemma NoCaseEffect(h: Hierarchy, e: Elem, po: Option<Elem>)
    requires Requested(h, e, po) && NoCase(e, RealParent(h, po)) && e !in h.info
    ensures Enters(h, Created(h, e, po), e, po)
  { hide ElemOk, ListOk; }

  lemma RootEffect(h: Hierarchy, e: Elem, po: Option<Elem>)
    requires Requested(h, e, po) && RealParent(h, po).None? && e !in h.info
    ensures Enters(h, Created(h, e, po), e, po)
  {
    RootFields(h, e, po);
    RootLists(h, e, po);
    hide Created, Valid, Has, Kept, AtLeast;
  }

  lemma RootFields(h: Hierarchy, e: Elem, po: Option<Elem>)
    requires Requested(h, e, po) && RealParent(h, po).None? && e !in h.info
    ensures var h' := Created(h, e, po);
            && h'.insertion == h.insertion && Has(h', e, None, -1, 0) && AtLeast(h'.numLevels, h.numLevels, 1)
            && forall x :: x != e ==> Kept(h, h', x)
  { hide ElemOk, ListOk; }

  lemma RootLists(h: Hierarchy, e: Elem, po: Option<Elem>)
    requires Requested(h, e, po) && RealParent(h, po).None? && e !in h.info
    ensures var h' := Created(h, e, po);
            (forall k :: h'.Kids(e, k) == []) && forall q, k :: q != e ==> h'.Kids(q, k) == h.Kids(q, k)
  { hide ElemOk, ListOk; }

  lemma ChildEffect(h: Hierarchy, e: Elem, po: Option<Elem>)
    requires Requested(h, e, po) && RealParent(h, po).Some? && !NoCase(e, RealParent(h, po)) && e !in h.info
    ensures Enters(h, Created(h, e, po), e, po)
  {
    hide Info.AddChild;
    var p, h' := RealParent(h, po).value, Created(h, e, po);
    forall q, k ensures h'.Kids(q, k) ==
              if q == p && k == e.kind then (if k == VERTEX then [e] else h.Kids(q, k) + [e]) else h.Kids(q, k)
    { CreatedKids(h, e, po, q, k); }
    ChildFields(h, e, po);
    hide Valid, Created;
    forall k ensures h'.Kids(e, k) == [] { assert h.Kids(e, k) == []; }
  }

  lemma ChildFields(h: Hierarchy, e: Elem, po: Option<Elem>)
    requires Requested(h, e, po) && RealParent(h, po).Some? && !NoCase(e, RealParent(h, po)) && e !in h.info
    ensures var p, h' := RealParent(h, po).value, Created(h, e, po);
            && h'.insertion == h.insertion && p != e && p in h.level
            && Has(h', e, Some(p), TypeOf(p), h.level[p] + 1) && AtLeast(h'.numLevels, h.numLevels, h.level[p] + 2)
            && forall x :: x != e ==> Kept(h, h', x)
  { hide ElemOk, ListOk, Info.AddChild; }

  /** create(level): the element is on that level, without a parent; nothing else changes. */
  lemma CreationOnLevelEffect(h: Hierarchy, e: Elem, lvl: nat)
    requires Valid(h) && !h.Live(e)
    ensures var h' := CreatedAt(h, e, lvl);
            && Has(h', e, None, -1, lvl) && AtLeast(h'.numLevels, h.numLevels, lvl + 1)
            && h'.insertion == h.insertion && (forall k :: h'.Kids(e, k) == [])
            && forall x :: x != e ==> Kept(h, h', x) && forall k :: h'.Kids(x, k) == h.Kids(x, k)
  {
    CreationEffect(h, e, None);
    hide Created, Valid;
    var h1, h' := Created(h, e, None), CreatedAt(h, e, lvl);
    assert h'.info == h1.info;
    forall x | x != e ensures Kept(h, h', x) && forall k :: h'.Kids(x, k) == h.Kids(x, k) {
      assert Kept(h, h1, x);
      forall k ensures h'.Kids(x, k) == h.Kids(x, k) { assert h1.Kids(x, k) == h.Kids(x, k); }
    }
  }
}
