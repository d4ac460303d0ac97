/** The remaining operations on the parent/child relation: clearing children, creation on a
    level, associating a parent, and the replacement of an element. */
module GridEdits {
  import opened Options
  import opened ChildLists
  import opened GridHierarchy

  // ---- clear_child_connections ------------------------------------------------------

  lemma OrphanedKids(h: Hierarchy, p: Elem, q: Elem, k: Kind)
    ensures Orphaned(h, p).Kids(q, k) == if q == p then [] else h.Kids(q, k)
  {}

  lemma OrphanedParent(h: Hierarchy, p: Elem, c: Elem)
    requires Valid(h)
    ensures var h' := Orphaned(h, p);
            && (h'.Live(c) <==> h.Live(c))
            && (h.Live(c) ==> h'.parent[c] == if h.parent[c] == Some(p) then None else h.parent[c])
  {
    hide Valid;
    ChildrenOf(h, p, c);
    if p in h.info { AllKids(h.info[p], c); }
  }

  lemma OrphanedRest(h: Hierarchy, p: Elem)
    ensures var h' := Orphaned(h, p);
            h'.info.Keys == h.info.Keys && h'.ptype == h.ptype && h'.level == h.level && h'.numLevels == h.numLevels
            && h'.parent.Keys == h.parent.Keys && h'.insertion == h.insertion
  {}

  lemma OrphanedListOk(h: Hierarchy, p: Elem, q: Elem, k: Kind)
    requires Valid(h)
    ensures ListOk(Orphaned(h, p), q, k)
  {
    hide Valid, Orphaned;
    var h' := Orphaned(h, p);
    OrphanedKids(h, p, q, k);
    ListsDistinct(h, q, k);
    if q == p { NoneFits(q.kind, k); }
    forall c | c in h'.Kids(q, k) ensures c.kind == k && h'.Live(c) && h'.parent[c] == Some(q) {
      KidKind(h, q, k, c);
      OrphanedParent(h, p, c);
    }
  }

  lemma NoneFits(pk: Kind, k: Kind)
    ensures Fits(pk, k, 0)
  {}

  lemma OrphanedElemOk(h: Hierarchy, p: Elem, c: Elem)
    requires Valid(h) && h.Live(c) && Domains(Orphaned(h, p)) && Orphaned(h, p).Live(c)
    ensures ElemOk(Orphaned(h, p), c)
  {
    hide Orphaned, ListOk;
    OrphanedRest(h, p);
    OrphanedParent(h, p, c);
    assert ElemOk(h, c);
    if Orphaned(h, p).parent[c].Some? { OrphanedKids(h, p, h.parent[c].value, c.kind); }
  }

  lemma OrphanedValid(h: Hierarchy, p: Elem)
    requires Valid(h)
    ensures Valid(Orphaned(h, p))
  {
    hide ElemOk, ListOk, Orphaned;
    var h' := Orphaned(h, p);
    OrphanedRest(h, p);
    forall q, k | q in h'.info ensures ListOk(h', q, k) { OrphanedListOk(h, p, q, k); }
    forall c | h'.Live(c) ensures ElemOk(h', c) { OrphanedElemOk(h, p, c); }
  }

  // ---- create(level) ------------------------------------------------------------------

  /** create(level): created without parent on level 0, then put on the given level. */
  function CreatedAt(h: Hierarchy, e: Elem, lvl: nat): Hierarchy
    requires Domains(h)
  {
    var h1 := Created(h, e, None);
    if lvl > 0 then h1.(level := h1.level[e := lvl], numLevels := Max(h1.numLevels, lvl + 1)) else h1
  }

  lemma CreatedAtValid(h: Hierarchy, e: Elem, lvl: nat)
    requires Valid(h) && !h.Live(e)
    ensures Valid(CreatedAt(h, e, lvl))
  {
    hide Created, ListOk;
    CreatedValid(h, e, None);
    var h1, h' := Created(h, e, None), CreatedAt(h, e, lvl);
    Fresh(h, e);
    forall p, k | p in h'.info ensures ListOk(h', p, k) { SameLists(h1, h', p, k); }
    forall c | h'.Live(c) ensures ElemOk(h', c) { assert ElemOk(h1, c); }
  }

  lemma Fresh(h: Hierarchy, e: Elem)
    requires Valid(h) && !h.Live(e)
    ensures var h1 := Created(h, e, None);
            h1.Live(e) && h1.parent[e] == None && forall c :: h1.Live(c) ==> h1.parent[c] != Some(e)
  {
    forall c | h.Live(c) ensures h.parent[c] != Some(e) { assert ElemOk(h, c); }
  }

  lemma SameLists(h: Hierarchy, h': Hierarchy, p: Elem, k: Kind)
    requires ListOk(h, p, k) && h.info == h'.info && h.parent == h'.parent
    ensures ListOk(h', p, k)
  {}

  // ---- associate_parent ------------------------------------------------------------------

  /** associate_parent(elem, parent) for a parent of no lower dimension: the old parent drops
      the element, the new one lists it; the level stays as it is. */
  function Associated(h: Hierarchy, e: Elem, p: Elem): Hierarchy
    requires Valid(h) && h.Live(e)
  {
    if h.parent[e] == Some(p) then h
    else
      var u := Unlisted(h, e);
      u.(parent := u.parent[e := Some(p)], ptype := u.ptype[e := Dim(p.kind)],
         info := u.info[p := (if p in u.info then u.info[p] else EMPTY_INFO).AddChild(e)])
  }

  lemma UnlistedKids(h: Hierarchy, e: Elem, q: Elem, k: Kind)
    requires Valid(h) && h.Live(e)
    ensures var u := Unlisted(h, e);
            && u.parent == h.parent && u.ptype == h.ptype && u.level == h.level && u.numLevels == h.numLevels
            && u.info.Keys == h.info.Keys && u.insertion == h.insertion
            && if h.parent[e] == Some(q) && k == e.kind
               then Without(u.Kids(q, k), h.Kids(q, k), e) && TakenOut(q.kind, u.Kids(q, k), h.Kids(q, k), e)
               else u.Kids(q, k) == h.Kids(q, k)
  {
    hide Valid, Without, TakenOut, Info.RemoveChild;
    if h.parent[e].Some? {
      var p := h.parent[e].value;
      ParentDiffers(h, e);
      ListedExactlyUnderParent(h, p, e);
      ListsDistinct(h, p, e.kind);
      RemoveChildOrder(h.info[p], p.kind, e);
      RemoveChildKids(h.info[p], p.kind, e, k);
      RemoveChildKids(h.info[p], p.kind, e, e.kind);
    }
  }

  lemma AssociatedKids(h: Hierarchy, e: Elem, p: Elem, q: Elem, k: Kind)
    requires Valid(h) && h.Live(e) && h.parent[e] != Some(p)
    ensures var h' := Associated(h, e, p);
            if q == p && k == e.kind then h'.Kids(q, k) == (if k == VERTEX then [e] else h.Kids(q, k) + [e])
            else if h.parent[e] == Some(q) && k == e.kind
            then Without(h'.Kids(q, k), h.Kids(q, k), e) && TakenOut(q.kind, h'.Kids(q, k), h.Kids(q, k), e)
            else h'.Kids(q, k) == h.Kids(q, k)
  {
    hide Valid, Without, TakenOut, Unlisted;
    UnlistedKids(h, e, q, k);
  }

  ghost predicate Associable(h: Hierarchy, e: Elem, p: Elem) {
    Valid(h) && h.Live(e) && h.Live(p) && Dim(e.kind) <= Dim(p.kind)
  }

  lemma AssociatedRest(h: Hierarchy, e: Elem, p: Elem)
    requires Associable(h, e, p) && h.parent[e] != Some(p)
    ensures var h' := Associated(h, e, p);
            && h'.parent == h.parent[e := Some(p)] && h'.ptype == h.ptype[e := Dim(p.kind)]
            && h'.level == h.level && h'.numLevels == h.numLevels && h'.info.Keys == h.info.Keys + {p}
            && h'.insertion == h.insertion
  {
    hide Valid, Unlisted;
    UnlistedKids(h, e, e, e.kind);
  }

  lemma AssociatedListOk(h: Hierarchy, e: Elem, p: Elem, q: Elem, k: Kind)
    requires Associable(h, e, p) && h.parent[e] != Some(p) && Room(h, p, e.kind)
    ensures ListOk(Associated(h, e, p), q, k)
  {
    hide Valid, Associated;
    var h' := Associated(h, e, p);
    AssociatedKids(h, e, p, q, k);
    AssociatedRest(h, e, p);
    ListsDistinct(h, q, k);
    ListedExactlyUnderParent(h, q, e);
    if q == p && k == e.kind {
      DistinctAppend(h.Kids(q, k), e);
      if k == VERTEX { OneVertexFits(q.kind); }
    } else if h.parent[e] == Some(q) && k == e.kind {
      FitsLess(q.kind, k, |h'.Kids(q, k)|);
    }
    forall c | c in h'.Kids(q, k) ensures c.kind == k && h'.Live(c) && h'.parent[c] == Some(q) {
      if c != e { KidKind(h, q, k, c); }
    }
  }

  lemma AssociatedElemOk(h: Hierarchy, e: Elem, p: Elem, c: Elem)
    requires Associable(h, e, p) && h.parent[e] != Some(p) && Room(h, p, e.kind) && h.level[e] == h.level[p] + 1
    requires Domains(Associated(h, e, p)) && Associated(h, e, p).Live(c)
    ensures ElemOk(Associated(h, e, p), c)
  {
    hide Associated, ListOk;
    var h' := Associated(h, e, p);
    AssociatedRest(h, e, p);
    assert h.Live(c) && ElemOk(h, c);
    if c == e {
      AssociatedKids(h, e, p, p, e.kind);
    } else if h.parent[c].Some? {
      var q := h.parent[c].value;
      AssociatedKids(h, e, p, q, c.kind);
      if q == p && e.kind == VERTEX && c.kind == VERTEX { TwoVertices(h, p, c); }
    }
  }

  /** A parent with a child vertex has no room for another one. */
  lemma TwoVertices(h: Hierarchy, p: Elem, c: Elem)
    requires c in h.Kids(p, VERTEX)
    ensures !Room(h, p, VERTEX)
  {}

  lemma AssociatedValid(h: Hierarchy, e: Elem, p: Elem)
    requires Associable(h, e, p) && h.parent[e] != Some(p) && Room(h, p, e.kind) && h.level[e] == h.level[p] + 1
    ensures Valid(Associated(h, e, p))
  {
    hide ElemOk, ListOk, Associated;
    var h' := Associated(h, e, p);
    AssociatedRest(h, e, p);
    forall q, k | q in h'.info ensures ListOk(h', q, k) { AssociatedListOk(h, e, p, q, k); }
    forall c | h'.Live(c) ensures ElemOk(h', c) { AssociatedElemOk(h, e, p, c); }
  }

  /** associate_parent keeps the invariant exactly if it does nothing, or the parent is one
      level below the element and has room for it. */
  lemma AssociatedValidIff(h: Hierarchy, e: Elem, p: Elem)
    requires Associable(h, e, p)
    ensures Valid(Associated(h, e, p)) <==>
            h.parent[e] == Some(p) || (h.level[e] == h.level[p] + 1 && Room(h, p, e.kind))
  {
    if h.parent[e] != Some(p) {
      var h' := Associated(h, e, p);
      AssociatedRest(h, e, p);
      AssociatedKids(h, e, p, p, e.kind);
      if h.level[e] != h.level[p] + 1 {
        LevelBroken(h', e, p);
      } else if !Room(h, p, e.kind) {
        if e.kind == VERTEX {
          var v := h.Kids(p, VERTEX)[0];
          KidKind(h, p, VERTEX, v);
          VertexLost(h', p, v);
        } else {
          Overfull(h', p, e.kind);
        }
      } else {
        AssociatedValid(h, e, p);
      }
    }
  }

  lemma LevelBroken(h: Hierarchy, e: Elem, p: Elem)
    requires e in h.parent && e in h.level && p in h.level && h.parent[e] == Some(p) && h.level[e] != h.level[p] + 1
    ensures !Valid(h)
  { if Valid(h) { LevelFollows(h, e); } }

  lemma LevelFollows(h: Hierarchy, e: Elem)
    requires Valid(h) && h.Live(e) && h.parent[e].Some?
    ensures h.parent[e].value in h.level && h.level[e] == h.level[h.parent[e].value] + 1
  { assert ElemOk(h, e); }

  lemma VertexLost(h: Hierarchy, p: Elem, v: Elem)
    requires Unmatched(h, p, v)
    ensures !Valid(h)
  { if Valid(h) { ListedExactlyUnderParent(h, p, v); } }

  ghost predicate Unmatched(h: Hierarchy, p: Elem, v: Elem) {
    h.Live(v) && h.parent[v] == Some(p) && v !in h.Kids(p, v.kind)
  }

  lemma Overfull(h: Hierarchy, p: Elem, k: Kind)
    requires !Fits(p.kind, k, |h.Kids(p, k)|)
    ensures !Valid(h)
  { if Valid(h) { ListsDistinct(h, p, k); } }
}
