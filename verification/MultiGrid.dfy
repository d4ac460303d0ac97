/** MultiGrid: the callbacks that keep the hierarchy up to date, with the loops they run. */
module MultiGridClass {
  import opened Options
  import opened GridHierarchy
  import opened GridEdits
  import opened GridReplacement
  import opened GridEffects
  import opened GridDescendants

  class MultiGrid {
    var parent: map<Elem, Option<Elem>>     // m_pParent of vertices and edges, m_aaParent of the others
    var parentType: map<Elem, int>
    var level: map<Elem, nat>               // m_hierarchy
    var info: map<Elem, Info>               // present only where an info object exists
    var numLevels: nat
    var hierarchicalInsertion: bool

    function Abs(): Hierarchy
      reads this
    { Hierarchy(parent, parentType, level, info, numLevels, hierarchicalInsertion) }

    constructor ()
      ensures Abs() == Hierarchy(map[], map[], map[], map[], 0, true) && Valid(Abs())
    {
      parent, parentType, level, info, numLevels, hierarchicalInsertion := map[], map[], map[], map[], 0, true;
      new;
      EmptyIsValid(true);
    }

    method EnableHierarchicalInsertion(bEnable: bool)
      modifies this`hierarchicalInsertion
      ensures hierarchicalInsertion == bEnable
    { hierarchicalInsertion := bEnable; }

    /** One subset is added to the hierarchy handler per level. */
    method CreateLevels(n: nat)
      modifies this`numLevels
      ensures numLevels == old(numLevels) + n
    {
      for i := 0 to n
        invariant numLevels == old(numLevels) + i
      {
        numLevels := numLevels + 1;
      }
    }

    method LevelRequired(lvl: nat)
      modifies this`numLevels
      ensures numLevels == Max(old(numLevels), lvl + 1)
    {
      if numLevels <= lvl { CreateLevels(lvl - numLevels + 1); }
    }

    /** The grid attaches default values before it calls the observers. */
    method Attach(e: Elem)
      modifies this
      ensures Abs() == Attached(old(Abs()), e)
    {
      parent, parentType, level := parent[e := None], parentType[e := -1], level[e := 0];
      if Embedded(e) { info := info[e := EMPTY_INFO]; }
    }

    method CreateChildInfo(e: Elem)
      requires Embedded(e) ==> e in info
      modifies this`info
      ensures info == if e in old(info) then old(info) else old(info)[e := EMPTY_INFO]
    {
      if e !in info { info := info[e := EMPTY_INFO]; }
    }

    method ReleaseChildInfo(e: Elem)
      modifies this`info
      ensures info == if Embedded(e) then old(info) else old(info) - {e}
    {
      if !Embedded(e) { info := info - {e}; }
    }

    /** element_created(elem, pParent). */
    method ElementCreated(e: Elem, pParent: Option<Elem>)
      requires pParent.Some? ==> pParent.value in level && (Embedded(pParent.value) ==> pParent.value in info)
      modifies this
      ensures Abs() == Inserted(old(Abs()), e, pParent)
    {
      var lvl := 0;
      match pParent {
        case Some(p) =>
          lvl := level[p] + 1;
          parentType := parentType[e := Dim(p.kind)];
        case None => parentType := parentType[e := -1];
      }
      parent := parent[e := pParent];
      if pParent.Some? {
        CreateChildInfo(pParent.value);
        info := info[pParent.value := info[pParent.value].AddChild(e)];
      }
      LevelRequired(lvl);
      level := level[e := lvl];
    }

    /** element_created(elem, pParent, pReplaceMe). */
    method ElementCreatedReplacing(e: Elem, pParent: Option<Elem>, replaceMe: Elem)
      requires replaceMe in level && replaceMe in parentType && (pParent.Some? ==> pParent.value in info)
      modifies this
      ensures parent == old(parent)[e := pParent]
      ensures info == match pParent
                      case None => old(info)
                      case Some(p) => old(info)[p := old(info)[p].ReplaceChild(e, replaceMe)]
      ensures level == old(level)[e := old(level)[replaceMe]]
      ensures parentType == old(parentType)[e := old(parentType)[replaceMe]]
      ensures numLevels == Max(old(numLevels), old(level)[replaceMe] + 1)
      ensures hierarchicalInsertion == old(hierarchicalInsertion)
    {
      var lvl := level[replaceMe];
      parent := parent[e := pParent];
      match pParent {
        case Some(p) => info := info[p := info[p].ReplaceChild(e, replaceMe)];
        case None =>
      }
      LevelRequired(lvl);
      level := level[e := lvl];
      parentType := parentType[e := parentType[replaceMe]];
    }

    /** One loop of a replacement: the children of one kind go to n. */
    method MoveList(n: Elem, kids: seq<Elem>, k: Kind)
      requires n in info && info[n].Kids(k) == [] && k != VERTEX
      requires forall c :: c in kids ==> c.kind == k && c in parent && c in parentType
      modifies this`parent, this`parentType, this`info
      ensures parent == Repointed(old(parent), kids, Some(n))
      ensures parentType == Retyped(old(parentType), kids, Dim(n.kind))
      ensures info == old(info)[n := WithKids(old(info)[n], k, kids)]
    {
      for i := 0 to |kids|
        invariant parent == Repointed(old(parent), kids[..i], Some(n))
        invariant parentType == Retyped(old(parentType), kids[..i], Dim(n.kind))
        invariant n in info && info == old(info)[n := WithKids(old(info)[n], k, kids[..i])]
      {
        assert kids[..i + 1] == kids[..i] + [kids[i]];
        info := info[n := info[n].AddChild(kids[i])];
        parent := parent[kids[i] := Some(n)];
        parentType := parentType[kids[i] := Dim(n.kind)];
      }
      assert kids[..|kids|] == kids;
    }

    method MoveVertex(n: Elem, theirs: Info)
      requires n in info && info[n] == EMPTY_INFO
      requires theirs.vrt.Some? ==>
                 theirs.vrt.value.kind == VERTEX && theirs.vrt.value in parent && theirs.vrt.value in parentType
      modifies this`parent, this`parentType, this`info
      ensures parent == Repointed(old(parent), theirs.Kids(VERTEX), Some(n))
      ensures parentType == Retyped(old(parentType), theirs.Kids(VERTEX), Dim(n.kind))
      ensures info == old(info)[n := EMPTY_INFO.(vrt := theirs.vrt)]
    {
      if theirs.vrt.Some? {
        var c := theirs.vrt.value;
        info := info[n := info[n].AddChild(c)];
        parent := parent[c := Some(n)];
        parentType := parentType[c := Dim(n.kind)];
      }
    }

    /** Copying the children of o, in the order vertex, edges, faces, volumes. */
    method MoveChildren(n: Elem, o: Elem)
      requires n in info && o in info && n != o && info[n] == EMPTY_INFO
      requires forall k, c :: c in info[o].Kids(k) ==> c.kind == k && c in parent && c in parentType
      modifies this`parent, this`parentType, this`info
      ensures parent == Repointed(old(parent), old(info)[o].All(), Some(n))
      ensures parentType == Retyped(old(parentType), old(info)[o].All(), Dim(n.kind))
      ensures info == old(info)[n := old(info)[o]]
    {
      hide Info.All, Repointed, Retyped;
      var theirs := info[o];
      KidsInDomain(theirs, parent, parentType);
      MoveVertex(n, theirs);
      RepointKeeps(old(parent), theirs.Kids(VERTEX), Some(n));
      RetypeKeeps(old(parentType), theirs.Kids(VERTEX), Dim(n.kind));
      RepointKeeps(parent, theirs.edges, Some(n));
      RetypeKeeps(parentType, theirs.edges, Dim(n.kind));
      MoveList(n, theirs.edges, EDGE);
      MoveHighLists(n, theirs);
      RepointTwice(old(parent), theirs, n);
      RetypeTwice(old(parentType), theirs, n);
    }

    method MoveHighLists(n: Elem, theirs: Info)
      requires n in info && info[n].faces == [] == info[n].volumes
      requires forall c :: c in theirs.faces ==> c.kind == FACE && c in parent && c in parentType
      requires forall c :: c in theirs.volumes ==> c.kind == VOLUME && c in parent && c in parentType
      modifies this`parent, this`parentType, this`info
      ensures parent == Repointed(Repointed(old(parent), theirs.faces, Some(n)), theirs.volumes, Some(n))
      ensures parentType == Retyped(Retyped(old(parentType), theirs.faces, Dim(n.kind)), theirs.volumes, Dim(n.kind))
      ensures info == old(info)[n := old(info)[n].(faces := theirs.faces, volumes := theirs.volumes)]
    {
      hide Repointed, Retyped;
      RepointKeeps(parent, theirs.faces, Some(n));
      RetypeKeeps(parentType, theirs.faces, Dim(n.kind));
      MoveList(n, theirs.faces, FACE);
      MoveList(n, theirs.volumes, VOLUME);
    }

    /** One loop of unregister_from_children. */
    method ForgetParent(kids: seq<Elem>)
      requires forall c :: c in kids ==> c in parent
      modifies this`parent
      ensures parent == Repointed(old(parent), kids, None)
    {
      for i := 0 to |kids|
        invariant parent == Repointed(old(parent), kids[..i], None)
      {
        assert kids[..i + 1] == kids[..i] + [kids[i]];
        parent := parent[kids[i] := None];
      }
      assert kids[..|kids|] == kids;
    }

    method UnregisterFromChildren(p: Elem)
      requires p in info && forall c :: c in info[p].All() ==> c in parent
      modifies this`parent, this`info
      ensures parent == Repointed(old(parent), old(info)[p].All(), None)
      ensures info == old(info)[p := EMPTY_INFO]
    {
      var mine := info[p];
      assert forall c :: c in mine.edges || c in mine.faces || c in mine.volumes ==> c in mine.All();
      if mine.vrt.Some? {
        assert mine.vrt.value in mine.Kids(VERTEX);
        assert mine.vrt.value in mine.All();
        parent := parent[mine.vrt.value := None];
      }
      assert parent == Repointed(old(parent), mine.Kids(VERTEX), None);
      ForgetParent(mine.edges);
      ForgetParent(mine.faces);
      ForgetParent(mine.volumes);
      ForgetAll(old(parent), mine);
      info := info[p := EMPTY_INFO];
    }

    /** clear_child_connections. */
    method ClearChildConnections(p: Elem)
      requires Valid(Abs()) && Abs().Live(p)
      modifies this
      ensures Abs() == Orphaned(old(Abs()), p) && Valid(Abs())
    {
      hide Valid;
      OrphanedValid(Abs(), p);
      if p in info && info[p].HasChildren() {
        ChildrenLive(Abs(), p);
        UnregisterFromChildren(p);
      }
    }

    /** associate_parent; a parent of lower dimension is an error. */
    method AssociateParent(e: Elem, p: Elem) returns (ok: bool)
      requires Valid(Abs()) && Abs().Live(e) && Abs().Live(p)
      modifies this
      ensures ok <==> Dim(e.kind) <= Dim(p.kind)
      ensures Abs() == if ok then Associated(old(Abs()), e, p) else old(Abs())
    {
      hide Valid;
      if Dim(e.kind) > Dim(p.kind) { return false; }
      ok := true;
      var oldParent := parent[e];
      if oldParent == Some(p) { return; }
      InfoOfParent(Abs(), e);
      EmbeddedHasInfo(Abs(), p);
      if oldParent.Some? {
        info := info[oldParent.value := info[oldParent.value].RemoveChild(oldParent.value.kind, e)];
      }
      TypesKnown(old(Abs()), e);
      CreateChildInfo(p);
      info := info[p := info[p].AddChild(e)];
      parentType := parentType[e := Dim(p.kind)];
      parent := parent[e := Some(p)];
    }

    /** element_to_be_erased(elem): children lose their parent, an own info object is freed. */
    method ElementToBeErased(e: Elem)
      requires e in info ==> forall c :: c in info[e].All() ==> c in parent
      modifies this`parent, this`info
      ensures Abs() == Released(Orphaned(old(Abs()), e), e)
    {
      if e in info && info[e].HasChildren() { UnregisterFromChildren(e); }
      ReleaseChildInfo(e);
    }

    /** The *_to_be_erased callbacks, followed by the removal of the element by the grid. */
    method ObjectErased(e: Elem, replacedBy: Option<Elem>)
      requires Abs().Live(e) && (replacedBy.None? ==> Valid(Abs()))
      modifies this
      ensures Abs() == if replacedBy.Some? then Dropped(old(Abs()), e) else Erased(old(Abs()), e)
      ensures replacedBy.None? ==> Valid(Abs())
    {
      hide Valid, Info.RemoveChild;
      if replacedBy.None? {
        ghost var h := Abs();
        ErasedValid(h, e);
        InfoOfParent(h, e);
        ChildrenLive(h, e);
        var pParent := parent[e];
        match pParent {
          case Some(p) =>
            info := info[p := info[p].RemoveChild(p.kind, e)];
            assert Abs() == Unlisted(h, e);
            ElementToBeErased(e);
            if p in info && !info[p].HasChildren() { ReleaseChildInfo(p); }
          case None =>
            ElementToBeErased(e);
        }
        assert Abs() == ToBeErased(h, e);
      }
      parent, parentType, level, info := parent - {e}, parentType - {e}, level - {e}, info - {e};
    }

    /** First half of the replacement branch: the place in the hierarchy. */
    method PlaceObject(ghost h: Hierarchy, e: Elem, o: Elem)
      requires Replaceable(h, e, o) && Abs() == Attached(h, e)
      modifies this
      ensures (h.parent[o].Some? ==> h.parent[o].value in h.info) && Domains(h) && Abs() == Placed(h, e, o)
    {
      hide Valid, ElemOk, ListOk, Info.ReplaceChild;
      PlacedIs(h, e, o);
      LevelBounded(h, o);
      ElementCreatedReplacing(e, parent[o], o);
    }

    /** Second half: the children of the replaced object. */
    method AdoptChildren(ghost h: Hierarchy, e: Elem, o: Elem)
      requires Replaceable(h, e, o) && (h.parent[o].Some? ==> h.parent[o].value in h.info) && Abs() == Placed(h, e, o)
      modifies this
      ensures Abs() == Midway(h, e, o)
    {
      hide Valid, ElemOk, ListOk, Placed, Info.All, Info.Kids, Info.HasChildren, Repointed, Retyped;
      PlacedIs(h, e, o);
      ChildrenLive(h, o);
      PlacedKids(h, e, o, o, VERTEX);
      PlacedEmpty(h, e, o);
      if o in info && info[o].HasChildren() {
        CreateChildInfo(e);
        MoveChildren(e, o);
        MovedAs(Placed(h, e, o), e, o);
      }
    }

    /** The *_created callbacks, preceded by the attachments the grid makes. */
    method ObjectCreated(e: Elem, pParent: Option<Elem>, replacesParent: bool)
      requires if replacesParent then pParent.Some? && Replaceable(Abs(), e, pParent.value)
               else Requested(Abs(), e, pParent)
      modifies this
      ensures Abs() == if replacesParent then Midway(old(Abs()), e, pParent.value) else Created(old(Abs()), e, pParent)
      ensures !replacesParent ==> Enters(old(Abs()), Abs(), e, pParent)
    {
      ghost var was := Abs();
      if !replacesParent { CreationEffect(was, e, pParent); }
      hide Valid, ElemOk, ListOk, Midway, Placed, Inserted;
      ghost var h := Abs();
      Attach(e);
      if replacesParent {
        PlaceObject(h, e, pParent.value);
        AdoptChildren(h, e, pParent.value);
      } else {
        RequestedParent(h, e, pParent);
        var newParent := if !hierarchicalInsertion && pParent.Some? then parent[pParent.value] else pParent;
        if NoCase(e, newParent) {
          level := level - {e};
        } else {
          ElementCreated(e, newParent);
        }
      }
    }

    /** The replacement transaction as the grid runs it. */
    method ReplaceObject(n: Elem, o: Elem)
      requires Replaceable(Abs(), n, o)
      modifies this
      ensures Abs() == Replaced(old(Abs()), n, o) && Valid(Abs())
    {
      hide Valid;
      ReplacedValid(Abs(), n, o);
      ObjectCreated(n, Some(o), true);
      StillLive(old(Abs()), n, o);
      ObjectErased(o, Some(n));
    }

    /** num_children_total: children of the same kind, their children, and so on. */
    method NumChildrenTotal(e: Elem) returns (n: nat)
      requires Valid(Abs()) && Abs().Live(e)
      ensures n == |Descendants(Abs(), e)|
      decreases if e in level && level[e] <= numLevels then numLevels - level[e] else 0
    {
      hide Valid, Descendants, Covered;
      var kids := Abs().Kids(e, e.kind);
      n := |kids|;
      CoveredNone(Abs(), kids);
      for i := 0 to |kids|
        invariant n == |kids| - i + |Covered(Abs(), kids, i)|
      {
        KidKind(Abs(), e, e.kind, kids[i]);
        LevelBounded(Abs(), kids[i]);
        ParentLevel(Abs(), kids[i]);
        var below := NumChildrenTotal(kids[i]);
        CoveredStep(Abs(), e, i);
        n := n + below;
      }
      CoveredAll(Abs(), e);
    }
  }

  // ---- facts the methods need -----------------------------------------------------------

  function Repointed(parent: map<Elem, Option<Elem>>, kids: seq<Elem>, po: Option<Elem>): map<Elem, Option<Elem>> {
    map c | c in parent :: if c in kids then po else parent[c]
  }

  function Retyped(ptype: map<Elem, int>, kids: seq<Elem>, t: int): map<Elem, int> {
    map c | c in ptype :: if c in kids then t else ptype[c]
  }

  lemma RepointKeeps(parent: map<Elem, Option<Elem>>, kids: seq<Elem>, po: Option<Elem>)
    ensures Repointed(parent, kids, po).Keys == parent.Keys
  {}

  lemma RetypeKeeps(ptype: map<Elem, int>, kids: seq<Elem>, t: int)
    ensures Retyped(ptype, kids, t).Keys == ptype.Keys
  {}

  function WithKids(inf: Info, k: Kind, kids: seq<Elem>): Info
    requires k != VERTEX
  {
    match k
    case EDGE => inf.(edges := kids)
    case FACE => inf.(faces := kids)
    case VOLUME => inf.(volumes := kids)
  }

  lemma KidsInDomain(inf: Info, parent: map<Elem, Option<Elem>>, ptype: map<Elem, int>)
    requires forall k, c :: c in inf.Kids(k) ==> c.kind == k && c in parent && c in ptype
    ensures forall c :: c in inf.edges ==> c.kind == EDGE && c in parent && c in ptype
    ensures forall c :: c in inf.faces ==> c.kind == FACE && c in parent && c in ptype
    ensures forall c :: c in inf.volumes ==> c.kind == VOLUME && c in parent && c in ptype
    ensures inf.vrt.Some? ==> inf.vrt.value.kind == VERTEX && inf.vrt.value in parent && inf.vrt.value in ptype
  {
    assert inf.vrt.Some? ==> inf.vrt.value in inf.Kids(VERTEX);
    assert inf.Kids(EDGE) == inf.edges && inf.Kids(FACE) == inf.faces && inf.Kids(VOLUME) == inf.volumes;
  }

  lemma RepointTwice(parent: map<Elem, Option<Elem>>, inf: Info, n: Elem)
    ensures Repointed(
            Repointed(Repointed(Repointed(parent, inf.Kids(VERTEX), Some(n)), inf.edges, Some(n)), inf.faces, Some(n)),
            inf.volumes, Some(n)) == Repointed(parent, inf.All(), Some(n))
  {}

  lemma RetypeTwice(ptype: map<Elem, int>, inf: Info, n: Elem)
    ensures var d := Dim(n.kind);
            Retyped(
              Retyped(Retyped(Retyped(ptype, inf.Kids(VERTEX), d), inf.edges, d), inf.faces, d),
              inf.volumes, d) == Retyped(ptype, inf.All(), d)
  {}

  lemma ForgetAll(parent: map<Elem, Option<Elem>>, inf: Info)
    ensures Repointed(
            Repointed(Repointed(Repointed(parent, inf.Kids(VERTEX), None), inf.edges, None), inf.faces, None),
            inf.volumes, None) == Repointed(parent, inf.All(), None)
  {}

  lemma ChildrenLive(h: Hierarchy, p: Elem)
    requires Valid(h)
    ensures p in h.info ==> forall c :: c in h.info[p].All() ==> c in h.parent && c in h.ptype
    ensures p in h.info ==> forall k, c :: c in h.info[p].Kids(k) ==> c.kind == k && c in h.parent && c in h.ptype
  {
    if p in h.info {
      forall c | c in h.info[p].All() ensures c in h.parent { ChildrenOf(h, p, c); }
      forall k, c | c in h.info[p].Kids(k) ensures c.kind == k && c in h.parent { KidKind(h, p, k, c); }
    }
  }

  lemma InfoOfParent(h: Hierarchy, e: Elem)
    requires Valid(h) && h.Live(e)
    ensures h.parent[e].Some? ==>
              var p := h.parent[e].value; p in h.info && e in h.info[p].Kids(e.kind) && p != e
  { if h.parent[e].Some? { ParentDiffers(h, e); ListedExactlyUnderParent(h, h.parent[e].value, e); } }

  lemma EmbeddedHasInfo(h: Hierarchy, p: Elem)
    requires Valid(h) && h.Live(p)
    ensures Embedded(p) ==> p in h.info
  { assert ElemOk(h, p); }

  lemma TypesKnown(h: Hierarchy, e: Elem)
    requires Valid(h) && h.Live(e)
    ensures e in h.ptype && e in h.level
  {}

  lemma LevelBounded(h: Hierarchy, e: Elem)
    requires Valid(h) && h.Live(e)
    ensures e in h.level && e in h.ptype && h.level[e] < h.numLevels
  { assert ElemOk(h, e); }

  lemma RequestedParent(h: Hierarchy, e: Elem, po: Option<Elem>)
    requires Requested(h, e, po)
    ensures Domains(h)
    ensures var rp := RealParent(h, po);
            rp.Some? ==> rp.value in h.level && (Embedded(rp.value) ==> rp.value in h.info) && rp.value != e
    ensures po.Some? ==> po.value != e
  {
    var rp := RealParent(h, po);
    if rp.Some? { EmbeddedHasInfo(h, rp.value); LevelBounded(h, rp.value); }
  }

  lemma MovedAs(a: Hierarchy, n: Elem, o: Elem)
    requires o in a.info && a.info[o].HasChildren()
    ensures var m := Moved(a, n, o);
            && m.parent == Repointed(a.parent, a.info[o].All(), Some(n))
            && m.ptype == Retyped(a.ptype, a.info[o].All(), Dim(n.kind))
            && m.info == a.info[n := a.info[o]] && m.level == a.level
            && m.numLevels == a.numLevels && m.insertion == a.insertion
  {}

  lemma PlacedEmpty(h: Hierarchy, n: Elem, o: Elem)
    requires Replaceable(h, n, o) && (h.parent[o].Some? ==> h.parent[o].value in h.info)
    ensures Placed(h, n, o).info.Keys == h.info.Keys + (if Embedded(n) then {n} else {}) && n !in h.info && n != o
    ensures Embedded(n) ==> Placed(h, n, o).info[n] == EMPTY_INFO
    ensures Placed(h, n, o).parent.Keys == Placed(h, n, o).ptype.Keys == h.parent.Keys + {n}
  {
    hide Valid, ElemOk, ListOk, Info.ReplaceChild;
    PlacedIs(h, n, o);
    PlacedRest(h, n, o);
  }

  lemma StillLive(h: Hierarchy, n: Elem, o: Elem)
    requires Replaceable(h, n, o)
    ensures Midway(h, n, o).Live(o)
  { MidwayPointers(h, n, o, o); }

  lemma CoveredNone(h: Hierarchy, kids: seq<Elem>)
    requires Valid(h)
    ensures Covered(h, kids, 0) == {}
  {}
}
