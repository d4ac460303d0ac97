/** The parent/child relation of MultiGrid as a value: what each callback does to it, and the
    invariant that ties parent pointers, child lists, levels and parent types together. */
module GridHierarchy {
  import opened Options
  import opened ChildLists

  datatype Kind = VERTEX | EDGE | FACE | VOLUME

  function Dim(k: Kind): nat {
    match k case VERTEX => 0 case EDGE => 1 case FACE => 2 case VOLUME => 3
  }

  /** A grid object; its kind never changes. */
  datatype Elem = Elem(kind: Kind, id: nat)

  /** MGVertexInfo, MGEdgeInfo, MGFaceInfo and MGVolumeInfo: a single child vertex and lists
      of child edges, faces and volumes, as far as the kind of the parent has them. */
  datatype Info = Info(vrt: Option<Elem>, edges: seq<Elem>, faces: seq<Elem>, volumes: seq<Elem>)
  {
    function Kids(k: Kind): seq<Elem> {
      match k
      case VERTEX => if vrt.Some? then [vrt.value] else []
      case EDGE => edges
      case FACE => faces
      case VOLUME => volumes
    }

    predicate HasChildren() { vrt.Some? || |edges| > 0 || |faces| > 0 || |volumes| > 0 }

    function All(): seq<Elem> { Kids(VERTEX) + edges + faces + volumes }

    /** add_child; a second vertex would overwrite the first where asserts are off. */
    function AddChild(c: Elem): Info {
      match c.kind
      case VERTEX => this.(vrt := Some(c))
      case EDGE => this.(edges := edges + [c])
      case FACE => this.(faces := faces + [c])
      case VOLUME => this.(volumes := volumes + [c])
    }

    /** remove_child of an info of the given kind. */
    function RemoveChild(pk: Kind, c: Elem): Info
      requires pk == VOLUME && c.kind != VERTEX ==> |Kids(c.kind)| > 0
    {
      var list := Kids(c.kind);
      var rest := if c.kind == VERTEX then [] else if pk == VOLUME then SwapPop(list, c) else EraseFirst(list, c);
      match c.kind
      case VERTEX => this.(vrt := None)
      case EDGE => this.(edges := rest)
      case FACE => this.(faces := rest)
      case VOLUME => this.(volumes := rest)
    }

    /** replace_child; the vertex slot is overwritten. */
    function ReplaceChild(n: Elem, o: Elem): Info {
      match n.kind
      case VERTEX => this.(vrt := Some(n))
      case EDGE => this.(edges := ReplaceFirst(edges, n, o))
      case FACE => this.(faces := ReplaceFirst(faces, n, o))
      case VOLUME => this.(volumes := ReplaceFirst(volumes, n, o))
    }
  }

  const EMPTY_INFO := Info(None, [], [], [])

  /** MG_EDGE_MAX_EDGE_CHILDREN, MG_FACE_MAX_EDGE_CHILDREN, MG_FACE_MAX_FACE_CHILDREN; a
      vertex slot holds one child and the lists of a volume are unbounded. */
  predicate Fits(pk: Kind, k: Kind, n: nat) {
    match (pk, k)
    case (_, VERTEX) => n <= 1
    case (VERTEX, _) => n == 0
    case (EDGE, EDGE) => n <= 2
    case (EDGE, _) => n == 0
    case (FACE, EDGE) => n <= 4
    case (FACE, FACE) => n <= 4
    case (FACE, VOLUME) => n == 0
    case (VOLUME, _) => true
  }

  /** Vertices and edges store their info directly, faces and volumes on demand. */
  predicate Embedded(e: Elem) { e.kind == VERTEX || e.kind == EDGE }

  datatype Hierarchy = Hierarchy(
    parent: map<Elem, Option<Elem>>, ptype: map<Elem, int>, level: map<Elem, nat>,
    info: map<Elem, Info>, numLevels: nat, insertion: bool)
  {
    function Kids(p: Elem, k: Kind): seq<Elem> { if p in info then info[p].Kids(k) else [] }

    predicate Live(e: Elem) { e in parent }
  }

  // ---- the invariant --------------------------------------------------------------

  ghost predicate Domains(h: Hierarchy) {
    && h.parent.Keys == h.ptype.Keys == h.level.Keys
    && (forall e :: e in h.info ==> h.Live(e))
  }

  /** Everything a listed child has to satisfy; lists hold no child twice and fit. */
  ghost predicate ListOk(h: Hierarchy, p: Elem, k: Kind) {
    && Distinct(h.Kids(p, k)) && Fits(p.kind, k, |h.Kids(p, k)|)
    && forall c :: c in h.Kids(p, k) ==> c.kind == k && h.Live(c) && h.parent[c] == Some(p)
  }

  /** A parent pointer is matched by a list entry, the dimensions, the parent type and the
      level; the info object exists; levels stay below num_levels. */
  ghost predicate ElemOk(h: Hierarchy, c: Elem)
    requires Domains(h) && h.Live(c)
  {
    && (Embedded(c) ==> c in h.info)
    && h.level[c] < h.numLevels
    && (h.parent[c].Some? ==>
          var p := h.parent[c].value;
          && h.Live(p) && p in h.info && c in h.info[p].Kids(c.kind)
          && Dim(c.kind) <= Dim(p.kind)
          && h.ptype[c] == Dim(p.kind)
          && h.level[c] == h.level[p] + 1)
  }

  ghost predicate Valid(h: Hierarchy) {
    && Domains(h)
    && (forall p, k :: p in h.info ==> ListOk(h, p, k))
    && (forall c :: h.Live(c) ==> ElemOk(h, c))
  }

  /** A child is listed exactly once, exactly under the element its parent pointer names. */
  lemma ListedExactlyUnderParent(h: Hierarchy, p: Elem, c: Elem)
    requires Valid(h)
    ensures c in h.Kids(p, c.kind) <==> h.Live(c) && h.parent[c] == Some(p)
    ensures multiset(h.Kids(p, c.kind))[c] <= 1
    ensures forall k :: k != c.kind ==> c !in h.Kids(p, k)
  {
    if p in h.info {
      assert ListOk(h, p, c.kind);
      AtMostOnce(h.Kids(p, c.kind), c);
      forall k | k != c.kind ensures c !in h.Kids(p, k) { assert ListOk(h, p, k); }
    }
    if h.Live(c) { assert ElemOk(h, c); }
  }

  lemma {:induction false} AtMostOnce(s: seq<Elem>, c: Elem)
    requires Distinct(s)
    ensures multiset(s)[c] <= 1
  {
    if |s| > 0 {
      AtMostOnce(s[1..], c);
      assert s == [s[0]] + s[1..];
      assert s[0] == c ==> c !in s[1..];
      assert c !in s[1..] ==> multiset(s[1..])[c] == 0;
    }
  }

  lemma EmptyIsValid(insertion: bool)
    ensures Valid(Hierarchy(map[], map[], map[], map[], 0, insertion))
  {}

  // ---- creation -------------------------------------------------------------------

  /** A fresh element with its default attachments. */
  function Attached(h: Hierarchy, e: Elem): Hierarchy {
    h.(parent := h.parent[e := None], ptype := h.ptype[e := -1], level := h.level[e := 0],
       info := if Embedded(e) then h.info[e := EMPTY_INFO] else h.info)
  }

  function Max(a: nat, b: nat): nat { if a < b then b else a }

  /** element_created(elem, pParent): the parent gets an info object and lists the element,
      which goes one level up; without a parent it goes to level 0. */
  function Inserted(h: Hierarchy, e: Elem, po: Option<Elem>): Hierarchy
    requires po.Some? ==> po.value in h.level
  {
    match po
    case None =>
      h.(parent := h.parent[e := None], ptype := h.ptype[e := -1], level := h.level[e := 0],
         numLevels := Max(h.numLevels, 1))
    case Some(p) =>
      var lvl := h.level[p] + 1;
      h.(parent := h.parent[e := Some(p)], ptype := h.ptype[e := Dim(p.kind)], level := h.level[e := lvl],
         info := h.info[p := (if p in h.info then h.info[p] else EMPTY_INFO).AddChild(e)],
         numLevels := Max(h.numLevels, lvl + 1))
  }

  /** With hierarchical insertion off, the parent of the given object becomes the parent. */
  function RealParent(h: Hierarchy, po: Option<Elem>): Option<Elem>
    requires po.Some? ==> h.Live(po.value)
  { if !h.insertion && po.Some? then h.parent[po.value] else po }

  /** Edges and faces: the callbacks have no case for a parent of lower dimension. */
  predicate NoCase(e: Elem, po: Option<Elem>) {
    po.Some? && e.kind != VOLUME && Dim(e.kind) > Dim(po.value.kind)
  }

  /** Volumes: the callback asserts that the parent is a volume, and casts it without looking. */
  predicate Asserted(e: Elem, po: Option<Elem>) { po.Some? && e.kind == VOLUME ==> po.value.kind == VOLUME }

  /** *_created without replacement. Without a case the element stays as the grid attached it,
      and on no level. */
  function Created(h: Hierarchy, e: Elem, po: Option<Elem>): Hierarchy
    requires Domains(h) && (po.Some? ==> h.Live(po.value))
    requires RealParent(h, po).Some? ==> h.Live(RealParent(h, po).value)
    requires Asserted(e, RealParent(h, po))
  {
    var rp := RealParent(h, po);
    var a := Attached(h, e);
    if NoCase(e, rp) then a.(level := a.level - {e}) else Inserted(a, e, rp)
  }

  /** There is room for another child of kind k under p. */
  predicate Room(h: Hierarchy, p: Elem, k: Kind) { Fits(p.kind, k, |h.Kids(p, k)| + 1) }

  /** What the grid demands of a creation: a new element, and a parent of no lower dimension. */
  ghost predicate Creatable(h: Hierarchy, e: Elem, po: Option<Elem>) {
    && Valid(h) && !h.Live(e)
    && (po.Some? ==> h.Live(po.value))
    && var rp := RealParent(h, po);
       rp.Some? ==> h.Live(rp.value) && Dim(e.kind) <= Dim(rp.value.kind)
  }

  /** What the grid demands at least: a new element, a parent that exists, and a volume as parent
      of a volume. */
  ghost predicate Requested(h: Hierarchy, e: Elem, po: Option<Elem>) {
    && Valid(h) && !h.Live(e)
    && (po.Some? ==> h.Live(po.value))
    && (RealParent(h, po).Some? ==> h.Live(RealParent(h, po).value))
    && Asserted(e, RealParent(h, po))
  }

  /** The parent of a parent exists as well. */
  lemma RealParentLive(h: Hierarchy, po: Option<Elem>)
    requires Valid(h) && (po.Some? ==> h.Live(po.value))
    ensures RealParent(h, po).Some? ==> h.Live(RealParent(h, po).value)
  { if po.Some? { assert ElemOk(h, po.value); } }

  /** Lists after an insertion: only the list of the parent grows. */
  lemma CreatedKids(h: Hierarchy, e: Elem, po: Option<Elem>, p: Elem, k: Kind)
    requires Creatable(h, e, po)
    ensures var rp := RealParent(h, po);
            Created(h, e, po).Kids(p, k) ==
            if rp == Some(p) && k == e.kind then (if k == VERTEX then [e] else h.Kids(p, k) + [e])
            else h.Kids(p, k)
  {
    assert e !in h.info;
  }

  lemma DistinctAppend(s: seq<Elem>, e: Elem)
    requires Distinct(s) && e !in s
    ensures Distinct(s + [e])
  {}

  lemma ValidDomains(h: Hierarchy)
    requires Valid(h)
    ensures Domains(h)
  {}

  lemma OneVertexFits(pk: Kind)
    ensures Fits(pk, VERTEX, 1)
  {}

  lemma CreatedListOk(h: Hierarchy, e: Elem, po: Option<Elem>, p: Elem, k: Kind)
    requires Creatable(h, e, po)
    requires RealParent(h, po).Some? ==> Room(h, RealParent(h, po).value, e.kind)
    ensures ListOk(Created(h, e, po), p, k)
  {
    hide Valid, ElemOk, Info.AddChild;
    ValidDomains(h);
    var h' := Created(h, e, po);
    CreatedKids(h, e, po, p, k);
    ListsDistinct(h, p, k);
    forall c | c in h.Kids(p, k) ensures c != e && h'.Live(c) && h'.parent[c] == Some(p) && c.kind == k {
      KidKind(h, p, k, c);
    }
    DistinctAppend(h.Kids(p, k), e);
    if k == VERTEX { OneVertexFits(p.kind); }
  }

  lemma CreatedElemOk(h: Hierarchy, e: Elem, po: Option<Elem>, c: Elem)
    requires Creatable(h, e, po) && Domains(Created(h, e, po)) && Created(h, e, po).Live(c)
    requires RealParent(h, po).Some? ==> Room(h, RealParent(h, po).value, e.kind)
    ensures ElemOk(Created(h, e, po), c)
  {
    var h' := Created(h, e, po);
    if c != e {
      assert ElemOk(h, c);
      if h.parent[c].Some? {
        CreatedKids(h, e, po, h.parent[c].value, c.kind);
      }
    } else if RealParent(h, po).Some? {
      CreatedKids(h, e, po, RealParent(h, po).value, e.kind);
    }
  }

  lemma CreatedDomains(h: Hierarchy, e: Elem, po: Option<Elem>)
    requires Creatable(h, e, po)
    ensures Domains(Created(h, e, po))
  { hide ElemOk, ListOk, Info.AddChild; }

  lemma CreatedValid(h: Hierarchy, e: Elem, po: Option<Elem>)
    requires Creatable(h, e, po)
    requires RealParent(h, po).Some? ==> Room(h, RealParent(h, po).value, e.kind)
    ensures Valid(Created(h, e, po))
  {
    hide ElemOk, ListOk, Created;
    var h' := Created(h, e, po);
    CreatedDomains(h, e, po);
    forall p, k | p in h'.info ensures ListOk(h', p, k) { CreatedListOk(h, e, po, p, k); }
    forall c | h'.Live(c) ensures ElemOk(h', c) { CreatedElemOk(h, e, po, c); }
  }

  /** A creation keeps the invariant exactly if the parent, if there is one, has at least the
      dimension of the element and room for it. */
  lemma CreatedValidIff(h: Hierarchy, e: Elem, po: Option<Elem>)
    requires Requested(h, e, po)
    ensures var rp := RealParent(h, po);
            Valid(Created(h, e, po)) <==> (rp.Some? ==> Dim(e.kind) <= Dim(rp.value.kind) && Room(h, rp.value, e.kind))
  {
    var rp := RealParent(h, po);
    if NoCase(e, rp) {
      OnNoLevel(h, e, po);
    } else if rp.None? || Room(h, rp.value, e.kind) {
      CreatedValid(h, e, po);
    } else {
      CreatedOverfull(h, e, po);
    }
  }

  lemma OnNoLevel(h: Hierarchy, e: Elem, po: Option<Elem>)
    requires Requested(h, e, po) && NoCase(e, RealParent(h, po))
    ensures !Valid(Created(h, e, po))
  {
    hide ElemOk, ListOk;
    var h' := Created(h, e, po);
    assert e in h'.parent.Keys && e !in h'.level.Keys;
  }

  lemma CreatedOverfull(h: Hierarchy, e: Elem, po: Option<Elem>)
    requires Creatable(h, e, po) && RealParent(h, po).Some? && !Room(h, RealParent(h, po).value, e.kind)
    ensures !Valid(Created(h, e, po))
  {
    var p := RealParent(h, po).value;
    var h' := Created(h, e, po);
    CreatedKids(h, e, po, p, e.kind);
    if e.kind == VERTEX {
      var v := h.Kids(p, VERTEX)[0];
      assert ListOk(h, p, VERTEX) && v in h.Kids(p, VERTEX);
      assert h'.Live(v) && h'.parent[v] == Some(p) && v !in h'.Kids(p, VERTEX);
      if Valid(h') { ListedExactlyUnderParent(h', p, v); }
    } else {
      assert !ListOk(h', p, e.kind);
    }
  }

  // ---- erasure ----------------------------------------------------------------------

  /** unregister_from_children: the children lose their parent, the lists are emptied. */
  function Orphaned(h: Hierarchy, p: Elem): Hierarchy {
    if p in h.info && h.info[p].HasChildren() then
      h.(parent := map c | c in h.parent :: if c in h.info[p].All() then None else h.parent[c],
         info := h.info[p := EMPTY_INFO])
    else h
  }

  /** release_child_info: only faces and volumes own an info object. */
  function Released(h: Hierarchy, e: Elem): Hierarchy {
    if Embedded(e) then h else h.(info := h.info - {e})
  }

  /** The parent of e drops it from its list. */
  function Unlisted(h: Hierarchy, e: Elem): Hierarchy
    requires Valid(h) && h.Live(e)
  {
    assert ElemOk(h, e);
    match h.parent[e]
    case None => h
    case Some(p) => h.(info := h.info[p := h.info[p].RemoveChild(p.kind, e)])
  }

  /** *_to_be_erased without replacement. The second release concerns the parent. */
  function ToBeErased(h: Hierarchy, e: Elem): Hierarchy
    requires Valid(h) && h.Live(e)
  {
    var h1 := Released(Orphaned(Unlisted(h, e), e), e);
    match h.parent[e]
    case None => h1
    case Some(p) => if p in h1.info && !h1.info[p].HasChildren() then Released(h1, p) else h1
  }

  /** The grid drops the element and its attachments after the callback. */
  function Dropped(h: Hierarchy, e: Elem): Hierarchy {
    h.(parent := h.parent - {e}, ptype := h.ptype - {e}, level := h.level - {e}, info := h.info - {e})
  }

  function Erased(h: Hierarchy, e: Elem): Hierarchy
    requires Valid(h) && h.Live(e)
  { Dropped(ToBeErased(h, e), e) }

  lemma AllKids(inf: Info, c: Elem)
    ensures c in inf.All() <==>
              c in inf.Kids(VERTEX) || c in inf.Kids(EDGE) || c in inf.Kids(FACE) || c in inf.Kids(VOLUME)
    ensures inf.HasChildren() <==> inf.All() != []
  {}

  /** The children of p are the elements whose parent pointer names it. */
  lemma ChildrenOf(h: Hierarchy, p: Elem, c: Elem)
    requires Valid(h)
    ensures p in h.info && c in h.info[p].All() <==> h.Live(c) && h.parent[c] == Some(p)
  {
    ListedExactlyUnderParent(h, p, c);
    if p in h.info {
      AllKids(h.info[p], c);
      assert forall k :: h.Kids(p, k) == h.info[p].Kids(k);
    }
  }

  lemma ParentDiffers(h: Hierarchy, e: Elem)
    requires Valid(h) && h.Live(e) && h.parent[e].Some?
    ensures h.parent[e].value != e && h.Live(h.parent[e].value) && h.parent[e].value in h.info
  { assert ElemOk(h, e); }

  lemma ErasedParentMap(h: Hierarchy, e: Elem)
    requires Valid(h) && h.Live(e)
    ensures var u := Unlisted(h, e);
            && u.parent == h.parent && (e in u.info <==> e in h.info) && (e in h.info ==> u.info[e] == h.info[e])
            && Erased(h, e).parent == Orphaned(u, e).parent - {e}
  {
    hide Valid, ElemOk, ListOk, Info.RemoveChild, Orphaned;
    if h.parent[e].Some? { ParentDiffers(h, e); }
  }

  /** What an erasure does to the pointers: the children of e are left without parent. */
  lemma ErasedParent(h: Hierarchy, e: Elem, c: Elem)
    requires Valid(h) && h.Live(e)
    ensures var h' := Erased(h, e);
            && (h'.Live(c) <==> h.Live(c) && c != e)
            && (h'.Live(c) ==> h'.parent[c] == if h.parent[c] == Some(e) then None else h.parent[c])
  {
    hide Valid, ElemOk, ListOk, Erased, Unlisted, Info.All, Info.HasChildren;
    ErasedParentMap(h, e);
    ChildrenOf(h, e, c);
    if e in h.info { AllKids(h.info[e], c); }
  }

  /** r is s without x: in the list of a volume the last entry takes its place, in all others the
      entries behind it move up. */
  ghost predicate TakenOut(pk: Kind, r: seq<Elem>, s: seq<Elem>, x: Elem) {
    exists pos: nat :: TakenAt(pk, r, s, x, pos)
  }

  ghost predicate TakenAt(pk: Kind, r: seq<Elem>, s: seq<Elem>, x: Elem, pos: nat) {
    && pos < |s| && s[pos] == x
    && r == if pk == VOLUME then s[pos := s[|s| - 1]][..|s| - 1] else s[..pos] + s[pos + 1..]
  }

  lemma RemoveChildOrder(inf: Info, pk: Kind, e: Elem)
    requires e in inf.Kids(e.kind)
    ensures TakenOut(pk, inf.RemoveChild(pk, e).Kids(e.kind), inf.Kids(e.kind), e)
  {
    var s := inf.Kids(e.kind);
    assert TakenAt(pk, inf.RemoveChild(pk, e).Kids(e.kind), s, e, IndexOf(s, e));
  }

  lemma RemoveChildKids(inf: Info, pk: Kind, e: Elem, k: Kind)
    requires Distinct(inf.Kids(e.kind)) && e in inf.Kids(e.kind)
    ensures k != e.kind ==> inf.RemoveChild(pk, e).Kids(k) == inf.Kids(k)
    ensures Without(inf.RemoveChild(pk, e).Kids(e.kind), inf.Kids(e.kind), e)
  {
    if pk == VOLUME {
      SwapPopRemovesOne(inf.Kids(e.kind), e);
    } else {
      EraseRemovesOne(inf.Kids(e.kind), e);
    }
  }

  /** The info objects after an erasure. */
  function InfosWithout(info: map<Elem, Info>, e: Elem, po: Option<Elem>): map<Elem, Info>
    requires po.Some? ==> po.value in info
    requires po.Some? && po.value.kind == VOLUME && e.kind != VERTEX ==> |info[po.value].Kids(e.kind)| > 0
  {
    match po
    case None => info - {e}
    case Some(p) =>
      var rest := info[p].RemoveChild(p.kind, e);
      if rest.HasChildren() || Embedded(p) then info[p := rest] - {e} else info - {p, e}
  }

  lemma ErasedInfoMap(h: Hierarchy, e: Elem)
    requires Valid(h) && h.Live(e)
    ensures h.parent[e].Some? ==> h.parent[e].value in h.info && e in h.info[h.parent[e].value].Kids(e.kind)
    ensures Erased(h, e).info == InfosWithout(h.info, e, h.parent[e])
    ensures var h' := Erased(h, e);
            && h'.ptype == h.ptype - {e} && h'.level == h.level - {e} && h'.numLevels == h.numLevels
            && h'.insertion == h.insertion
  {
    hide Valid, Info.RemoveChild, Info.HasChildren, Orphaned;
    var u := Unlisted(h, e);
    OrphanRelease(u, e);
    var r := Released(Orphaned(u, e), e);
    if h.parent[e].Some? {
      var p := h.parent[e].value;
      ParentDiffers(h, e);
      ListedExactlyUnderParent(h, p, e);
      var rest := u.info[p];
      assert r.info[p] == rest;
      MapDrop(h.info, r.info, p, e, rest);
    }
  }

  lemma MapDrop(m: map<Elem, Info>, r: map<Elem, Info>, p: Elem, e: Elem, rest: Info)
    requires r - {e} == m[p := rest] - {e} && p != e
    ensures (r - {p}) - {e} == m - {p, e}
  {
    assert (r - {p}) - {e} == (r - {e}) - {p};
  }

  lemma OrphanRelease(u: Hierarchy, e: Elem)
    ensures var r := Released(Orphaned(u, e), e);
            && r.info - {e} == u.info - {e}
            && (forall p :: p != e && p in u.info ==> p in r.info && r.info[p] == u.info[p])
            && r.ptype == u.ptype && r.level == u.level && r.numLevels == u.numLevels && r.insertion == u.insertion
            && r.parent == Orphaned(u, e).parent
  {
    hide Info.All, Info.HasChildren;
    OrphanedFrame(u, e);
    hide Orphaned;
    var o := Orphaned(u, e);
    assert Released(o, e).info - {e} == o.info - {e};
  }

  lemma OrphanedFrame(u: Hierarchy, e: Elem)
    ensures var o := Orphaned(u, e);
            && o.info - {e} == u.info - {e}
            && (forall p :: p != e && p in u.info ==> p in o.info && o.info[p] == u.info[p])
            && o.ptype == u.ptype && o.level == u.level && o.numLevels == u.numLevels && o.insertion == u.insertion
  { hide Info.All, Info.HasChildren; }

  lemma KidsWithout(info: map<Elem, Info>, e: Elem, q: Elem, k: Kind)
    requires q in info && Distinct(info[q].Kids(e.kind)) && e in info[q].Kids(e.kind) && q != e
    ensures var m := InfosWithout(info, e, Some(q));
            var list := if q in m then m[q].Kids(k) else [];
            if k == e.kind then Without(list, info[q].Kids(k), e) && TakenOut(q.kind, list, info[q].Kids(k), e)
            else list == info[q].Kids(k)
  {
    hide Info.RemoveChild, Without, TakenOut;
    RemoveChildOrder(info[q], q.kind, e);
    RemoveChildKids(info[q], q.kind, e, k);
    RemoveChildKids(info[q], q.kind, e, e.kind);
    var rest := info[q].RemoveChild(q.kind, e);
    assert !rest.HasChildren() ==> rest.Kids(k) == [];
  }

  /** What it does to the lists: only the one e was listed in shrinks, by e. */
  lemma ErasedKids(h: Hierarchy, e: Elem, p: Elem, k: Kind)
    requires Valid(h) && h.Live(e) && p != e
    ensures var h' := Erased(h, e);
            if h.parent[e] == Some(p) && k == e.kind
            then Without(h'.Kids(p, k), h.Kids(p, k), e) && TakenOut(p.kind, h'.Kids(p, k), h.Kids(p, k), e)
            else h'.Kids(p, k) == h.Kids(p, k)
  {
    hide TakenOut, Valid, ElemOk, ListOk, Info.RemoveChild, Without, Erased;
    ErasedInfoMap(h, e);
    if h.parent[e] == Some(p) {
      ListsDistinct(h, p, e.kind);
      KidsWithout(h.info, e, p, k);
    }
  }

  lemma ListsDistinct(h: Hierarchy, p: Elem, k: Kind)
    requires Valid(h)
    ensures Distinct(h.Kids(p, k)) && Fits(p.kind, k, |h.Kids(p, k)|)
  { if p in h.info { assert ListOk(h, p, k); } }

  /** Which info objects remain: those of other elements, except that of an unembedded parent
      left without children. */
  lemma ErasedInfos(h: Hierarchy, e: Elem, p: Elem)
    requires Valid(h) && h.Live(e)
    ensures var h' := Erased(h, e);
            && (p in h'.info ==> p in h.info && p != e)
            && (p in h.info && p != e && p !in h'.info ==> !Embedded(p) && forall k :: h'.Kids(p, k) == [])
            && h'.ptype == h.ptype - {e} && h'.level == h.level - {e} && h'.numLevels == h.numLevels
            && h'.insertion == h.insertion
  {
    hide Valid, ElemOk, ListOk, Info.RemoveChild, Without, Erased;
    ErasedInfoMap(h, e);
  }

  lemma FitsLess(pk: Kind, k: Kind, n: nat)
    requires Fits(pk, k, n + 1)
    ensures Fits(pk, k, n)
  {}

  lemma ErasedDomains(h: Hierarchy, e: Elem)
    requires Valid(h) && h.Live(e)
    ensures Domains(Erased(h, e))
  {
    hide ElemOk, ListOk, Erased;
    var h' := Erased(h, e);
    ErasedInfos(h, e, e);
    forall c ensures c in h'.parent.Keys <==> c in h.parent.Keys && c != e { ErasedParent(h, e, c); }
    assert h'.parent.Keys == h.parent.Keys - {e};
    forall p | p in h'.info ensures h'.Live(p) {
      ErasedInfos(h, e, p);
      ErasedParent(h, e, p);
    }
  }

  lemma ErasedListOk(h: Hierarchy, e: Elem, p: Elem, k: Kind)
    requires Valid(h) && h.Live(e) && p in Erased(h, e).info
    ensures ListOk(Erased(h, e), p, k)
  {
    hide Valid, Domains, ElemOk, Erased;
    var h' := Erased(h, e);
    ErasedInfos(h, e, p);
    ErasedKids(h, e, p, k);
    ListsDistinct(h, p, k);
    if h.parent[e] == Some(p) && k == e.kind { FitsLess(p.kind, k, |h'.Kids(p, k)|); }
    forall c | c in h'.Kids(p, k) ensures c.kind == k && h'.Live(c) && h'.parent[c] == Some(p) {
      KidKind(h, p, k, c);
      ErasedParent(h, e, c);
    }
  }

  lemma KidKind(h: Hierarchy, p: Elem, k: Kind, c: Elem)
    requires Valid(h) && c in h.Kids(p, k)
    ensures p in h.info && c.kind == k && h.Live(c) && h.parent[c] == Some(p)
  { assert ListOk(h, p, k); }

  lemma ErasedElemOk(h: Hierarchy, e: Elem, c: Elem)
    requires Valid(h) && h.Live(e) && Domains(Erased(h, e)) && Erased(h, e).Live(c)
    ensures ElemOk(Erased(h, e), c)
  {
    hide ListOk, Erased;
    var h' := Erased(h, e);
    ErasedParent(h, e, c);
    ErasedInfos(h, e, c);
    assert ElemOk(h, c);
    if h'.parent[c].Some? {
      var p := h'.parent[c].value;
      assert h.parent[c] == Some(p);
      ErasedKids(h, e, p, c.kind);
      ErasedInfos(h, e, p);
      ErasedParent(h, e, p);
      ListsDistinct(h, p, c.kind);
      assert c in h'.Kids(p, c.kind);
    }
  }

  /** Erasing an element keeps the invariant: no pointer to it remains. */
  lemma ErasedValid(h: Hierarchy, e: Elem)
    requires Valid(h) && h.Live(e)
    ensures Valid(Erased(h, e))
  {
    hide ElemOk, ListOk, Erased, Domains;
    var h' := Erased(h, e);
    ErasedDomains(h, e);
    forall p, k | p in h'.info ensures ListOk(h', p, k) { ErasedListOk(h, e, p, k); }
    forall c | h'.Live(c) ensures ElemOk(h', c) { ErasedElemOk(h, e, c); }
  }
}
