/** Smallest grids on which an operation breaks the invariant although its arguments exist. */
module GridWitnesses {
  import opened Options
  import opened GridHierarchy
  import opened GridEdits
  import opened GridReplacement

  function Vtx(i: nat): Elem { Elem(VERTEX, i) }

  function Nothing(): Hierarchy { Hierarchy(map[], map[], map[], map[], 0, true) }

  /** Vertex 0 on level 0. */
  function OneVertex(): Hierarchy {
    Hierarchy(map[Vtx(0) := None], map[Vtx(0) := -1], map[Vtx(0) := 0], map[Vtx(0) := EMPTY_INFO], 1, true)
  }

  /** Vertex 0 and its child, vertex 1. */
  function ParentAndChild(): Hierarchy {
    Hierarchy(map[Vtx(0) := None, Vtx(1) := Some(Vtx(0))], map[Vtx(0) := -1, Vtx(1) := 0],
              map[Vtx(0) := 0, Vtx(1) := 1],
              map[Vtx(0) := EMPTY_INFO.(vrt := Some(Vtx(1))), Vtx(1) := EMPTY_INFO], 2, true)
  }

  /** Vertices 0 and 1 on level 0. */
  function TwoOnLevelZero(): Hierarchy {
    Hierarchy(map[Vtx(0) := None, Vtx(1) := None], map[Vtx(0) := -1, Vtx(1) := -1], map[Vtx(0) := 0, Vtx(1) := 0],
              map[Vtx(0) := EMPTY_INFO, Vtx(1) := EMPTY_INFO], 1, true)
  }

  lemma OneVertexValid()
    ensures Valid(OneVertex())
  {
    EmptyIsValid(true);
    CreatedValidIff(Nothing(), Vtx(0), None);
    assert Created(Nothing(), Vtx(0), None) == OneVertex();
  }

  lemma ParentAndChildValid()
    ensures Valid(ParentAndChild())
  {
    hide Valid, ElemOk, ListOk;
    OneVertexValid();
    CreatedValidIff(OneVertex(), Vtx(1), Some(Vtx(0)));
    assert Created(OneVertex(), Vtx(1), Some(Vtx(0))) == ParentAndChild();
  }

  lemma TwoOnLevelZeroValid()
    ensures Valid(TwoOnLevelZero())
  {
    OneVertexValid();
    CreatedValidIff(OneVertex(), Vtx(1), None);
    assert Created(OneVertex(), Vtx(1), None) == TwoOnLevelZero();
  }

  /** An edge created under a vertex is on no level. */
  lemma EdgeUnderVertex()
    ensures var h, e := OneVertex(), Elem(EDGE, 0);
            && Requested(h, e, Some(Vtx(0)))
            && var h' := Created(h, e, Some(Vtx(0)));
               h'.Live(e) && e !in h'.level && !Valid(h')
  {
    OneVertexValid();
    CreatedValidIff(OneVertex(), Elem(EDGE, 0), Some(Vtx(0)));
  }

  /** A second child vertex takes the place of the first, whose parent pointer stays. */
  lemma SecondChildVertex()
    ensures var h := ParentAndChild();
            && Requested(h, Vtx(2), Some(Vtx(0)))
            && var h' := Created(h, Vtx(2), Some(Vtx(0)));
               h'.Kids(Vtx(0), VERTEX) == [Vtx(2)] && h'.parent[Vtx(1)] == Some(Vtx(0)) && !Valid(h')
  {
    ParentAndChildValid();
    CreatedValidIff(ParentAndChild(), Vtx(2), Some(Vtx(0)));
  }

  /** Two vertices of one level: after associate_parent the child lies on the level of its parent. */
  lemma AssociateOnOneLevel()
    ensures var h := TwoOnLevelZero();
            && Associable(h, Vtx(1), Vtx(0))
            && var h' := Associated(h, Vtx(1), Vtx(0));
               h'.parent[Vtx(1)] == Some(Vtx(0)) && h'.level[Vtx(1)] == h'.level[Vtx(0)] == 0 && !Valid(h')
  {
    TwoOnLevelZeroValid();
    AssociatedValidIff(TwoOnLevelZero(), Vtx(1), Vtx(0));
    AssociatedRest(TwoOnLevelZero(), Vtx(1), Vtx(0));
  }

  /** Vertex 2 replaces vertex 0, which has a child: in between both list it, afterwards only the
      new one does. */
  lemma MidwayWithChild()
    ensures var h := ParentAndChild();
            && Replaceable(h, Vtx(2), Vtx(0))
            && Valid(Replaced(h, Vtx(2), Vtx(0)))
            && var m := Midway(h, Vtx(2), Vtx(0));
               m.Kids(Vtx(0), VERTEX) == m.Kids(Vtx(2), VERTEX) == [Vtx(1)] && !Valid(m)
  {
    var h := ParentAndChild();
    ParentAndChildValid();
    assert h.Kids(Vtx(0), VERTEX) == [Vtx(1)];
    MidwayValidIff(h, Vtx(2), Vtx(0));
    MidwayKids(h, Vtx(2), Vtx(0), Vtx(0), VERTEX);
    MidwayKids(h, Vtx(2), Vtx(0), Vtx(2), VERTEX);
    ReplacedValid(h, Vtx(2), Vtx(0));
  }
}
