/** Descendants of the same kind, and what num_children_total counts. */
module GridDescendants {
  import opened GridHierarchy

  /** d lies below e along parents of the same kind. */
  ghost predicate Below(h: Hierarchy, d: Elem, e: Elem)
    requires Valid(h) && h.Live(d)
    decreases if d in h.level then h.level[d] else 0
  {
    && h.parent[d].Some?
    && var p := h.parent[d].value;
       ParentLevel(h, d);
       p.kind == d.kind && (p == e || Below(h, p, e))
  }

  lemma ParentLevel(h: Hierarchy, d: Elem)
    requires Valid(h) && h.Live(d) && h.parent[d].Some?
    ensures var p := h.parent[d].value;
            h.Live(p) && d in h.level && p in h.level && h.level[d] == h.level[p] + 1
  { assert ElemOk(h, d); }

  ghost function Descendants(h: Hierarchy, e: Elem): set<Elem>
    requires Valid(h)
  { set d | d in h.parent && Below(h, d, e) }

  ghost predicate AtOrBelow(h: Hierarchy, d: Elem, c: Elem)
    requires Valid(h) && h.Live(d)
  { d == c || Below(h, d, c) }

  lemma {:induction false} BelowIsHigher(h: Hierarchy, d: Elem, e: Elem)
    requires Valid(h) && h.Live(d) && Below(h, d, e)
    ensures d in h.level && e in h.level && h.level[d] > h.level[e] && d.kind == e.kind
    decreases if d in h.level then h.level[d] else 0
  {
    hide Valid;
    ParentLevel(h, d);
    if h.parent[d].value != e { BelowIsHigher(h, h.parent[d].value, e); }
  }

  /** Two elements of the same level have no common descendant. */
  lemma {:induction false} SubtreesDisjoint(h: Hierarchy, d: Elem, c: Elem, c': Elem)
    requires Valid(h) && h.Live(d) && h.Live(c) && h.Live(c') && c in h.level && c' in h.level
    requires AtOrBelow(h, d, c) && AtOrBelow(h, d, c') && h.level[c] == h.level[c']
    ensures c == c'
    decreases if d in h.level then h.level[d] else 0
  {
    hide Valid;
    if d != c { BelowIsHigher(h, d, c); }
    if d != c' { BelowIsHigher(h, d, c'); }
    if d != c && d != c' {
      ParentLevel(h, d);
      SubtreesDisjoint(h, h.parent[d].value, c, c');
    }
  }

  /** A descendant lies at or below exactly one child of the same kind. */
  lemma {:induction false} BelowViaChild(h: Hierarchy, d: Elem, e: Elem) returns (c: Elem)
    requires Valid(h) && h.Live(d) && Below(h, d, e)
    ensures c in h.Kids(e, e.kind) && AtOrBelow(h, d, c)
    decreases if d in h.level then h.level[d] else 0
  {
    hide Valid;
    ParentLevel(h, d);
    BelowIsHigher(h, d, e);
    var p := h.parent[d].value;
    if p == e {
      ListedExactlyUnderParent(h, e, d);
      c := d;
    } else {
      c := BelowViaChild(h, p, e);
    }
  }

  lemma {:induction false} BelowChild(h: Hierarchy, d: Elem, c: Elem, e: Elem)
    requires Valid(h) && h.Live(d) && c in h.Kids(e, e.kind) && AtOrBelow(h, d, c)
    ensures Below(h, d, e)
    decreases if d in h.level then h.level[d] else 0
  {
    hide Valid;
    KidKind(h, e, e.kind, c);
    if d != c {
      ParentLevel(h, d);
      BelowChild(h, h.parent[d].value, c, e);
    }
  }

  /** Everything at or below the first i children. */
  ghost function Covered(h: Hierarchy, kids: seq<Elem>, i: nat): set<Elem>
    requires Valid(h) && i <= |kids|
  { set d | d in h.parent && exists j :: 0 <= j < i && AtOrBelow(h, d, kids[j]) }

  lemma CoveredStep(h: Hierarchy, e: Elem, i: nat)
    requires Valid(h) && i < |h.Kids(e, e.kind)|
    ensures var kids := h.Kids(e, e.kind);
            |Covered(h, kids, i + 1)| == |Covered(h, kids, i)| + 1 + |Descendants(h, kids[i])|
  {
    hide Valid;
    var kids := h.Kids(e, e.kind);
    var c := kids[i];
    KidKind(h, e, e.kind, c);
    ParentLevel(h, c);
    var sub := Descendants(h, c) + {c};
    assert c !in Descendants(h, c) by { if Below(h, c, c) { BelowIsHigher(h, c, c); } }
    forall d | d in Covered(h, kids, i) ensures d !in sub {
      var j :| 0 <= j < i && AtOrBelow(h, d, kids[j]);
      SiblingsDisjoint(h, e, d, j, i);
    }
    assert Covered(h, kids, i + 1) == Covered(h, kids, i) + sub by { CoveredSplit(h, kids, i); }
    DisjointSize(Covered(h, kids, i), sub);
  }

  lemma DisjointSize(a: set<Elem>, b: set<Elem>)
    requires forall d :: d in a ==> d !in b
    ensures |a + b| == |a| + |b|
  { assert a * b == {}; }

  lemma CoveredSplit(h: Hierarchy, kids: seq<Elem>, i: nat)
    requires Valid(h) && i < |kids| && h.Live(kids[i])
    ensures Covered(h, kids, i + 1) == Covered(h, kids, i) + (Descendants(h, kids[i]) + {kids[i]})
  { hide Valid, Below; }

  lemma SiblingsDisjoint(h: Hierarchy, e: Elem, d: Elem, j: nat, i: nat)
    requires Valid(h) && h.Live(d) && j < i < |h.Kids(e, e.kind)|
    requires AtOrBelow(h, d, h.Kids(e, e.kind)[j])
    ensures !AtOrBelow(h, d, h.Kids(e, e.kind)[i])
  {
    hide Valid, AtOrBelow;
    var kids := h.Kids(e, e.kind);
    KidKind(h, e, e.kind, kids[i]);
    KidKind(h, e, e.kind, kids[j]);
    ParentLevel(h, kids[i]);
    ParentLevel(h, kids[j]);
    ListsDistinct(h, e, e.kind);
    if AtOrBelow(h, d, kids[i]) { SubtreesDisjoint(h, d, kids[j], kids[i]); }
  }

  lemma CoveredAll(h: Hierarchy, e: Elem)
    requires Valid(h)
    ensures Covered(h, h.Kids(e, e.kind), |h.Kids(e, e.kind)|) == Descendants(h, e)
  {
    hide Valid, AtOrBelow, Below;
    var kids := h.Kids(e, e.kind);
    forall d | h.Live(d) ensures Below(h, d, e) <==> exists j :: 0 <= j < |kids| && AtOrBelow(h, d, kids[j]) {
      if Below(h, d, e) {
        var c := BelowViaChild(h, d, e);
      } else if j :| 0 <= j < |kids| && AtOrBelow(h, d, kids[j]) {
        BelowChild(h, d, kids[j], e);
      }
    }
  }
}
