/** The loops over the class hierarchy, and the cast to a base class. */
module ClassCasts {
  import opened ClassNames

  method ClassNameTreeContains(ghost nodes: set<ClassNameNode>, ghost rank: map<ClassNameNode, nat>,
                               node: ClassNameNode, name: string)
    returns (contains: bool)
    requires Hierarchy(nodes, rank) && node in nodes
    ensures contains <==> Contains(nodes, rank, node, name)
    ensures contains <==> Reaches(nodes, rank, node, name)
    decreases rank[node]
  {
    ContainsIffReaches(nodes, rank, node, name);
    hide Reaches;
    if node.name == name { return true; }
    contains := false;
    var i := 0;
    while i < |node.bases|
      invariant 0 <= i <= |node.bases|
      invariant contains <==> exists k :: 0 <= k < i && Contains(nodes, rank, node.bases[k], name)
    {
      var there := ClassNameTreeContains(nodes, rank, node.bases[i], name);
      contains := contains || there;
      i := i + 1;
    }
  }

  /** Pushes the way behind what the vector holds; leaves it alone if there is none. */
  method ClassNameTreeWay(ghost nodes: set<ClassNameNode>, ghost rank: map<ClassNameNode, nat>, vWay: seq<nat>,
                          node: ClassNameNode, name: string)
    returns (vWay': seq<nat>, found: bool)
    requires Hierarchy(nodes, rank) && node in nodes
    ensures found <==> Contains(nodes, rank, node, name)
    ensures match Way(nodes, rank, node, name)
            case Some(w) => found && vWay' == vWay + w
            case None => !found && vWay' == vWay
    decreases rank[node]
  {
    WayIffContains(nodes, rank, node, name);
    hide Contains;
    vWay' := vWay;
    if node.name == name { return vWay', true; }
    var i := 0;
    while i < |node.bases|
      invariant 0 <= i <= |node.bases| && vWay' == vWay
      invariant Way(nodes, rank, node, name) == WayFrom(nodes, rank, node, name, i)
    {
      vWay', found := ClassNameTreeWay(nodes, rank, vWay', node.bases[i], name);
      if found {
        vWay' := vWay' + [i];
        return;
      }
      i := i + 1;
    }
    found := false;
  }

  method ExtractClassNameVec(ghost nodes: set<ClassNameNode>, ghost rank: map<ClassNameNode, nat>, names: seq<string>,
                             node: ClassNameNode, clearVec: bool)
    returns (names': seq<string>)
    requires Hierarchy(nodes, rank) && node in nodes
    ensures names' == (if clearVec then [] else names) + Names(nodes, rank, node)
    decreases rank[node]
  {
    ghost var start := if clearVec then [] else names;
    names' := names;
    if clearVec { names' := []; }
    names' := names' + [node.name];
    var i := 0;
    while i < |node.bases|
      invariant 0 <= i <= |node.bases|
      invariant names' == start + ([node.name] + NamesUpTo(nodes, rank, node, i))
    {
      names' := ExtractClassNameVec(nodes, rank, names', node.bases[i], false);
      i := i + 1;
    }
  }

  /** Whether the name is one of the extracted ones, which is the tree search again. */
  method ClassNameVecContains(ghost nodes: set<ClassNameNode>, ghost rank: map<ClassNameNode, nat>, names: seq<string>,
                              ghost node: ClassNameNode, name: string)
    returns (contains: bool)
    requires Hierarchy(nodes, rank) && node in nodes
    ensures contains <==> name in names
    ensures names == Names(nodes, rank, node) ==> (contains <==> Contains(nodes, rank, node, name))
  {
    NamesIffContains(nodes, rank, node, name);
    var i := 0;
    while i < |names|
      invariant 0 <= i <= |names| && name !in names[..i]
    {
      if name == names[i] { return true; }
      i := i + 1;
    }
    return false;
  }

  // ---- casting ----------------------------------------------------------------------------------

  /** Registered cast functions by (base, derived). */
  type Casts<!P> = map<(ClassNameNode, ClassNameNode), P -> P>

  datatype CastResult<P> = Cast(ptr: P, node: ClassNameNode) | NoBaseClass | NoCastFunction

  /** Applies the casts along a path, or stops where one is missing. */
  ghost function CastAlong<P>(nodes: set<ClassNameNode>, rank: map<ClassNameNode, nat>, casts: Casts<P>,
                              n: ClassNameNode, path: seq<nat>, ptr: P): CastResult<P>
    requires Hierarchy(nodes, rank) && n in nodes && IsPath(nodes, rank, n, path)
    reads nodes
    decreases |path|
  {
    if |path| == 0 then Cast(ptr, n)
    else
      var b := n.bases[path[0]];
      if (b, n) in casts then CastAlong(nodes, rank, casts, b, path[1..], casts[(b, n)](ptr)) else NoCastFunction
  }

  /** The classes and pointers that the casts along the first k steps of a path go through. */
  ghost predicate CastSteps<P>(nodes: set<ClassNameNode>, casts: Casts<P>, n: ClassNameNode, path: seq<nat>, ptr: P,
                               ns: seq<ClassNameNode>, ptrs: seq<P>, k: nat)
    reads nodes
  {
    && |ns| == |ptrs| == k + 1 && k <= |path| && ns[0] == n && ptrs[0] == ptr
    && (forall i :: 0 <= i <= k ==> ns[i] in nodes)
    && forall i :: 0 <= i < k ==> CastStep(nodes, casts, ns[i], path[i], ptrs[i], ns[i + 1], ptrs[i + 1])
  }

  ghost predicate CastStep<P>(nodes: set<ClassNameNode>, casts: Casts<P>, n: ClassNameNode, i: nat, ptr: P,
                              base: ClassNameNode, after: P)
    requires n in nodes
    reads nodes
  { i < |n.bases| && base == n.bases[i] && (base, n) in casts && after == casts[(base, n)](ptr) }

  /** The cast along a path ends with the last class and the last pointer, or with the first edge
      that has no cast function. */
  ghost predicate CastEnds<P>(nodes: set<ClassNameNode>, casts: Casts<P>, path: seq<nat>, ns: seq<ClassNameNode>,
                              ptrs: seq<P>, k: nat, r: CastResult<P>)
    requires |ns| == |ptrs| == k + 1 && k <= |path| && ns[k] in nodes
    reads nodes
  {
    match r
    case Cast(p, c) => k == |path| && p == ptrs[k] && c == ns[k]
    case NoCastFunction => k < |path| && path[k] < |ns[k].bases| && (ns[k].bases[path[k]], ns[k]) !in casts
    case NoBaseClass => false
  }

  lemma {:induction false} CastGoesThrough<P>(nodes: set<ClassNameNode>, rank: map<ClassNameNode, nat>, casts: Casts<P>,
                                              n: ClassNameNode, path: seq<nat>, ptr: P)
      returns (ns: seq<ClassNameNode>, ptrs: seq<P>, k: nat)
    requires Hierarchy(nodes, rank) && n in nodes && IsPath(nodes, rank, n, path)
    ensures CastSteps(nodes, casts, n, path, ptr, ns, ptrs, k)
    ensures CastEnds(nodes, casts, path, ns, ptrs, k, CastAlong(nodes, rank, casts, n, path, ptr))
    decreases |path|
  {
    ns, ptrs, k := [n], [ptr], 0;
    if |path| > 0 {
      var b := n.bases[path[0]];
      if (b, n) in casts {
        var p := casts[(b, n)](ptr);
        var ns', ptrs', k' := CastGoesThrough(nodes, rank, casts, b, path[1..], p);
        ns, ptrs, k := [n] + ns', [ptr] + ptrs', k' + 1;
        forall i | 0 <= i < k ensures CastStep(nodes, casts, ns[i], path[i], ptrs[i], ns[i + 1], ptrs[i + 1]) {
          if i > 0 {
            assert CastStep(nodes, casts, ns'[i - 1], path[1..][i - 1], ptrs'[i - 1], ns'[i], ptrs'[i]);
          }
        }
      }
    }
  }

  /** One edge is one application of its cast function. */
  lemma OneCast<P>(nodes: set<ClassNameNode>, rank: map<ClassNameNode, nat>, casts: Casts<P>, n: ClassNameNode,
                   i: nat, ptr: P)
    requires Hierarchy(nodes, rank) && n in nodes && i < |n.bases| && (n.bases[i], n) in casts
    ensures IsPath(nodes, rank, n, [i])
    ensures CastAlong(nodes, rank, casts, n, [i], ptr) == Cast(casts[(n.bases[i], n)](ptr), n.bases[i])
  { assert [i][1..] == []; }

  /** Every edge to a direct base class has its cast function. */
  ghost predicate AllCasts<P>(nodes: set<ClassNameNode>, casts: Casts<P>)
    reads nodes
  { forall n :: n in nodes ==> forall i :: 0 <= i < |n.bases| ==> (n.bases[i], n) in casts }

  /** With all casts registered a path is always cast to its end. */
  lemma {:induction false} CastReachesEnd<P>(nodes: set<ClassNameNode>, rank: map<ClassNameNode, nat>, casts: Casts<P>,
                                             n: ClassNameNode, path: seq<nat>, ptr: P)
    requires Hierarchy(nodes, rank) && n in nodes && IsPath(nodes, rank, n, path) && AllCasts(nodes, casts)
    ensures CastAlong(nodes, rank, casts, n, path, ptr).Cast?
    ensures CastAlong(nodes, rank, casts, n, path, ptr).node == End(nodes, rank, n, path)
    decreases |path|
  {
    if |path| > 0 {
      var b := n.bases[path[0]];
      CastReachesEnd(nodes, rank, casts, b, path[1..], casts[(b, n)](ptr));
    }
  }

  /** The cast succeeds, on the class asked for, exactly if there is one, when every edge has a
      cast function; the pointer has gone through the casts along the first path to it. */
  method CastToBaseClass<P>(ghost nodes: set<ClassNameNode>, ghost rank: map<ClassNameNode, nat>, casts: Casts<P>,
                            ptr: P, node: ClassNameNode, baseName: string)
    returns (r: CastResult<P>)
    requires Hierarchy(nodes, rank) && node in nodes
    ensures r.NoBaseClass? <==> !Reaches(nodes, rank, node, baseName)
    ensures match Way(nodes, rank, node, baseName)
            case None => r == NoBaseClass
            case Some(w) =>
              IsPath(nodes, rank, node, Reversed(w)) && r == CastAlong(nodes, rank, casts, node, Reversed(w), ptr)
    ensures r.Cast? ==> r.node in nodes && r.node.name == baseName
    ensures match Way(nodes, rank, node, baseName)
            case None => true
            case Some(w) =>
              exists ns: seq<ClassNameNode>, ptrs: seq<P>, k: nat ::
                CastSteps(nodes, casts, node, Reversed(w), ptr, ns, ptrs, k)
                && CastEnds(nodes, casts, Reversed(w), ns, ptrs, k, r)
    ensures AllCasts(nodes, casts) && Reaches(nodes, rank, node, baseName) ==> r.Cast?
  {
    ContainsIffReaches(nodes, rank, node, baseName);
    WayIffContains(nodes, rank, node, baseName);
    hide Reaches, Contains, Way, Hierarchy;
    var vWay, found := ClassNameTreeWay(nodes, rank, [], node, baseName);
    if !found { return NoBaseClass; }
    assert vWay == Way(nodes, rank, node, baseName).value;
    WayIsFirstPath(nodes, rank, node, baseName, []);
    EndOfCast(nodes, rank, casts, node, Reversed(vWay), ptr);
    if AllCasts(nodes, casts) { CastReachesEnd(nodes, rank, casts, node, Reversed(vWay), ptr); }
    r := CastDown(nodes, rank, casts, ptr, node, vWay);
    ghost var ns, ptrs, k := CastGoesThrough(nodes, rank, casts, node, Reversed(vWay), ptr);
  }

  /** Takes the way from its end and applies one cast after the other. */
  method CastDown<P>(ghost nodes: set<ClassNameNode>, ghost rank: map<ClassNameNode, nat>, casts: Casts<P>,
                     ptr: P, node: ClassNameNode, way: seq<nat>)
    returns (r: CastResult<P>)
    requires Hierarchy(nodes, rank) && node in nodes && IsPath(nodes, rank, node, Reversed(way))
    ensures r == CastAlong(nodes, rank, casts, node, Reversed(way), ptr)
  {
    hide Hierarchy;
    var vWay := way;
    var currPtr, currNode := ptr, node;
    while |vWay| > 0
      invariant currNode in nodes && IsPath(nodes, rank, currNode, Reversed(vWay))
      invariant CastAlong(nodes, rank, casts, currNode, Reversed(vWay), currPtr)
                == CastAlong(nodes, rank, casts, node, Reversed(way), ptr)
      decreases |vWay|
    {
      PathStep(nodes, rank, currNode, vWay);
      var base := currNode.bases[vWay[|vWay| - 1]];
      if (base, currNode) !in casts { return NoCastFunction; }
      currPtr := casts[(base, currNode)](currPtr);
      currNode := base;
      vWay := vWay[..|vWay| - 1];
    }
    r := Cast(currPtr, currNode);
  }

  lemma PathStep(nodes: set<ClassNameNode>, rank: map<ClassNameNode, nat>, n: ClassNameNode, w: seq<nat>)
    requires Hierarchy(nodes, rank) && n in nodes && |w| > 0 && IsPath(nodes, rank, n, Reversed(w))
    ensures var i := w[|w| - 1]; Reversed(w)[0] == i && i < |n.bases| && n.bases[i] in nodes
    ensures Reversed(w)[1..] == Reversed(w[..|w| - 1])
    ensures IsPath(nodes, rank, n.bases[w[|w| - 1]], Reversed(w[..|w| - 1]))
  {
    assert Reversed(w)[1..] == Reversed(w[..|w| - 1]);
  }

  lemma {:induction false} EndOfCast<P>(nodes: set<ClassNameNode>, rank: map<ClassNameNode, nat>, casts: Casts<P>,
                                        n: ClassNameNode, path: seq<nat>, ptr: P)
    requires Hierarchy(nodes, rank) && n in nodes && IsPath(nodes, rank, n, path)
    ensures var r := CastAlong(nodes, rank, casts, n, path, ptr);
            !r.NoBaseClass? && (r.Cast? ==> r.node == End(nodes, rank, n, path))
    decreases |path|
  {
    if |path| > 0 && (n.bases[path[0]], n) in casts {
      var b := n.bases[path[0]];
      EndOfCast(nodes, rank, casts, b, path[1..], casts[(b, n)](ptr));
    }
  }
}
