/** The class hierarchy of the registry: search for a base class by name, and the cast along the
    path that has been found. */
module ClassNames {
  import opened Options

  /** A registered class: its name and its direct base classes. */
  class ClassNameNode {
    var name: string
    var bases: seq<ClassNameNode>

    constructor ()
      ensures name == "" && bases == []
    { name, bases := "", []; }

    /** Not ok for an empty name, which is nevertheless stored. */
    method SetName(newName: string) returns (ok: bool)
      modifies this`name
      ensures name == newName && (ok <==> newName != "")
    {
      name := newName;
      ok := name != "";
    }

    method AddBaseClass(node: ClassNameNode)
      modifies this`bases
      ensures bases == if node in old(bases) then old(bases) else old(bases) + [node]
    { if node !in bases { bases := bases + [node]; } }
  }

  /** All classes reachable from nodes are nodes; base classes have smaller rank, so the
      hierarchy has no cycle. */
  ghost predicate Hierarchy(nodes: set<ClassNameNode>, rank: map<ClassNameNode, nat>)
    reads nodes
  {
    forall n :: n in nodes ==> n in rank && forall i :: 0 <= i < |n.bases| ==>
      n.bases[i] in nodes && n.bases[i] in rank && rank[n.bases[i]] < rank[n]
  }

  // ---- what is searched for -----------------------------------------------------------------------

  /** A path: the index of the base class to go to, from the class itself upwards. */
  ghost predicate IsPath(nodes: set<ClassNameNode>, rank: map<ClassNameNode, nat>, n: ClassNameNode, path: seq<nat>)
    requires Hierarchy(nodes, rank) && n in nodes
    reads nodes
    decreases |path|
  { |path| == 0 || (path[0] < |n.bases| && IsPath(nodes, rank, n.bases[path[0]], path[1..])) }

  ghost function End(nodes: set<ClassNameNode>, rank: map<ClassNameNode, nat>, n: ClassNameNode,
                     path: seq<nat>): (r: ClassNameNode)
    requires Hierarchy(nodes, rank) && n in nodes && IsPath(nodes, rank, n, path)
    reads nodes
    ensures r in nodes
    decreases |path|
  { if |path| == 0 then n else End(nodes, rank, n.bases[path[0]], path[1..]) }

  /** Some path leads to a class of that name. */
  ghost predicate Reaches(nodes: set<ClassNameNode>, rank: map<ClassNameNode, nat>, n: ClassNameNode, name: string)
    requires Hierarchy(nodes, rank) && n in nodes
    reads nodes
  { exists path :: IsPath(nodes, rank, n, path) && End(nodes, rank, n, path).name == name }

  // ---- the searches -----------------------------------------------------------------------------

  ghost predicate Contains(nodes: set<ClassNameNode>, rank: map<ClassNameNode, nat>, n: ClassNameNode, name: string)
    requires Hierarchy(nodes, rank) && n in nodes
    reads nodes
    decreases rank[n]
  { n.name == name || exists i :: 0 <= i < |n.bases| && Contains(nodes, rank, n.bases[i], name) }

  /** The indices as they are pushed: the one next to the class that has been found comes first. */
  ghost function Way(nodes: set<ClassNameNode>, rank: map<ClassNameNode, nat>, n: ClassNameNode,
                     name: string): Option<seq<nat>>
    requires Hierarchy(nodes, rank) && n in nodes
    reads nodes
    decreases rank[n], |n.bases| + 1
  { if n.name == name then Some([]) else WayFrom(nodes, rank, n, name, 0) }

  /** The search among the base classes from index i on. */
  ghost function WayFrom(nodes: set<ClassNameNode>, rank: map<ClassNameNode, nat>, n: ClassNameNode, name: string,
                         i: nat): Option<seq<nat>>
    requires Hierarchy(nodes, rank) && n in nodes && i <= |n.bases|
    reads nodes
    decreases rank[n], |n.bases| - i
  {
    if i == |n.bases| then None
    else
      match Way(nodes, rank, n.bases[i], name)
      case Some(w) => Some(w + [i])
      case None => WayFrom(nodes, rank, n, name, i + 1)
  }

  /** All names, a class before its base classes; a class reached twice is listed twice. */
  ghost function Names(nodes: set<ClassNameNode>, rank: map<ClassNameNode, nat>, n: ClassNameNode): seq<string>
    requires Hierarchy(nodes, rank) && n in nodes
    reads nodes
    decreases rank[n], |n.bases| + 1
  { [n.name] + NamesUpTo(nodes, rank, n, |n.bases|) }

  ghost function NamesUpTo(nodes: set<ClassNameNode>, rank: map<ClassNameNode, nat>, n: ClassNameNode,
                           k: nat): seq<string>
    requires Hierarchy(nodes, rank) && n in nodes && k <= |n.bases|
    reads nodes
    decreases rank[n], k
  { if k == 0 then [] else NamesUpTo(nodes, rank, n, k - 1) + Names(nodes, rank, n.bases[k - 1]) }

  // ---- all three agree --------------------------------------------------------------------------

  /** Contains is reachability. */
  lemma {:induction false} ContainsIffReaches(nodes: set<ClassNameNode>, rank: map<ClassNameNode, nat>,
                                              n: ClassNameNode, name: string)
    requires Hierarchy(nodes, rank) && n in nodes
    ensures Contains(nodes, rank, n, name) <==> Reaches(nodes, rank, n, name)
    decreases rank[n]
  {
    if Contains(nodes, rank, n, name) {
      if n.name == name {
        assert IsPath(nodes, rank, n, []) && End(nodes, rank, n, []) == n;
      } else {
        var i :| 0 <= i < |n.bases| && Contains(nodes, rank, n.bases[i], name);
        ContainsIffReaches(nodes, rank, n.bases[i], name);
        var path :| IsPath(nodes, rank, n.bases[i], path) && End(nodes, rank, n.bases[i], path).name == name;
        Prepended(nodes, rank, n, i, path);
      }
    }
    if Reaches(nodes, rank, n, name) {
      var path :| IsPath(nodes, rank, n, path) && End(nodes, rank, n, path).name == name;
      if |path| > 0 {
        var b := n.bases[path[0]];
        assert IsPath(nodes, rank, b, path[1..]) && End(nodes, rank, b, path[1..]).name == name;
        ContainsIffReaches(nodes, rank, b, name);
      }
    }
  }

  lemma Prepended(nodes: set<ClassNameNode>, rank: map<ClassNameNode, nat>, n: ClassNameNode, i: nat, path: seq<nat>)
    requires Hierarchy(nodes, rank) && n in nodes && i < |n.bases| && IsPath(nodes, rank, n.bases[i], path)
    ensures IsPath(nodes, rank, n, [i] + path) && End(nodes, rank, n, [i] + path) == End(nodes, rank, n.bases[i], path)
  { assert ([i] + path)[1..] == path; }

  lemma {:induction false} WayIffContains(nodes: set<ClassNameNode>, rank: map<ClassNameNode, nat>, n: ClassNameNode,
                                          name: string)
    requires Hierarchy(nodes, rank) && n in nodes
    ensures Way(nodes, rank, n, name).Some? <==> Contains(nodes, rank, n, name)
    decreases rank[n], |n.bases| + 1
  { WayFromIff(nodes, rank, n, name, 0); }

  lemma {:induction false} WayFromIff(nodes: set<ClassNameNode>, rank: map<ClassNameNode, nat>, n: ClassNameNode,
                                      name: string, i: nat)
    requires Hierarchy(nodes, rank) && n in nodes && i <= |n.bases|
    ensures WayFrom(nodes, rank, n, name, i).Some? <==>
              exists k :: i <= k < |n.bases| && Contains(nodes, rank, n.bases[k], name)
    decreases rank[n], |n.bases| - i
  {
    hide Contains;
    if i < |n.bases| {
      WayIffContains(nodes, rank, n.bases[i], name);
      WayFromIff(nodes, rank, n, name, i + 1);
    }
  }

  lemma {:induction false} NamesIffContains(nodes: set<ClassNameNode>, rank: map<ClassNameNode, nat>, n: ClassNameNode,
                                            name: string)
    requires Hierarchy(nodes, rank) && n in nodes
    ensures name in Names(nodes, rank, n) <==> Contains(nodes, rank, n, name)
    decreases rank[n], |n.bases| + 1
  { NamesUpToIff(nodes, rank, n, name, |n.bases|); }

  lemma {:induction false} NamesUpToIff(nodes: set<ClassNameNode>, rank: map<ClassNameNode, nat>, n: ClassNameNode,
                                        name: string, k: nat)
    requires Hierarchy(nodes, rank) && n in nodes && k <= |n.bases|
    ensures name in NamesUpTo(nodes, rank, n, k) <==> exists i :: 0 <= i < k && Contains(nodes, rank, n.bases[i], name)
    decreases rank[n], k
  {
    hide Contains;
    if k > 0 {
      NamesUpToIff(nodes, rank, n, name, k - 1);
      NamesIffContains(nodes, rank, n.bases[k - 1], name);
    }
  }

  // ---- the way is the first path ------------------------------------------------------------------

  function Reversed(s: seq<nat>): (r: seq<nat>)
    ensures |r| == |s| && forall k :: 0 <= k < |s| ==> r[k] == s[|s| - 1 - k]
  { seq(|s|, k requires 0 <= k < |s| => s[|s| - 1 - k]) }

  lemma ReversedPush(w: seq<nat>, i: nat)
    ensures Reversed(w + [i]) == [i] + Reversed(w)
  {}

  /** a comes before b in a depth-first search that visits a class before its base classes. */
  ghost predicate Before(a: seq<nat>, b: seq<nat>)
    decreases |a|
  { |a| == 0 || (|b| > 0 && (a[0] < b[0] || (a[0] == b[0] && Before(a[1..], b[1..])))) }

  /** Read backwards, the way is a path to a class of that name, and the first such path. */
  lemma {:induction false} WayIsFirstPath(nodes: set<ClassNameNode>, rank: map<ClassNameNode, nat>, n: ClassNameNode,
                                          name: string, other: seq<nat>)
    requires Hierarchy(nodes, rank) && n in nodes && Way(nodes, rank, n, name).Some?
    ensures var path := Reversed(Way(nodes, rank, n, name).value);
      && IsPath(nodes, rank, n, path) && End(nodes, rank, n, path).name == name
      && (IsPath(nodes, rank, n, other) && End(nodes, rank, n, other).name == name ==> Before(path, other))
    decreases rank[n], |n.bases| + 1
  {
    if n.name != name { WayFromFirst(nodes, rank, n, name, 0, other); }
  }

  lemma {:induction false} WayFromFirst(nodes: set<ClassNameNode>, rank: map<ClassNameNode, nat>, n: ClassNameNode,
                                        name: string, i: nat, other: seq<nat>)
    requires Hierarchy(nodes, rank) && n in nodes && i <= |n.bases| && WayFrom(nodes, rank, n, name, i).Some?
    ensures var path := Reversed(WayFrom(nodes, rank, n, name, i).value);
      && IsPath(nodes, rank, n, path) && End(nodes, rank, n, path).name == name
      && (|other| > 0 && other[0] >= i && IsPath(nodes, rank, n, other) && End(nodes, rank, n, other).name == name ==>
            Before(path, other))
    decreases rank[n], |n.bases| - i
  {
    hide Contains, Reaches;
    var b := n.bases[i];
    match Way(nodes, rank, b, name) {
      case Some(w) =>
        WayIsFirstPath(nodes, rank, b, name, if |other| > 0 then other[1..] else []);
        ReversedPush(w, i);
        Prepended(nodes, rank, n, i, Reversed(w));
        assert ([i] + Reversed(w))[1..] == Reversed(w);
      case None =>
        WayFromFirst(nodes, rank, n, name, i + 1, other);
        if |other| > 0 && other[0] == i && IsPath(nodes, rank, n, other) && End(nodes, rank, n, other).name == name {
          NotThere(nodes, rank, b, name, other[1..]);
        }
    }
  }

  lemma NotThere(nodes: set<ClassNameNode>, rank: map<ClassNameNode, nat>, n: ClassNameNode, name: string,
                 path: seq<nat>)
    requires Hierarchy(nodes, rank) && n in nodes && IsPath(nodes, rank, n, path) && Way(nodes, rank, n, name).None?
    ensures End(nodes, rank, n, path).name != name
  {
    hide Contains, Way, IsPath, End;
    WayIffContains(nodes, rank, n, name);
    ContainsIffReaches(nodes, rank, n, name);
  }

  // ---- the order of the names ---------------------------------------------------------------------

  /** names are those at the ends of paths, which are listed in the order of a depth-first search and
      each once. */
  ghost predicate NamedBy(nodes: set<ClassNameNode>, rank: map<ClassNameNode, nat>, n: ClassNameNode,
                          names: seq<string>, paths: seq<seq<nat>>)
    requires Hierarchy(nodes, rank) && n in nodes
    reads nodes
  {
    && |names| == |paths|
    && (forall k :: 0 <= k < |paths| ==> Leads(nodes, rank, n, paths[k], names[k]))
    && (forall k, l :: 0 <= k < l < |paths| ==> paths[k] != paths[l] && Before(paths[k], paths[l]))
  }

  ghost predicate Leads(nodes: set<ClassNameNode>, rank: map<ClassNameNode, nat>, n: ClassNameNode, path: seq<nat>,
                        name: string)
    requires Hierarchy(nodes, rank) && n in nodes
    reads nodes
  { IsPath(nodes, rank, n, path) && End(nodes, rank, n, path).name == name }

  function Below(i: nat, paths: seq<seq<nat>>): (r: seq<seq<nat>>)
    ensures |r| == |paths| && forall k :: 0 <= k < |r| ==> r[k] == [i] + paths[k]
  { seq(|paths|, k requires 0 <= k < |paths| => [i] + paths[k]) }

  lemma BelowNamed(nodes: set<ClassNameNode>, rank: map<ClassNameNode, nat>, n: ClassNameNode, i: nat,
                   names: seq<string>, paths: seq<seq<nat>>)
    requires Hierarchy(nodes, rank) && n in nodes && i < |n.bases|
    requires NamedBy(nodes, rank, n.bases[i], names, paths)
    ensures NamedBy(nodes, rank, n, names, Below(i, paths))
  {
    hide IsPath, End, Before;
    var r := Below(i, paths);
    forall k | 0 <= k < |r| ensures Leads(nodes, rank, n, r[k], names[k]) {
      assert Leads(nodes, rank, n.bases[i], paths[k], names[k]);
      Prepended(nodes, rank, n, i, paths[k]);
    }
    forall k, l | 0 <= k < l < |r| ensures r[k] != r[l] && Before(r[k], r[l]) {
      assert r[k][1..] == paths[k] && r[l][1..] == paths[l];
      SameStart(i, paths[k], paths[l]);
    }
  }

  lemma SameStart(i: nat, a: seq<nat>, b: seq<nat>)
    requires Before(a, b)
    ensures Before([i] + a, [i] + b)
  { assert ([i] + a)[1..] == a && ([i] + b)[1..] == b; }

  lemma NamedConcat(nodes: set<ClassNameNode>, rank: map<ClassNameNode, nat>, n: ClassNameNode,
                    na: seq<string>, pa: seq<seq<nat>>, nb: seq<string>, pb: seq<seq<nat>>)
    requires Hierarchy(nodes, rank) && n in nodes
    requires NamedBy(nodes, rank, n, na, pa) && NamedBy(nodes, rank, n, nb, pb)
    requires forall k, l :: 0 <= k < |pa| && 0 <= l < |pb| ==> pa[k] != pb[l] && Before(pa[k], pb[l])
    ensures NamedBy(nodes, rank, n, na + nb, pa + pb)
  { hide Leads, Before; }

  /** Every path whose first step is one of the first k. */
  ghost predicate AllBelow(nodes: set<ClassNameNode>, rank: map<ClassNameNode, nat>, n: ClassNameNode, k: nat,
                           paths: seq<seq<nat>>)
    requires Hierarchy(nodes, rank) && n in nodes
    reads nodes
  {
    && (forall l :: 0 <= l < |paths| ==> |paths[l]| > 0 && paths[l][0] < k)
    && (forall path :: IsPath(nodes, rank, n, path) && |path| > 0 && path[0] < k ==> path in paths)
  }

  lemma OneMoreBelow(nodes: set<ClassNameNode>, rank: map<ClassNameNode, nat>, n: ClassNameNode, i: nat,
                     first: seq<seq<nat>>, last: seq<seq<nat>>)
    requires Hierarchy(nodes, rank) && n in nodes && i < |n.bases| && AllBelow(nodes, rank, n, i, first)
    requires forall path :: IsPath(nodes, rank, n.bases[i], path) ==> path in last
    ensures AllBelow(nodes, rank, n, i + 1, first + Below(i, last))
  {
    hide IsPath;
    forall path | IsPath(nodes, rank, n, path) && |path| > 0 && path[0] < i + 1 ensures path in first + Below(i, last) {
      if path[0] == i {
        PathTail(nodes, rank, n, path);
        var l :| 0 <= l < |last| && last[l] == path[1..];
        assert path == [i] + last[l] == Below(i, last)[l];
      }
    }
  }

  lemma {:induction false} NamesUpToInOrder(nodes: set<ClassNameNode>, rank: map<ClassNameNode, nat>,
                                            n: ClassNameNode, k: nat)
      returns (paths: seq<seq<nat>>)
    requires Hierarchy(nodes, rank) && n in nodes && k <= |n.bases|
    ensures NamedBy(nodes, rank, n, NamesUpTo(nodes, rank, n, k), paths)
    ensures AllBelow(nodes, rank, n, k, paths)
    decreases rank[n], k
  {
    hide IsPath, End, Before, NamedBy;
    if k == 0 {
      paths := [];
      NoNames(nodes, rank, n);
    } else {
      var b := n.bases[k - 1];
      var first := NamesUpToInOrder(nodes, rank, n, k - 1);
      var last := NamesInOrder(nodes, rank, b);
      BelowNamed(nodes, rank, n, k - 1, Names(nodes, rank, b), last);
      var more := Below(k - 1, last);
      paths := first + more;
      forall x, y | 0 <= x < |first| && 0 <= y < |more| ensures first[x] != more[y] && Before(first[x], more[y]) {
        SmallerStart(first[x], more[y]);
      }
      NamedConcat(nodes, rank, n, NamesUpTo(nodes, rank, n, k - 1), first, Names(nodes, rank, b), more);
      OneMoreBelow(nodes, rank, n, k - 1, first, last);
    }
  }

  lemma NoNames(nodes: set<ClassNameNode>, rank: map<ClassNameNode, nat>, n: ClassNameNode)
    requires Hierarchy(nodes, rank) && n in nodes
    ensures NamedBy(nodes, rank, n, [], []) && AllBelow(nodes, rank, n, 0, [])
    ensures NamedBy(nodes, rank, n, [n.name], [[]])
  {}

  lemma SmallerStart(a: seq<nat>, b: seq<nat>)
    requires |a| > 0 && |b| > 0 && a[0] < b[0]
    ensures a != b && Before(a, b)
  {}

  lemma PathTail(nodes: set<ClassNameNode>, rank: map<ClassNameNode, nat>, n: ClassNameNode, path: seq<nat>)
    requires Hierarchy(nodes, rank) && n in nodes && IsPath(nodes, rank, n, path) && |path| > 0
    ensures path[0] < |n.bases| && IsPath(nodes, rank, n.bases[path[0]], path[1..])
  {}

  /** The names are those of all classes that can be reached, one for every path there, in the order
      of a depth-first search. */
  lemma {:induction false} NamesInOrder(nodes: set<ClassNameNode>, rank: map<ClassNameNode, nat>, n: ClassNameNode)
      returns (paths: seq<seq<nat>>)
    requires Hierarchy(nodes, rank) && n in nodes
    ensures NamedBy(nodes, rank, n, Names(nodes, rank, n), paths)
    ensures forall path :: IsPath(nodes, rank, n, path) <==> path in paths
    decreases rank[n], |n.bases| + 1
  {
    hide IsPath, End, Before, NamedBy;
    var rest := NamesUpToInOrder(nodes, rank, n, |n.bases|);
    paths := [[]] + rest;
    NoNames(nodes, rank, n);
    forall l | 0 <= l < |rest| ensures [] != rest[l] && Before([], rest[l]) { NothingFirst(rest[l]); }
    NamedConcat(nodes, rank, n, [n.name], [[]], NamesUpTo(nodes, rank, n, |n.bases|), rest);
    forall path ensures IsPath(nodes, rank, n, path) <==> path in paths {
      if path in paths { NamedPath(nodes, rank, n, Names(nodes, rank, n), paths, path); }
      if IsPath(nodes, rank, n, path) && path != [] { PathTail(nodes, rank, n, path); }
    }
  }

  lemma NamedPath(nodes: set<ClassNameNode>, rank: map<ClassNameNode, nat>, n: ClassNameNode, names: seq<string>,
                  paths: seq<seq<nat>>, path: seq<nat>)
    requires Hierarchy(nodes, rank) && n in nodes && NamedBy(nodes, rank, n, names, paths) && path in paths
    ensures IsPath(nodes, rank, n, path)
  {
    var k :| 0 <= k < |paths| && paths[k] == path;
    assert Leads(nodes, rank, n, paths[k], names[k]);
  }

  lemma NothingFirst(b: seq<nat>)
    ensures Before([], b)
  {}
}
