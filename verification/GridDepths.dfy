/** Levels count ancestors, as long as elements without a parent lie on level 0. */
module GridDepths {
  import opened Options
  import opened GridHierarchy
  import opened GridEdits
  import opened GridReplacement
  import opened GridEffects
  import opened GridRuns

  /** The ancestors of c, c first. */
  ghost predicate Ancestors(h: Hierarchy, c: Elem, chain: seq<Elem>) {
    && |chain| > 0 && chain[0] == c
    && (forall i :: 0 <= i < |chain| ==> h.Live(chain[i]))
    && (forall i :: 0 <= i < |chain| - 1 ==> h.parent[chain[i]] == Some(chain[i + 1]))
    && h.parent[chain[|chain| - 1]] == None
  }

  ghost predicate RootsAtBottom(h: Hierarchy) {
    forall c :: h.Live(c) && h.parent[c] == None ==> c in h.level && h.level[c] == 0
  }

  /** The level of an element is the number of its ancestors. */
  lemma {:induction false} LevelIsDepth(h: Hierarchy, c: Elem) returns (chain: seq<Elem>)
    requires Valid(h) && RootsAtBottom(h) && h.Live(c)
    ensures c in h.level && Ancestors(h, c, chain) && |chain| == h.level[c] + 1
    decreases if c in h.level then h.level[c] else 0
  {
    assert ElemOk(h, c);
    if h.parent[c].None? {
      chain := [c];
    } else {
      chain := LevelIsDepth(h, h.parent[c].value);
      chain := [c] + chain;
    }
  }

  /** There is only one list of ancestors. */
  lemma {:induction false} OneChain(h: Hierarchy, c: Elem, a: seq<Elem>, b: seq<Elem>)
    requires Ancestors(h, c, a) && Ancestors(h, c, b)
    ensures a == b
    decreases |a|
  {
    FirstAncestor(h, c, a);
    FirstAncestor(h, c, b);
    if |a| > 1 && |b| > 1 {
      forall i | 0 <= i < |a[1..]| - 1 ensures h.parent[a[1..][i]] == Some(a[1..][i + 1]) {
        assert h.parent[a[i + 1]] == Some(a[i + 2]);
      }
      forall i | 0 <= i < |b[1..]| - 1 ensures h.parent[b[1..][i]] == Some(b[1..][i + 1]) {
        assert h.parent[b[i + 1]] == Some(b[i + 2]);
      }
      OneChain(h, a[1], a[1..], b[1..]);
      assert a == [c] + a[1..] && b == [c] + b[1..];
    }
  }

  lemma FirstAncestor(h: Hierarchy, c: Elem, chain: seq<Elem>)
    requires Ancestors(h, c, chain)
    ensures h.Live(c) && h.parent[c] == if |chain| == 1 then None else Some(chain[1])
  { assert |chain| > 1 ==> h.parent[chain[0]] == Some(chain[0 + 1]); }

  // ---- runs -----------------------------------------------------------------------------------------

  ghost predicate Childless(h: Hierarchy, p: Elem) { forall k :: h.Kids(p, k) == [] }

  /** No element is put on a higher level without a parent, or left there by its parent. */
  ghost predicate KeepsRoots(h: Hierarchy, cmd: Command) {
    match cmd
    case CreateOnLevel(_, lvl) => lvl == 0
    case Erase(e) => Childless(h, e)
    case ClearChildren(p) => Childless(h, p)
    case _ => true
  }

  lemma KidIsHigher(h: Hierarchy, p: Elem, k: Kind)
    requires Valid(h) && h.Kids(p, k) != []
    ensures var c := h.Kids(p, k)[0];
            h.Live(c) && h.parent[c] == Some(p) && c != p && c in h.level && h.level[c] > 0
  {
    var c := h.Kids(p, k)[0];
    KidKind(h, p, k, c);
    assert ElemOk(h, c);
  }

  lemma LiveLevel(h: Hierarchy, c: Elem)
    requires Valid(h) && h.Live(c)
    ensures c in h.level
  {}

  lemma CreateKeepsRoots(h: Hierarchy, e: Elem, po: Option<Elem>)
    requires Respected(h, Create(e, po)) && Valid(h) && RootsAtBottom(h)
    ensures RealParent(h, po).Some? ==> h.Live(RealParent(h, po).value)
    ensures RootsAtBottom(Created(h, e, po))
  {
    RealParentLive(h, po);
    CreationEffect(h, e, po);
    hide Created, Valid;
    var h' := Created(h, e, po);
    forall c | h'.Live(c) && h'.parent[c] == None ensures c in h'.level && h'.level[c] == 0 {
      if c != e { assert Kept(h, h', c); }
    }
  }

  lemma CreateOnLevelKeepsRootsIff(h: Hierarchy, e: Elem, lvl: nat)
    requires Valid(h) && !h.Live(e) && RootsAtBottom(h)
    ensures RootsAtBottom(CreatedAt(h, e, lvl)) <==> lvl == 0
  {
    CreationOnLevelEffect(h, e, lvl);
    hide CreatedAt, Valid;
    var h' := CreatedAt(h, e, lvl);
    forall c | h'.Live(c) && h'.parent[c] == None && c != e ensures c in h'.level && h'.level[c] == 0 {
      assert Kept(h, h', c);
    }
  }

  lemma EraseKeepsRootsIff(h: Hierarchy, e: Elem)
    requires Valid(h) && h.Live(e) && RootsAtBottom(h)
    ensures RootsAtBottom(Erased(h, e)) <==> Childless(h, e)
  {
    hide Erased, Valid;
    var h' := Erased(h, e);
    ErasedInfos(h, e, e);
    if k :| h.Kids(e, k) != [] {
      KidIsHigher(h, e, k);
      ErasedParent(h, e, h.Kids(e, k)[0]);
    }
    if Childless(h, e) {
      forall c | h'.Live(c) && h'.parent[c] == None ensures c in h'.level && h'.level[c] == 0 {
        ErasedParent(h, e, c);
        ListedExactlyUnderParent(h, e, c);
      }
    }
  }

  lemma ClearKeepsRootsIff(h: Hierarchy, p: Elem)
    requires Valid(h) && RootsAtBottom(h)
    ensures RootsAtBottom(Orphaned(h, p)) <==> Childless(h, p)
  {
    hide Orphaned, Valid;
    var h' := Orphaned(h, p);
    OrphanedRest(h, p);
    if k :| h.Kids(p, k) != [] {
      KidIsHigher(h, p, k);
      OrphanedParent(h, p, h.Kids(p, k)[0]);
    }
    if Childless(h, p) {
      forall c | h'.Live(c) && h'.parent[c] == None ensures c in h'.level && h'.level[c] == 0 {
        OrphanedParent(h, p, c);
        ListedExactlyUnderParent(h, p, c);
      }
    }
  }

  lemma ReplaceKeepsRoots(h: Hierarchy, n: Elem, o: Elem)
    requires Replaceable(h, n, o) && RootsAtBottom(h)
    ensures RootsAtBottom(Replaced(h, n, o))
  {
    hide Replaced, Valid;
    var h' := Replaced(h, n, o);
    forall c | h'.Live(c) && h'.parent[c] == None ensures c in h'.level && h'.level[c] == 0 {
      ReplacedPointers(h, n, o, c);
      if c == n { ReplacedLevel(h, n, o); } else { ReplacedFrame(h, n, o, c); }
    }
  }

  lemma AssociateKeepsRoots(h: Hierarchy, e: Elem, p: Elem)
    requires Respected(h, Associate(e, p)) && Valid(h) && RootsAtBottom(h)
    ensures RootsAtBottom(Associated(h, e, p))
  {
    hide ElemOk, ListOk, Room, Associated;
    if h.parent[e] != Some(p) {
      AssociatedRest(h, e, p);
    } else {
      AssociatedAgain(h, e, p);
    }
  }

  lemma AssociatedAgain(h: Hierarchy, e: Elem, p: Elem)
    requires Valid(h) && h.Live(e) && h.parent[e] == Some(p)
    ensures Associated(h, e, p) == h
  {
  }

  /** Of the operations the callers may use, exactly those keep elements without a parent on level 0
      that put none on a higher level and leave no child behind. */
  lemma ApplyKeepsRootsIff(h: Hierarchy, cmd: Command)
    requires Valid(h) && Respected(h, cmd) && RootsAtBottom(h)
    ensures RootsAtBottom(Apply(h, cmd)) <==> KeepsRoots(h, cmd)
  {
    hide Valid, Created, CreatedAt, Erased, Replaced, Associated, Orphaned, RootsAtBottom, Childless;
    match cmd
    case Create(e, po) => CreateKeepsRoots(h, e, po);
    case CreateOnLevel(e, lvl) => CreateOnLevelKeepsRootsIff(h, e, lvl);
    case Erase(e) => EraseKeepsRootsIff(h, e);
    case Replace(n, o) => ReplaceKeepsRoots(h, n, o);
    case Associate(e, p) => AssociateKeepsRoots(h, e, p);
    case ClearChildren(p) => ClearKeepsRootsIff(h, p);
    case EnableInsertion(on) => RootsUnchanged(h, on);
  }

  lemma RootsUnchanged(h: Hierarchy, on: bool)
    requires RootsAtBottom(h)
    ensures RootsAtBottom(h.(insertion := on))
  {}

  /** In a run, levels count ancestors throughout exactly if every operation so far has kept roots at
      the bottom: always, if elements are only created (under a parent or without), replaced and
      associated. */
  lemma {:induction false} RunsKeepDepthsIff(cmds: seq<Command>, states: seq<Hierarchy>, n: nat)
    requires Trace(cmds, states) && n <= |cmds|
    ensures (forall i :: 0 <= i <= n ==> RootsAtBottom(states[i])) <==>
              (forall i :: 0 <= i < n ==> KeepsRoots(states[i], cmds[i]))
  {
    hide RootsAtBottom, KeepsRoots, Respected, Apply, Valid;
    if n == 0 {
      EmptyHasNoRoots(states[0]);
    } else {
      RunsKeepDepthsIff(cmds, states, n - 1);
      RunsAreValid(cmds, states, n - 1);
      assert Step(states[n - 1], cmds[n - 1], states[n]);
      if forall i :: 0 <= i <= n - 1 ==> RootsAtBottom(states[i]) {
        ApplyKeepsRootsIff(states[n - 1], cmds[n - 1]);
      }
    }
  }

  lemma EmptyHasNoRoots(h: Hierarchy)
    ensures h.parent == map[] ==> RootsAtBottom(h)
  {}

  /** In every run of creations from the empty grid the level of every element is the number of its
      ancestors. */
  lemma CreationsCountAncestors(cmds: seq<Command>, states: seq<Hierarchy>, n: nat, c: Elem)
      returns (chain: seq<Elem>)
    requires Trace(cmds, states) && n <= |cmds| && states[n].Live(c)
    requires forall i :: 0 <= i < |cmds| ==> cmds[i].Create? || cmds[i].EnableInsertion?
    ensures c in states[n].level && Ancestors(states[n], c, chain) && |chain| == states[n].level[c] + 1
  {
    RunsKeepDepthsIff(cmds, states, n);
    RunsAreValid(cmds, states, n);
    chain := LevelIsDepth(states[n], c);
  }
}
