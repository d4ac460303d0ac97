/** Runs of the hierarchy: any sequence of the operations keeps the invariant. */
module GridRuns {
  import opened Options
  import opened GridHierarchy
  import opened GridEdits
  import opened GridReplacement

  datatype Command =
    | Create(e: Elem, parent: Option<Elem>)
    | CreateOnLevel(e: Elem, lvl: nat)
    | Erase(e: Elem)
    | Replace(n: Elem, o: Elem)
    | Associate(e: Elem, p: Elem)
    | ClearChildren(p: Elem)
    | EnableInsertion(on: bool)

  /** What the callers have to respect, and nothing about the hierarchy as a whole: elements
      exist or are new, a parent has at least the dimension of the child and room for it, and
      associate_parent is given a parent one level below. */
  predicate Respected(h: Hierarchy, cmd: Command) {
    match cmd
    case Create(e, po) =>
      && !h.Live(e) && (po.Some? ==> h.Live(po.value))
      && var rp := RealParent(h, po);
         rp.Some? ==> Dim(e.kind) <= Dim(rp.value.kind) && Room(h, rp.value, e.kind)
    case CreateOnLevel(e, lvl) => !h.Live(e)
    case Erase(e) => h.Live(e)
    case Replace(n, o) => h.Live(o) && !h.Live(n) && n.kind == o.kind
    case Associate(e, p) =>
      && h.Live(e) && h.Live(p) && Dim(e.kind) <= Dim(p.kind)
      && (h.parent[e] == Some(p) ||
          (e in h.level && p in h.level && h.level[e] == h.level[p] + 1 && Room(h, p, e.kind)))
    case ClearChildren(p) => h.Live(p)
    case EnableInsertion(_) => true
  }

  function Apply(h: Hierarchy, cmd: Command): Hierarchy
    requires Valid(h) && Respected(h, cmd)
  {
    match cmd
    case Create(e, po) => RealParentLive(h, po); Created(h, e, po)
    case CreateOnLevel(e, lvl) => CreatedAt(h, e, lvl)
    case Erase(e) => Erased(h, e)
    case Replace(n, o) => Replaced(h, n, o)
    case Associate(e, p) => Associated(h, e, p)
    case ClearChildren(p) => Orphaned(h, p)
    case EnableInsertion(on) => h.(insertion := on)
  }

  lemma ApplyKeepsValid(h: Hierarchy, cmd: Command)
    requires Valid(h) && Respected(h, cmd)
    ensures Valid(Apply(h, cmd))
  {
    hide Valid, ElemOk, Created, CreatedAt, Erased, Replaced, Associated, Orphaned;
    match cmd
    case Create(e, po) => RealParentLive(h, po); CreatedValidIff(h, e, po);
    case CreateOnLevel(e, lvl) => CreatedAtValid(h, e, lvl);
    case Erase(e) => ErasedValid(h, e);
    case Replace(n, o) => ReplacedValid(h, n, o);
    case Associate(e, p) => AssociatedValidIff(h, e, p);
    case ClearChildren(p) => OrphanedValid(h, p);
    case EnableInsertion(on) => InsertionIsFree(h, on);
  }

  lemma InsertionIsFree(h: Hierarchy, on: bool)
    requires Valid(h)
    ensures Valid(h.(insertion := on))
  {
    var h' := h.(insertion := on);
    forall p, k | p in h'.info ensures ListOk(h', p, k) { assert ListOk(h, p, k); }
    forall c | h'.Live(c) ensures ElemOk(h', c) { assert ElemOk(h, c); }
  }

  /** One step. Nothing is said about a hierarchy that breaks the invariant: there the code may
      follow a stale pointer, so any state can come next. */
  ghost predicate Step(h: Hierarchy, cmd: Command, h': Hierarchy) {
    Respected(h, cmd) && (Valid(h) ==> h' == Apply(h, cmd))
  }

  /** States of a run that starts with an empty grid. */
  ghost predicate Trace(cmds: seq<Command>, states: seq<Hierarchy>) {
    && |states| == |cmds| + 1
    && (exists insertion :: states[0] == Hierarchy(map[], map[], map[], map[], 0, insertion))
    && forall i :: 0 <= i < |cmds| ==> Step(states[i], cmds[i], states[i + 1])
  }

  /** Every state of every run satisfies the hierarchy invariant, so no run ever gets to where
      anything could happen. */
  lemma {:induction false} RunsAreValid(cmds: seq<Command>, states: seq<Hierarchy>, i: nat)
    requires Trace(cmds, states) && i < |states|
    ensures Valid(states[i])
  {
    hide Respected, Apply, Valid;
    if i == 0 {
      EmptyIsValid(states[0].insertion);
    } else {
      RunsAreValid(cmds, states, i - 1);
      assert Step(states[i - 1], cmds[i - 1], states[i]);
      ApplyKeepsValid(states[i - 1], cmds[i - 1]);
    }
  }

  /** A run can always be continued by a command its caller may give. */
  lemma RunsGoOn(cmds: seq<Command>, states: seq<Hierarchy>, cmd: Command)
    requires Trace(cmds, states) && Respected(states[|cmds|], cmd)
    ensures Valid(states[|cmds|]) && Trace(cmds + [cmd], states + [Apply(states[|cmds|], cmd)])
  {
    hide Respected, Apply, Valid;
    RunsAreValid(cmds, states, |cmds|);
    var n := |cmds|;
    var more, next := cmds + [cmd], states + [Apply(states[n], cmd)];
    forall i | 0 <= i < |more| ensures Step(next[i], more[i], next[i + 1]) {
      if i < n { assert Step(states[i], cmds[i], states[i + 1]); }
    }
  }
}
