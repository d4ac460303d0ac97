/** Layouts: interfaces by process and level, walked level by level in ascending process
    order, and what aligned layouts of two processes mean for their schedules. */
module InterfaceLayouts {
  import opened InterfaceDelivery

  /** One interface of a std::map from process to interface. */
  datatype Entry<T> = Entry(proc: int, iface: seq<T>)

  type Level<T> = seq<Entry<T>>

  ghost predicate IsLevel<T>(lvl: Level<T>) {
    forall i, j :: 0 <= i < j < |lvl| ==> lvl[i].proc < lvl[j].proc
  }

  /** SingleLevelLayout has one level. */
  type Layout<T> = seq<Level<T>>

  ghost predicate IsLayout<T>(lay: Layout<T>) { forall l :: 0 <= l < |lay| ==> IsLevel(lay[l]) }

  /** The interface with q on a level; empty if there is none. */
  function Find<T>(lvl: Level<T>, q: int): seq<T> {
    if |lvl| == 0 then [] else if lvl[|lvl| - 1].proc == q then lvl[|lvl| - 1].iface else Find(lvl[..|lvl| - 1], q)
  }

  function At<T>(lay: Layout<T>, l: nat, q: int): seq<T> { if l < |lay| then Find(lay[l], q) else [] }

  /** The sends a layout schedules towards q, up to level n: non-empty interfaces only. */
  function LevelPackets<V>(lvl: Level<V>, pol: Policy<V>, q: int): seq<Packet<V>> {
    if |lvl| == 0 then []
    else
      var e := lvl[|lvl| - 1];
      LevelPackets(lvl[..|lvl| - 1], pol, q) + (if e.proc == q && |e.iface| > 0 then [Data(e.iface, pol)] else [])
  }

  function LayoutPackets<V>(lay: Layout<V>, pol: Policy<V>, q: int): seq<Packet<V>> {
    if |lay| == 0 then [] else LayoutPackets(lay[..|lay| - 1], pol, q) + LevelPackets(lay[|lay| - 1], pol, q)
  }

  /** The receives a layout schedules, in the order extract_data walks it. */
  function LevelSlots<V, E>(lvl: Level<E>, pol: Policy<V>): seq<Slot<V, E>> {
    if |lvl| == 0 then []
    else
      var e := lvl[|lvl| - 1];
      LevelSlots(lvl[..|lvl| - 1], pol) + (if |e.iface| > 0 then [Into(e.proc, e.iface, pol)] else [])
  }

  function LayoutSlots<V, E>(lay: Layout<E>, pol: Policy<V>): seq<Slot<V, E>> {
    if |lay| == 0 then [] else LayoutSlots(lay[..|lay| - 1], pol) + LevelSlots(lay[|lay| - 1], pol)
  }

  lemma ProjectFront<V, E>(s: Slot<V, E>, rest: seq<Slot<V, E>>, q: int)
    ensures Project([s] + rest, q) == (if s.proc == q then [s] else []) + Project(rest, q)
  { assert ([s] + rest)[1..] == rest && ([s] + rest)[0] == s; }

  lemma {:induction false} ProjectConcat<V, E>(a: seq<Slot<V, E>>, b: seq<Slot<V, E>>, q: int)
    ensures Project(a + b, q) == Project(a, q) + Project(b, q)
  {
    hide Project;
    if |a| == 0 {
      ProjectNone(a, q);
      assert a + b == b && [] + Project(b, q) == Project(b, q);
    } else {
      ProjectConcat(a[1..], b, q);
      ProjectFront(a[0], a[1..], q);
      ProjectFront(a[0], a[1..] + b, q);
      assert a == [a[0]] + a[1..] && a + b == [a[0]] + (a[1..] + b);
    }
  }

  lemma ProjectNone<V, E>(slots: seq<Slot<V, E>>, q: int)
    requires |slots| == 0
    ensures Project(slots, q) == []
  {
  }

  lemma ProjectSingle<V, E>(s: Slot<V, E>, q: int)
    ensures Project([s], q) == if s.proc == q then [s] else []
  { assert [s][1..] == []; }

  /** On one level at most one interface belongs to q. */
  lemma {:induction false} LevelToOne<V, E>(vals: Level<V>, pol: Policy<V>, q: int)
    requires IsLevel(vals)
    ensures LevelPackets(vals, pol, q) == if |Find(vals, q)| > 0 then [Data(Find(vals, q), pol)] else []
  {
    if |vals| > 0 {
      var n := |vals| - 1;
      LevelToOne<V, E>(vals[..n], pol, q);
      if vals[n].proc == q { NotBefore(vals, n, q); }
    }
  }

  lemma NotBefore<T>(lvl: Level<T>, n: nat, q: int)
    requires IsLevel(lvl) && n < |lvl| && lvl[n].proc == q
    ensures Find(lvl[..n], q) == []
  {
    FindAbsent(lvl[..n], q);
  }

  lemma {:induction false} FindAbsent<T>(lvl: Level<T>, q: int)
    requires forall i :: 0 <= i < |lvl| ==> lvl[i].proc != q
    ensures Find(lvl, q) == []
  { if |lvl| > 0 { FindAbsent(lvl[..|lvl| - 1], q); } }

  lemma {:induction false} LevelFromOne<V, E>(lvl: Level<E>, pol: Policy<V>, p: int)
    requires IsLevel(lvl)
    ensures Project(LevelSlots(lvl, pol), p) == if |Find(lvl, p)| > 0 then [Into(p, Find(lvl, p), pol)] else []
  {
    hide Project;
    if |lvl| == 0 {
      ProjectNothing<V, E>(p);
    } else {
      var n := |lvl| - 1;
      var before := LevelSlots(lvl[..n], pol);
      LevelFromOne(lvl[..n], pol, p);
      if lvl[n].proc == p { NotBefore(lvl, n, p); }
      if |lvl[n].iface| > 0 {
        var last: Slot<V, E> := Into(lvl[n].proc, lvl[n].iface, pol);
        ProjectConcat(before, [last], p);
        ProjectSingle(last, p);
        assert Project(before + [last], p) == Project(before, p) + Project([last], p);
      } else {
        assert LevelSlots(lvl, pol) == before;
      }
    }
  }

  lemma ProjectNothing<V, E>(p: int)
    ensures Project<V, E>([], p) == []
  {}

  /** The values the partners of the entries of an interface hold when they are collected. */
  function Partners<V, E>(partner: E -> V, iface: seq<E>): seq<V> {
    seq(|iface|, i requires 0 <= i < |iface| => partner(iface[i]))
  }

  /** Level by level, the interface of p towards q holds the partners of the one of q back, in
      the same order. */
  ghost predicate Aligned<V, E>(partner: E -> V, mine: Layout<V>, q: int, theirs: Layout<E>, p: int) {
    forall l: nat :: At(mine, l, q) == Partners(partner, At(theirs, l, p))
  }

  /** Sends and receives match, and every interface entry is sent the value of its partner. */
  ghost predicate MatchesBy<V(!new), E>(partner: E -> V, ps: seq<Packet<V>>, slots: seq<Slot<V, E>>) {
    && Matches(ps, slots)
    && forall k :: 0 <= k < |ps| && ps[k].Data? ==> ps[k].values == Partners(partner, slots[k].iface)
  }

  lemma MatchesConcat<V(!new), E>(partner: E -> V, a: seq<Packet<V>>, b: seq<Packet<V>>, x: seq<Slot<V, E>>,
                                  y: seq<Slot<V, E>>)
    requires MatchesBy(partner, a, x) && MatchesBy(partner, b, y)
    ensures MatchesBy(partner, a + b, x + y)
  { hide WellBehaved; }

  lemma {:induction false} LevelsMatch<V(!new), E>(partner: E -> V, mine: Layout<V>, q: int, theirs: Layout<E>, p: int,
                                                   pol: Policy<V>, n: nat)
    requires WellBehaved(pol) && IsLayout(mine) && IsLayout(theirs) && Aligned(partner, mine, q, theirs, p)
    requires |mine| <= n && |theirs| <= n
    ensures MatchesBy(partner, LayoutPackets(mine, pol, q), Project(LayoutSlots(theirs, pol), p))
    decreases n
  {
    hide MatchesBy, WellBehaved, LevelPackets, LevelSlots, Find, Project;
    if n == 0 {
      NothingMatches<V, E>(partner, p);
    } else {
      var last := n - 1;
      var mine' := mine[..if last < |mine| then last else |mine|];
      var theirs' := theirs[..if last < |theirs| then last else |theirs|];
      AlignedPrefix(partner, mine, q, theirs, p, last);
      LevelsMatch(partner, mine', q, theirs', p, pol, last);
      TopLevelMatches(partner, mine, q, theirs, p, pol, last);
    }
  }

  lemma NothingMatches<V(!new), E>(partner: E -> V, p: int)
    ensures MatchesBy<V, E>(partner, [], Project([], p))
  {}

  lemma AlignedPrefix<V, E>(partner: E -> V, mine: Layout<V>, q: int, theirs: Layout<E>, p: int, n: nat)
    requires Aligned(partner, mine, q, theirs, p)
    ensures Aligned(partner, mine[..if n < |mine| then n else |mine|], q,
                    theirs[..if n < |theirs| then n else |theirs|], p)
  {
    var mine', theirs' := mine[..if n < |mine| then n else |mine|], theirs[..if n < |theirs| then n else |theirs|];
    forall l: nat ensures At(mine', l, q) == Partners(partner, At(theirs', l, p)) {
      assert At(mine, l, q) == Partners(partner, At(theirs, l, p));
    }
  }

  /** The packets and slots of one level, absent levels being empty. */
  function PacketsAt<V>(lay: Layout<V>, l: nat, pol: Policy<V>, q: int): seq<Packet<V>> {
    if l < |lay| then LevelPackets(lay[l], pol, q) else []
  }

  function SlotsAt<V, E>(lay: Layout<E>, l: nat, pol: Policy<V>): seq<Slot<V, E>> {
    if l < |lay| then LevelSlots(lay[l], pol) else []
  }

  lemma LayoutTop<V>(lay: Layout<V>, pol: Policy<V>, q: int, n: nat)
    requires |lay| <= n + 1
    ensures LayoutPackets(lay, pol, q) ==
              LayoutPackets(lay[..if n < |lay| then n else |lay|], pol, q) + PacketsAt(lay, n, pol, q)
  { assert lay[..|lay|] == lay; }

  lemma SlotsTop<V, E>(lay: Layout<E>, pol: Policy<V>, n: nat)
    requires |lay| <= n + 1
    ensures LayoutSlots(lay, pol) == LayoutSlots(lay[..if n < |lay| then n else |lay|], pol) + SlotsAt(lay, n, pol)
  { assert lay[..|lay|] == lay; }

  lemma LevelMatches<V(!new), E>(partner: E -> V, mine: Layout<V>, q: int, theirs: Layout<E>, p: int, pol: Policy<V>,
                                 l: nat)
    requires WellBehaved(pol) && IsLayout(mine) && IsLayout(theirs) && Aligned(partner, mine, q, theirs, p)
    ensures MatchesBy(partner, PacketsAt(mine, l, pol, q), Project(SlotsAt(theirs, l, pol), p))
  {
    hide WellBehaved, LevelPackets, LevelSlots, Find;
    if l < |mine| { LevelToOne<V, E>(mine[l], pol, q); }
    if l < |theirs| { LevelFromOne(theirs[l], pol, p); }
    assert At(mine, l, q) == Partners(partner, At(theirs, l, p));
  }

  lemma TopLevelMatches<V(!new), E>(partner: E -> V, mine: Layout<V>, q: int, theirs: Layout<E>, p: int,
                                    pol: Policy<V>, last: nat)
    requires WellBehaved(pol) && IsLayout(mine) && IsLayout(theirs) && Aligned(partner, mine, q, theirs, p)
    requires |mine| <= last + 1 && |theirs| <= last + 1
    requires MatchesBy(partner, LayoutPackets(mine[..if last < |mine| then last else |mine|], pol, q),
                     Project(LayoutSlots(theirs[..if last < |theirs| then last else |theirs|], pol), p))
    ensures MatchesBy(partner, LayoutPackets(mine, pol, q), Project(LayoutSlots(theirs, pol), p))
  {
    hide MatchesBy, WellBehaved, LevelPackets, LevelSlots, Find, LayoutPackets, LayoutSlots, Project, PacketsAt,
      SlotsAt;
    var mine' := mine[..if last < |mine| then last else |mine|];
    var theirs' := theirs[..if last < |theirs| then last else |theirs|];
    LayoutTop(mine, pol, q, last);
    SlotsTop(theirs, pol, last);
    LevelMatches(partner, mine, q, theirs, p, pol, last);
    ProjectConcat(LayoutSlots(theirs', pol), SlotsAt(theirs, last, pol), p);
    MatchesConcat(partner, LayoutPackets(mine', pol, q), PacketsAt(mine, last, pol, q),
                  Project(LayoutSlots(theirs', pol), p), Project(SlotsAt(theirs, last, pol), p));
  }

  /** Aligned layouts schedule matching sends and receives: although sender and receiver walk
      different layouts over different peers, per peer both walks agree. */
  lemma AlignedLayoutsMatch<V(!new), E>(partner: E -> V, mine: Layout<V>, q: int, theirs: Layout<E>, p: int,
                                        pol: Policy<V>)
    requires WellBehaved(pol) && IsLayout(mine) && IsLayout(theirs) && Aligned(partner, mine, q, theirs, p)
    ensures MatchesBy(partner, LayoutPackets(mine, pol, q), Project(LayoutSlots(theirs, pol), p))
  {
    LevelsMatch(partner, mine, q, theirs, p, pol, |mine| + |theirs|);
  }
}
