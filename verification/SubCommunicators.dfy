/** Process communicators: sub-communicators of the participating processes, and the translation
    between ranks of a communicator and of the world. */
module SubCommunicators {
  import opened Options
  import opened Selection

  /** What a process holds: nothing but itself, the world, no communicator it belongs to, or a
      communicator with the world ranks of its members in their order. */
  datatype Comm = Local | World | Empty | Group(procs: seq<nat>)

  predicate IsOwn(x: Comm) { x.World? || x.Group? }

  /** get_proc_id on the process with world rank me; an empty communicator has no rank to ask for. */
  function GetProcId(c: Comm, me: nat, i: nat): nat
    requires !c.Empty? && (c.Group? ==> i < |c.procs|)
  {
    match c
    case Group(procs) => procs[i]
    case World => i
    case Local => me
  }

  function FirstIndex(procs: seq<nat>, g: nat): int {
    if |procs| == 0 then -1
    else if procs[0] == g then 0
    else var i := FirstIndex(procs[1..], g); if i == -1 then -1 else i + 1
  }

  /** get_local_proc_id; rank is the own rank, which the library answers. On an empty communicator
      the library cannot be asked for it, and nobody else is found. */
  function GetLocalProcId(c: Comm, me: nat, rank: nat, g: nat): int
    requires c.Empty? ==> g != me
  {
    match c
    case Group(procs) => if g == me then rank else FirstIndex(procs, g)
    case World => g
    case Local => 0
    case Empty => -1
  }

  // ---- one sub-communicator ---------------------------------------------------------------------

  /** World ranks of the processes at some ranks of a communicator. */
  function Translated(members: seq<nat>, ranks: seq<nat>): (r: seq<nat>)
    requires forall k :: 0 <= k < |ranks| ==> ranks[k] < |members|
    ensures |r| == |ranks| && forall k :: 0 <= k < |r| ==> r[k] == members[ranks[k]]
  { seq(|ranks|, k requires 0 <= k < |ranks| => members[ranks[k]]) }

  /** Who wants to participate, by rank in the communicator. */
  function Wanting(members: seq<nat>, participate: seq<bool>): (r: seq<bool>)
    ensures |r| == |members|
    ensures forall i :: 0 <= i < |r| ==> r[i] == (members[i] < |participate| && participate[members[i]])
  { seq(|members|, i requires 0 <= i < |members| => members[i] < |participate| && participate[members[i]]) }

  /** The members of the new communicator, in the order of the ranks that were passed in. */
  function SubMembers(members: seq<nat>, participate: seq<bool>): seq<nat> {
    Translated(members, Selected(Wanting(members, participate)))
  }

  /** What process me holds after create_sub_communicator: newProcs are ranks in the parent,
      n is the number of all processes. */
  function SubView(view: Comm, n: nat, me: nat, newProcs: seq<nat>, participates: bool): Comm
    requires view.Group? ==> forall k :: 0 <= k < |newProcs| ==> newProcs[k] < |view.procs|
  {
    if !IsOwn(view) || |newProcs| == 0 then Empty
    else if |newProcs| == n then World
    else if !participates then Empty
    else Group(seq(|newProcs|, k requires 0 <= k < |newProcs| => GetProcId(view, me, newProcs[k])))
  }

  /** The view that goes with a communicator: the shortcut for all processes, nothing for a
      process that does not belong to it. */
  ghost predicate ViewOk(view: Comm, members: seq<nat>, n: nat, me: nat) {
    view == if me !in members then Empty else if |members| == n then World else Group(members)
  }

  ghost predicate MembersOk(members: seq<nat>, n: nat) {
    Ascending(members) && forall k :: 0 <= k < |members| ==> members[k] < n
  }

  /** Ascending ranks are spread at least as far as their positions. */
  lemma {:induction false} RankAtLeast(members: seq<nat>, i: nat)
    requires Ascending(members) && i < |members|
    ensures i <= members[i]
  { if i > 0 { RankAtLeast(members, i - 1); } }

  lemma {:induction false} RankAtMost(members: seq<nat>, n: nat, i: nat)
    requires MembersOk(members, n) && i < |members|
    ensures members[i] + (|members| - 1 - i) < n
    decreases |members| - i
  { if i + 1 < |members| { RankAtMost(members, n, i + 1); } }

  /** With as many members as there are processes, ranks are world ranks. */
  lemma AllMembers(members: seq<nat>, n: nat)
    requires MembersOk(members, n)
    ensures |members| <= n
    ensures |members| == n ==> forall i :: 0 <= i < n ==> members[i] == i
  {
    if |members| > 0 { RankAtMost(members, n, 0); }
    forall i | 0 <= i < |members| && |members| == n ensures members[i] == i {
      RankAtLeast(members, i);
      RankAtMost(members, n, i);
    }
  }

  lemma SubMembersOk(members: seq<nat>, participate: seq<bool>, n: nat)
    requires MembersOk(members, n)
    ensures MembersOk(SubMembers(members, participate), n)
  { SelectedExact(Wanting(members, participate)); }

  /** The new members are exactly the old ones that participate. */
  lemma SubMembersExact(members: seq<nat>, participate: seq<bool>, x: nat)
    ensures x in SubMembers(members, participate) <==> x in members && x < |participate| && participate[x]
  {
    var ranks := Selected(Wanting(members, participate));
    SelectedExact(Wanting(members, participate));
    if x in members && x < |participate| && participate[x] {
      var i :| 0 <= i < |members| && members[i] == x;
      assert i in ranks;
      var k :| 0 <= k < |ranks| && ranks[k] == i;
      assert SubMembers(members, participate)[k] == x;
    }
    if x in SubMembers(members, participate) {
      var k :| 0 <= k < |ranks| && SubMembers(members, participate)[k] == x;
      assert ranks[k] in ranks;
      assert members[ranks[k]] == x;
    }
  }

  /** Every process that holds its view of a communicator gets its view of the sub-communicator. */
  lemma SubViewOk(view: Comm, members: seq<nat>, participate: seq<bool>, n: nat, me: nat)
    requires MembersOk(members, n) && ViewOk(view, members, n, me)
    ensures ViewOk(SubView(view, n, me, Selected(Wanting(members, participate)), me < |participate| && participate[me]),
                   SubMembers(members, participate), n, me)
  {
    hide Selected, Ascending;
    var ranks := Selected(Wanting(members, participate));
    var sub := SubMembers(members, participate);
    SubMembersExact(members, participate, me);
    SubMembersOk(members, participate, n);
    AllMembers(members, n);
    AllMembers(sub, n);
    EveryoneIsThere(sub, n, me);
    if me in sub && |sub| != n {
      assert forall k :: 0 <= k < |ranks| ==> GetProcId(view, me, ranks[k]) == members[ranks[k]];
      assert SubView(view, n, me, ranks, true).procs == sub;
    }
  }

  lemma EveryoneIsThere(members: seq<nat>, n: nat, me: nat)
    requires MembersOk(members, n)
    ensures |members| == n && me < n ==> me in members
  {
    AllMembers(members, n);
    if |members| == n && me < n { assert members[me] == me; }
  }

  // ---- towers of sub-communicators ----------------------------------------------------------------

  function Everyone(n: nat): seq<nat> { seq(n, i => i) }

  /** The members after all rounds of create_sub_communicator(participate) from the world on. */
  function TowerMembers(rounds: seq<seq<bool>>, n: nat): seq<nat> {
    if |rounds| == 0 then Everyone(n)
    else SubMembers(TowerMembers(rounds[..|rounds| - 1], n), rounds[|rounds| - 1])
  }

  lemma {:induction false} TowerMembersOk(rounds: seq<seq<bool>>, n: nat)
    ensures MembersOk(TowerMembers(rounds, n), n)
  {
    if |rounds| > 0 {
      var k := |rounds| - 1;
      TowerMembersOk(rounds[..k], n);
      SubMembersOk(TowerMembers(rounds[..k], n), rounds[k], n);
    }
  }

  lemma ViewOfWorld(n: nat, me: nat)
    ensures me < n ==> ViewOk(World, Everyone(n), n, me)
  { if me < n { assert Everyone(n)[me] == me; } }

  /** What process me holds after all rounds, each step taken from its own view: the strictly
      ascending list of the processes that belong to the communicator, or nothing if it is
      not one of them. */
  function TowerView(rounds: seq<seq<bool>>, n: nat, me: nat): (view: Comm)
    requires me < n
    ensures ViewOk(view, TowerMembers(rounds, n), n, me)
    decreases |rounds|
  {
    if |rounds| == 0 then ViewOfWorld(n, me); World
    else
      var last := rounds[|rounds| - 1];
      var before := rounds[..|rounds| - 1];
      var parent := TowerView(before, n, me);
      TowerMembersOk(before, n);
      SubViewOk(parent, TowerMembers(before, n), last, n, me);
      SubView(parent, n, me, Selected(Wanting(TowerMembers(before, n), last)), me < |last| && last[me])
  }

  ghost predicate AlwaysIn(rounds: seq<seq<bool>>, x: nat) {
    forall l :: 0 <= l < |rounds| ==> x < |rounds[l]| && rounds[l][x]
  }

  lemma AlwaysInStep(rounds: seq<seq<bool>>, k: nat, x: nat)
    requires |rounds| == k + 1
    ensures AlwaysIn(rounds, x) <==> AlwaysIn(rounds[..k], x) && x < |rounds[k]| && rounds[k][x]
  {
    if AlwaysIn(rounds[..k], x) && x < |rounds[k]| && rounds[k][x] {
      forall l | 0 <= l < |rounds|
        ensures x < |rounds[l]| && rounds[l][x]
      {
        if l < k { assert rounds[..k][l] == rounds[l]; }
      }
    }
    if AlwaysIn(rounds, x) {
      forall l | 0 <= l < k ensures x < |rounds[..k][l]| && rounds[..k][l][x] { assert rounds[..k][l] == rounds[l]; }
    }
  }

  /** The communicator holds exactly the processes that participated in every round. */
  lemma {:induction false} TowerMembersExact(rounds: seq<seq<bool>>, n: nat, x: nat)
    ensures x in TowerMembers(rounds, n) <==> x < n && AlwaysIn(rounds, x)
  {
    hide SubMembers, AlwaysIn;
    if |rounds| == 0 {
      NoRounds(rounds, n, x);
    } else {
      var k := |rounds| - 1;
      TowerMembersExact(rounds[..k], n, x);
      SubMembersExact(TowerMembers(rounds[..k], n), rounds[k], x);
      AlwaysInStep(rounds, k, x);
    }
  }

  lemma NoRounds(rounds: seq<seq<bool>>, n: nat, x: nat)
    requires |rounds| == 0
    ensures AlwaysIn(rounds, x) && (x in Everyone(n) <==> x < n)
  { if x < n { assert Everyone(n)[x] == x; } }

  // ---- translating ranks ------------------------------------------------------------------------

  lemma {:induction false} FirstIndexFinds(procs: seq<nat>, g: nat)
    ensures var i := FirstIndex(procs, g);
            if g in procs then 0 <= i < |procs| && procs[i] == g && g !in procs[..i] else i == -1
  {
    if |procs| > 0 && procs[0] != g {
      FirstIndexFinds(procs[1..], g);
      assert procs == [procs[0]] + procs[1..];
      var i := FirstIndex(procs, g);
      if i != -1 { assert procs[..i] == [procs[0]] + procs[1..][..i - 1]; }
    }
  }

  /** The process has this view of a communicator with these members; a local communicator is one
      that has only the process itself. */
  ghost predicate IsViewOf(view: Comm, members: seq<nat>, n: nat, me: nat) {
    if view.Local? then members == [me] else ViewOk(view, members, n, me)
  }

  /** On a member, at position rank, the two translations are inverse to each other; a process
      that does not belong to a proper sub-communicator has no rank there. */
  lemma TranslationsInverse(view: Comm, members: seq<nat>, n: nat, me: nat, rank: nat, i: nat, g: nat)
    requires MembersOk(members, n) && IsViewOf(view, members, n, me) && rank < |members| && members[rank] == me
    requires i < |members|
    ensures GetProcId(view, me, i) == members[i]
    ensures GetLocalProcId(view, me, rank, GetProcId(view, me, i)) == i
    ensures GetLocalProcId(view, me, rank, me) == rank
    ensures var k := GetLocalProcId(view, me, rank, g);
            g in members ==> 0 <= k < |members| && GetProcId(view, me, k) == g
    ensures g < n && g !in members ==> GetLocalProcId(view, me, rank, g) == if view.Local? then 0 else -1
  {
    AllMembers(members, n);
    EveryoneIsThere(members, n, g);
    FirstIndexFinds(members, members[i]);
    FirstIndexFinds(members, g);
  }

  // ---- the loops ----------------------------------------------------------------------------------

  /** What an allreduce with the maximum yields for arrays of 0 and 1. */
  function MaxOf(arrays: seq<seq<int>>, k: nat): int
    requires forall p :: 0 <= p < |arrays| ==> k < |arrays[p]|
  {
    if |arrays| == 0 then 0
    else
      var m := MaxOf(arrays[..|arrays| - 1], k);
      var x := arrays[|arrays| - 1][k];
      if m < x then x else m
  }

  lemma {:induction false} MaxOfFlags(arrays: seq<seq<int>>, k: nat)
    requires forall p :: 0 <= p < |arrays| ==> k < |arrays[p]| && (arrays[p][k] == 0 || (arrays[p][k] == 1))
    ensures MaxOf(arrays, k) == if exists p :: 0 <= p < |arrays| && arrays[p][k] == 1 then 1 else 0
  {
    if |arrays| > 0 {
      var n := |arrays| - 1;
      MaxOfFlags(arrays[..n], k);
      if arrays[n][k] == 0 && exists p :: 0 <= p < |arrays| && arrays[p][k] == 1 {
        var p :| 0 <= p < |arrays| && arrays[p][k] == 1;
        assert arrays[..n][p][k] == 1;
      }
    }
  }

  /** The array a process contributes: its own entry only. */
  method OwnEntry(size: nat, rank: nat, participate: bool) returns (src: seq<int>)
    requires rank < size
    ensures src == seq(size, k => if k == rank && participate then 1 else 0)
  {
    src := seq(size, _ => 0);
    if participate { src := src[rank := 1]; }
  }

  /** What all processes have contributed to the allreduce. */
  ghost predicate Contributed(arrays: seq<seq<int>>, wants: seq<bool>) {
    && |arrays| == |wants|
    && forall p :: 0 <= p < |arrays| ==> arrays[p] == seq(|wants|, k => if k == p && wants[p] then 1 else 0)
  }

  lemma AgreedOn(arrays: seq<seq<int>>, wants: seq<bool>, k: nat)
    requires Contributed(arrays, wants) && k < |wants|
    ensures MaxOf(arrays, k) == if wants[k] then 1 else 0
  {
    forall p | 0 <= p < |arrays| ensures k < |arrays[p]| && (arrays[p][k] == 0 || arrays[p][k] == 1) {
      assert arrays[p] == seq(|wants|, k' => if k' == p && wants[p] then 1 else 0);
    }
    assert arrays[k] == seq(|wants|, k' => if k' == k && wants[k] then 1 else 0);
    MaxOfFlags(arrays, k);
    forall p | 0 <= p < |arrays| && arrays[p][k] == 1 ensures wants[k] {
      assert arrays[p] == seq(|wants|, k' => if k' == p && wants[p] then 1 else 0);
    }
  }

  /** create_sub_communicator on one process, from the result of the allreduce: None is the
      exception for a local communicator. The library tells whether the new communicator
      includes the process. */
  method CreateSubCommunicator(view: Comm, n: nat, me: nat, dest: seq<int>, included: bool, ghost wants: seq<bool>)
    returns (r: Option<Comm>)
    requires view.Group? ==> |view.procs| == |dest|
    requires |dest| == |wants| && forall k :: 0 <= k < |dest| ==> dest[k] == if wants[k] then 1 else 0
    ensures r == if view.Local? then None else Some(SubView(view, n, me, Selected(wants), included))
  {
    if view.Local? { return None; }
    if view.Empty? || |dest| < 1 { EmptySelection(wants); return Some(Empty); }
    var newProcs: seq<nat> := [];
    var i := 0;
    while i < |dest|
      invariant 0 <= i <= |dest| && newProcs == Selected(wants[..i])
    {
      SelectedStep(wants, i);
      if dest[i] != 0 { newProcs := newProcs + [i]; }
      i := i + 1;
    }
    assert wants[..i] == wants;
    if |newProcs| == 0 { return Some(Empty); }
    if |newProcs| == n { return Some(World); }
    if !included { return Some(Empty); }
    ghost var ranks := newProcs;
    i := 0;
    while i < |newProcs|
      invariant 0 <= i <= |newProcs| == |ranks|
      invariant forall k :: 0 <= k < i ==> newProcs[k] == GetProcId(view, me, ranks[k])
      invariant forall k :: i <= k < |ranks| ==> newProcs[k] == ranks[k]
    {
      newProcs := newProcs[i := GetProcId(view, me, newProcs[i])];
      i := i + 1;
    }
    assert SubView(view, n, me, ranks, included).procs == newProcs;
    r := Some(Group(newProcs));
  }

  lemma EmptySelection(flags: seq<bool>)
    ensures |flags| == 0 ==> Selected(flags) == []
  {}
}
