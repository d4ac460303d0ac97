/** TestLayoutIsDoubleEnded as one round of the communicator: every process sends its flags to all
    members of a process communicator as raw data of unannounced size, and compares. */
module DoubleEndedRound {
  import opened ByteCodes
  import opened Selection
  import opened SubCommunicators
  import opened ProcessLists
  import opened InterfaceDelivery
  import opened InterfaceLayouts
  import opened InterfaceCommunicatorClass
  import opened InterfaceRounds
  import opened InterfaceExchange

  function FlagBytes(b: bool): seq<byte> { [if b then 1 else 0] }

  /** The two flags for every one of the first m members. */
  function FlagSends(members: seq<nat>, masters: set<int>, slaves: set<int>, m: nat): seq<RawSend>
    requires m <= |members|
  {
    if m == 0 then []
    else
      var q := members[m - 1];
      FlagSends(members, masters, slaves, m - 1)
      + [RawSend(q, FlagBytes(q in masters), false), RawSend(q, FlagBytes(q in slaves), false)]
  }

  function FlagReceives(members: seq<nat>, m: nat): (r: seq<RawReceive>)
    requires m <= |members|
    ensures |r| == 2 * m
    ensures forall i :: 0 <= i < m ==> r[2 * i] == r[2 * i + 1] == RawReceive(members[i], -1)
  {
    if m == 0 then []
    else FlagReceives(members, m - 1) + [RawReceive(members[m - 1], -1), RawReceive(members[m - 1], -1)]
  }

  function RankIn(members: seq<nat>, x: nat): (k: nat)
    ensures x in members ==> k < |members| && members[k] == x
  { if |members| == 0 then 0 else if members[0] == x then 0 else RankIn(members[1..], x) + 1 }

  /** What all processes of the world schedule; those outside the communicator nothing. */
  function Flags<V, E>(members: seq<nat>, masters: seq<set<int>>, slaves: seq<set<int>>, n: nat): (ex: Exchange<V, E>)
    requires |masters| == |slaves| == |members|
    ensures ex.RawExchange? && ex.For(n)
    ensures forall x: nat :: x < n ==> ex.rawSends[x] == SendsAt(members, masters, slaves, x)
    ensures forall x: nat :: x < n ==> ex.rawReceives[x] == ReceivesAt(members, x)
  {
    RawExchange(seq(n, x requires 0 <= x < n => SendsAt(members, masters, slaves, x)),
                seq(n, x requires 0 <= x < n => ReceivesAt(members, x)))
  }

  function SendsAt(members: seq<nat>, masters: seq<set<int>>, slaves: seq<set<int>>, x: nat): seq<RawSend>
    requires |masters| == |slaves| == |members|
  {
    if x in members then FlagSends(members, masters[RankIn(members, x)], slaves[RankIn(members, x)], |members|)
    else []
  }

  function ReceivesAt(members: seq<nat>, x: nat): seq<RawReceive> {
    if x in members then FlagReceives(members, |members|) else []
  }

  // ---- the schedules match ------------------------------------------------------------------------

  function TwoFlags<V>(a: bool, b: bool): seq<Packet<V>> { [Raw(FlagBytes(a), false), Raw(FlagBytes(b), false)] }

  /** One more member: who is among the first ones. */
  lemma OneMore(members: seq<nat>, m: nat, q: nat)
    requires Ascending(members) && 0 < m <= |members|
    ensures q in members[..m] <==> q in members[..m - 1] || q == members[m - 1]
    ensures members[m - 1] !in members[..m - 1]
  { assert members[..m] == members[..m - 1] + [members[m - 1]]; }

  lemma TwoPackets<V>(rs: seq<RawSend>, one: RawSend, two: RawSend)
    ensures RawPackets<V>(rs + [one, two]) ==
              RawPackets(rs) + [(one.target, Raw(one.bytes, one.known))] + [(two.target, Raw(two.bytes, two.known))]
  {}

  lemma {:induction false} FlagsTo<V>(members: seq<nat>, masters: set<int>, slaves: set<int>, m: nat, q: nat)
    requires Ascending(members) && m <= |members|
    ensures To<V>(RawPackets(FlagSends(members, masters, slaves, m)), q) ==
              if q in members[..m] then TwoFlags(q in masters, q in slaves) else []
  {
    hide RawPackets, To, Ascending, FlagBytes;
    if m == 0 {
      NothingScheduled<V, int>(q);
    } else {
      var x := members[m - 1];
      FlagsTo<V>(members, masters, slaves, m - 1, q);
      OneMore(members, m, q);
      var before := RawPackets<V>(FlagSends(members, masters, slaves, m - 1));
      var one: Packet<V> := Raw(FlagBytes(x in masters), false);
      var two: Packet<V> := Raw(FlagBytes(x in slaves), false);
      TwoPackets<V>(FlagSends(members, masters, slaves, m - 1), RawSend(x, one.bytes, false),
                    RawSend(x, two.bytes, false));
      ToSnoc(before, x, one, q);
      ToSnoc(before + [(x, one)], x, two, q);
    }
  }

  function TwoSlots<V, E>(p: nat): seq<Slot<V, E>> { [IntoRaw(p, -1), IntoRaw(p, -1)] }

  lemma TwoMoreSlots<V, E>(rs: seq<RawReceive>, x: nat, p: nat)
    ensures Project<V, E>(RawSlots(rs + [RawReceive(x, -1), RawReceive(x, -1)]), p) ==
              Project(RawSlots(rs), p) + (if x == p then TwoSlots(p) else [])
  {
    hide Project;
    var before, one: seq<Slot<V, E>> := RawSlots(rs), [IntoRaw(x, -1)];
    assert RawSlots<V, E>(rs + [RawReceive(x, -1), RawReceive(x, -1)]) == before + (one + one);
    ProjectConcat(before, one + one, p);
    ProjectConcat(one, one, p);
    ProjectSingle(one[0], p);
  }

  lemma {:induction false} FlagsFrom<V, E>(members: seq<nat>, m: nat, p: nat)
    requires Ascending(members) && m <= |members|
    ensures Project<V, E>(RawSlots(FlagReceives(members, m)), p) == if p in members[..m] then TwoSlots(p) else []
  {
    hide RawSlots, Project, Ascending, TwoSlots;
    if m == 0 {
      NothingScheduled<V, E>(p);
    } else {
      FlagsFrom<V, E>(members, m - 1, p);
      OneMore(members, m, p);
      TwoMoreSlots<V, E>(FlagReceives(members, m - 1), members[m - 1], p);
    }
  }

  lemma NothingScheduled<V, E>(q: int)
    ensures To<V>(RawPackets([]), q) == [] && Project<V, E>(RawSlots([]), q) == []
  {}

  /** What x has scheduled for y, and y from x. */
  lemma FlagSchedules<V, E>(members: seq<nat>, masters: seq<set<int>>, slaves: seq<set<int>>, n: nat, x: nat, y: nat)
    requires Ascending(members) && |masters| == |slaves| == |members| && x < n && y < n
    ensures var ex := Flags<V, E>(members, masters, slaves, n); var k := RankIn(members, x);
            && To<V>(RawPackets(ex.rawSends[x]), y) ==
                 (if x in members && y in members then TwoFlags(y in masters[k], y in slaves[k]) else [])
            && Project<V, E>(RawSlots(ex.rawReceives[y]), x) ==
                 (if x in members && y in members then TwoSlots(x) else [])
  {
    hide To, Project, FlagSends, RawPackets, RawSlots;
    NothingScheduled<V, E>(x);
    NothingScheduled<V, E>(y);
    assert members[..|members|] == members;
    if x in members {
      FlagsTo<V>(members, masters[RankIn(members, x)], slaves[RankIn(members, x)], |members|, y);
    }
    FlagsFrom<V, E>(members, |members|, x);
  }

  lemma FlagsOk<V(!new), E>(partner: E -> V, members: seq<nat>, masters: seq<set<int>>, slaves: seq<set<int>>, n: nat)
    requires MembersOk(members, n) && |masters| == |slaves| == |members|
    ensures var exs := [Flags<V, E>(members, masters, slaves, n)]; RoundOk(partner, exs, n) && Sized(exs, n)
  {
    hide To, Project, RawPackets, RawSlots, ReceivesAt, SendsAt;
    var ex := Flags<V, E>(members, masters, slaves, n);
    forall p, q | 0 <= p < n && 0 <= q < n
      ensures Matches<V, E>(To(RawPackets(ex.rawSends[p]), q), Project(RawSlots(ex.rawReceives[q]), p))
    { FlagSchedules<V, E>(members, masters, slaves, n, p, q); }
    forall p, j | 0 <= p < n && 0 <= j < |ex.rawReceives[p]| ensures 0 <= ex.rawReceives[p][j].src < n {
      FlagSources(members, p, j);
    }
    assert RawOk<V, E>(ex.rawSends, ex.rawReceives, n);
  }

  lemma FlagsUniform<V, E>(members: seq<nat>, masters: seq<set<int>>, slaves: seq<set<int>>, n: nat)
    requires |masters| == |slaves| == |members|
    ensures AllUniform([Flags<V, E>(members, masters, slaves, n)], false)
  {
    hide ReceivesAt;
    var ex := Flags<V, E>(members, masters, slaves, n);
    forall p, j | 0 <= p < |ex.rawReceives| && 0 <= j < |ex.rawReceives[p]| ensures ex.rawReceives[p][j].size == -1 {
      FlagSources(members, p, j);
    }
    forall p, j | 0 <= p < |ex.rawSends| && 0 <= j < |ex.rawSends[p]| ensures !ex.rawSends[p][j].known {
      var k := RankIn(members, p);
      if p in members { FlagsUnknown(members, masters[k], slaves[k], |members|, j); }
    }
    assert UniformExchange(ex, false);
  }

  lemma FlagsSmall<V(!new), E>(members: seq<nat>, masters: seq<set<int>>, slaves: seq<set<int>>, n: nat)
    requires MembersOk(members, n) && |masters| == |slaves| == |members|
    requires Sized([Flags<V, E>(members, masters, slaves, n)], n)
    ensures SmallBuffers([Flags<V, E>(members, masters, slaves, n)], n)
  {
    hide To, Project, RawPackets, RawSlots, ReceivesAt, SendsAt, Stream, TwoFlags, Flags;
    var ex := Flags<V, E>(members, masters, slaves, n);
    forall p: nat, q: nat | p < n && q < n ensures |OutBuffer([ex], n, p, q)| < 0x8000_0000 {
      OneExchange(ex, n, p);
      FlagSchedules<V, E>(members, masters, slaves, n, p, q);
      var k := RankIn(members, p);
      TwoFlagsAreShort<V>(k < |members| && q in masters[k], k < |members| && q in slaves[k]);
    }
  }

  lemma FlagSources(members: seq<nat>, x: nat, j: nat)
    requires j < |ReceivesAt(members, x)|
    ensures ReceivesAt(members, x)[j].src in members && ReceivesAt(members, x)[j].size == -1
  {
    var i := j / 2;
    assert j == 2 * i || j == 2 * i + 1;
    var r := FlagReceives(members, |members|);
    assert r[2 * i] == r[2 * i + 1] == RawReceive(members[i], -1);
  }

  lemma {:induction false} FlagsUnknown(members: seq<nat>, masters: set<int>, slaves: set<int>, m: nat, j: nat)
    requires m <= |members| && j < |FlagSends(members, masters, slaves, m)|
    ensures !FlagSends(members, masters, slaves, m)[j].known
  {
    if m > 0 && j < |FlagSends(members, masters, slaves, m - 1)| { FlagsUnknown(members, masters, slaves, m - 1, j); }
  }

  lemma OneExchange<V, E>(ex: Exchange<V, E>, n: nat, p: nat)
    requires ex.For(n) && p < n && Sized([ex], n)
    ensures Sends([ex], n, p) == ex.SendsOf(n, p) && Slots([ex], n, p) == ex.SlotsOf(n, p)
  {
    hide Exchange.SendsOf, Exchange.SlotsOf;
    assert [ex][..0] == [];
    assert Sends([ex], n, p) == [] + ex.SendsOf(n, p) && Slots([ex], n, p) == [] + ex.SlotsOf(n, p);
  }

  lemma TwoFlagsAreShort<V>(a: bool, b: bool)
    ensures |Stream(TwoFlags<V>(a, b))| == 10 && |Stream<V>([])| == 0
  {
    var ps := TwoFlags<V>(a, b);
    assert ps[1..] == [Raw(FlagBytes(b), false)] && ps[1..][1..] == [];
  }

  // ---- what arrives -------------------------------------------------------------------------------

  /** Receives 2i and 2i+1 of a member are the first and the second one from rank i. */
  lemma SlotAt<V, E>(members: seq<nat>, masters: seq<set<int>>, slaves: seq<set<int>>, n: nat, k: nat, i: nat)
    requires MembersOk(members, n) && |masters| == |slaves| == |members| && k < |members| && i < |members|
    requires Sized([Flags<V, E>(members, masters, slaves, n)], n)
    ensures var slots := Slots([Flags<V, E>(members, masters, slaves, n)], n, members[k]);
            && |slots| == 2 * |members| && slots[2 * i] == slots[2 * i + 1] == IntoRaw(members[i], -1)
            && |Project(slots[..2 * i], members[i])| == 0 && |Project(slots[..2 * i + 1], members[i])| == 1
  {
    hide Project, Ascending, Flags, FlagReceives;
    var ex := Flags<V, E>(members, masters, slaves, n);
    OneExchange(ex, n, members[k]);
    SlotsBefore<V, E>(members, i);
  }

  /** What rank i has sent to rank k. */
  lemma SentAt<V, E>(members: seq<nat>, masters: seq<set<int>>, slaves: seq<set<int>>, n: nat, k: nat, i: nat)
    requires MembersOk(members, n) && |masters| == |slaves| == |members| && k < |members| && i < |members|
    requires Sized([Flags<V, E>(members, masters, slaves, n)], n)
    ensures To(Sends([Flags<V, E>(members, masters, slaves, n)], n, members[i]), members[k]) ==
              TwoFlags(FlagsFor(members, masters, k)[i], FlagsFor(members, slaves, k)[i])
  {
    hide To, Ascending, Flags, TwoFlags, FlagsFor, RawPackets;
    var ex := Flags<V, E>(members, masters, slaves, n);
    OneExchange(ex, n, members[i]);
    FlagSchedules<V, E>(members, masters, slaves, n, members[i], members[k]);
    RanksAreUnique(members, i);
    FlagIs(members, masters, k, i);
    FlagIs(members, slaves, k, i);
  }

  /** After the round the process with rank k holds, for every rank i, what that process has
      flagged for it. */
  lemma FlagsArrive<V, E>(partner: E -> V, members: seq<nat>, masters: seq<set<int>>, slaves: seq<set<int>>, n: nat,
                          k: nat, out: seq<Outcome<V, E>>, i: nat)
    requires MembersOk(members, n) && |masters| == |slaves| == |members| && k < |members| && i < |members|
    requires Sized([Flags<V, E>(members, masters, slaves, n)], n)
    requires Complete(partner, [Flags<V, E>(members, masters, slaves, n)], n, members[k], out)
    ensures |out| == 2 * |members|
    ensures out[2 * i] == Bytes(FlagBytes(FlagsFor(members, masters, k)[i]))
    ensures out[2 * i + 1] == Bytes(FlagBytes(FlagsFor(members, slaves, k)[i]))
  {
    hide To, Project, FlagsFor, TwoFlags, Flags, Sends, Slots, MembersOk;
    var exs := [Flags<V, E>(members, masters, slaves, n)];
    MemberBelow(members, n, k);
    SlotAt<V, E>(members, masters, slaves, n, k, i);
    SentAt<V, E>(members, masters, slaves, n, k, i);
    assert Served(partner, exs, n, members[k], 2 * i, out[2 * i]);
    assert Served(partner, exs, n, members[k], 2 * i + 1, out[2 * i + 1]);
    TwoFlagsAt<V>(FlagsFor(members, masters, k)[i], FlagsFor(members, slaves, k)[i]);
  }

  lemma MemberBelow(members: seq<nat>, n: nat, k: nat)
    requires MembersOk(members, n) && k < |members|
    ensures members[k] < n
  {}

  lemma TwoFlagsAt<V>(a: bool, b: bool)
    ensures |TwoFlags<V>(a, b)| == 2 && TwoFlags<V>(a, b)[0] == Raw(FlagBytes(a), false)
    ensures TwoFlags<V>(a, b)[1] == Raw(FlagBytes(b), false)
  {}

  lemma FlagIs(members: seq<nat>, peers: seq<set<int>>, k: nat, i: nat)
    requires |peers| == |members| && k < |members| && i < |members|
    ensures |FlagsFor(members, peers, k)| == |members| && (FlagsFor(members, peers, k)[i] <==> members[k] in peers[i])
  {}

  lemma RanksAreUnique(members: seq<nat>, i: nat)
    requires Ascending(members) && i < |members|
    ensures RankIn(members, members[i]) == i
  {
    var k := RankIn(members, members[i]);
    assert members[k] == members[i];
  }

  /** None of the receives before 2i comes from the process with rank i, one of those before 2i+1. */
  lemma SlotsBefore<V, E>(members: seq<nat>, i: nat)
    requires Ascending(members) && i < |members|
    ensures var slots := RawSlots<V, E>(FlagReceives(members, |members|));
            |Project(slots[..2 * i], members[i])| == 0 && |Project(slots[..2 * i + 1], members[i])| == 1
  {
    hide Project;
    var slots := RawSlots<V, E>(FlagReceives(members, |members|));
    var p := members[i];
    assert slots[..2 * i] == RawSlots(FlagReceives(members, i)) by { FirstReceives(members, i, |members|); }
    FlagsFrom<V, E>(members, i, p);
    assert p !in members[..i];
    assert slots[..2 * i + 1] == slots[..2 * i] + [slots[2 * i]];
    ProjectConcat(slots[..2 * i], [slots[2 * i]], p);
    ProjectSingle(slots[2 * i], p);
  }

  lemma {:induction false} FirstReceives(members: seq<nat>, i: nat, m: nat)
    requires i <= m <= |members|
    ensures FlagReceives(members, m)[..2 * i] == FlagReceives(members, i)
  {
    if i < m {
      FirstReceives(members, i, m - 1);
      assert FlagReceives(members, m)[..2 * i] == FlagReceives(members, m - 1)[..2 * i];
    }
  }

  // ---- the test -------------------------------------------------------------------------------------

  /** One process: what it has received, compared with its own flags. */
  method CheckOwn<V(!new), E>(ghost partner: E -> V, members: seq<nat>, masters: seq<set<int>>, slaves: seq<set<int>>,
                              ghost n: nat, k: nat, out: seq<Outcome<V, E>>)
    returns (ok: bool)
    requires MembersOk(members, n) && |masters| == |slaves| == |members| && k < |members|
    requires Sized([Flags<V, E>(members, masters, slaves, n)], n)
    requires Complete(partner, [Flags<V, E>(members, masters, slaves, n)], n, members[k], out)
    ensures ok <==> LocalCheck(members, masters, slaves, k)
  {
    hide Complete, Flags, FlagsFor, PeerFlags, LocalCheck;
    var mastersToMe, slavesToMe: seq<bool> := [], [];
    for i := 0 to |members|
      invariant |mastersToMe| == |slavesToMe| == i
      invariant i <= |FlagsFor(members, masters, k)| && mastersToMe == FlagsFor(members, masters, k)[..i]
      invariant i <= |FlagsFor(members, slaves, k)| && slavesToMe == FlagsFor(members, slaves, k)[..i]
    {
      FlagsArrive(partner, members, masters, slaves, n, k, out, i);
      FlagIs(members, masters, k, i);
      FlagIs(members, slaves, k, i);
      mastersToMe := mastersToMe + [out[2 * i].bytes[0] != 0];
      slavesToMe := slavesToMe + [out[2 * i + 1].bytes[0] != 0];
    }
    FlagIs(members, masters, k, k);
    FlagIs(members, slaves, k, k);
    var masterFlags, slaveFlags := PeerFlags(members, masters[k]), PeerFlags(members, slaves[k]);
    ok := TestLayoutIsDoubleEnded(mastersToMe, slavesToMe, masterFlags, slaveFlags);
    CheckIs(members, masters, slaves, k);
  }

  lemma CheckIs(members: seq<nat>, masters: seq<set<int>>, slaves: seq<set<int>>, k: nat)
    requires |masters| == |slaves| == |members| && k < |members|
    ensures LocalCheck(members, masters, slaves, k) <==>
              (FlagsFor(members, masters, k) == PeerFlags(members, slaves[k])
               && FlagsFor(members, slaves, k) == PeerFlags(members, masters[k]))
  {}

  /** The test on all processes: the round always succeeds, and the answers, combined, say exactly
      that on the communicator the master and the slave relation are each other's converse. */
  method TestOnAll<V(!new), E>(coms: seq<InterfaceCommunicator<V, E>>, ghost partner: E -> V, members: seq<nat>,
                               masters: seq<set<int>>, slaves: seq<set<int>>, n: nat)
    returns (local: seq<bool>)
    requires |coms| == n && DistinctObjects(coms) && forall p :: 0 <= p < n ==> coms[p].Idle()
    requires MembersOk(members, n) && OnMembers(members, masters) && |slaves| == |members|
    modifies coms
    ensures |local| == |members| && forall p :: 0 <= p < n ==> coms[p].Idle()
    ensures AllProcsTrue(local) <==>
              forall p, q :: 0 <= p < |members| && 0 <= q < |members| ==>
                (members[q] in masters[p] <==> members[p] in slaves[q])
  {
    hide Flags, SmallBuffers, RoundOk, Sized, Complete, AllUniform, Agree, LocalCheck, AllProcsTrue, OnMembers;
    MembersSized(members, masters);
    var exs := [Flags<V, E>(members, masters, slaves, n)];
    FlagsOk(partner, members, masters, slaves, n);
    FlagsUniform<V, E>(members, masters, slaves, n);
    FlagsSmall<V, E>(members, masters, slaves, n);
    SamePolicyAgrees(partner, exs, n, false);
    var ok, outs := Round(coms, partner, exs, n);
    forall p | 0 <= p < n ensures coms[p].Idle() { assert Finished(coms[p]); }
    local := [];
    for k := 0 to |members|
      invariant |local| == k
      invariant forall p :: 0 <= p < n ==> coms[p].Idle()
      invariant forall i :: 0 <= i < k ==> (local[i] <==> LocalCheck(members, masters, slaves, i))
    {
      var here := CheckOwn(partner, members, masters, slaves, n, k, outs[members[k]]);
      local := local + [here];
    }
    DoubleEndedIff(members, masters, slaves, local);
  }

  lemma MembersSized(members: seq<nat>, peers: seq<set<int>>)
    requires OnMembers(members, peers)
    ensures |peers| == |members|
  {}
}
