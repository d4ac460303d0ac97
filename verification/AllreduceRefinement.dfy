/** From the code of one process to the model of the collective: the index reinit builds
    describes the groups of the model, and the flat in-place reduction is its Reduce step. */
module AllreduceRefinement {
  import opened Selection
  import opened AllreduceModel
  import opened AllreduceMatching
  import opened AllreduceLocal
  import opened AllreduceReduce
  import opened AllreduceRuns
  import GroupIndex
  import SubCommunicators

  /** The member lists of all groups. */
  function Lists(parts: GroupIndex.Matrix, groups: nat): (r: seq<seq<nat>>)
    requires GroupIndex.Rectangular(parts, groups)
    ensures |r| == groups && forall g :: 0 <= g < groups ==> r[g] == GroupIndex.Members(parts, g)
  { seq(groups, g requires 0 <= g < groups => GroupIndex.Members(parts, g)) }

  /** Any membership matrix gives a valid set of groups. */
  lemma MatrixIsValid<B>(parts: GroupIndex.Matrix, groups: nat, ins: Instance<B>)
    requires GroupIndex.Rectangular(parts, groups)
    requires ins.members == Lists(parts, groups) && ins.n == |parts| == |ins.addr|
    ensures ins.Valid()
    ensures forall p: nat, g: nat :: ins.Member(p, g) <==> g < groups && p < |parts| && parts[p][g]
  {
    hide GroupIndex.MembersUpTo;
    forall g | 0 <= g < groups ensures ValidGroup(ins.members[g], ins.n) {
      GroupIndex.MembersExact(parts, g, |parts|);
      var ms := ins.members[g];
      forall i | 0 <= i < |ms| ensures ms[i] < ins.n { assert ms[i] in ms; }
    }
    forall p: nat, g: nat ensures ins.Member(p, g) <==> g < groups && p < |parts| && parts[p][g] {
      if g < groups { GroupIndex.MembersExact(parts, g, |parts|); }
    }
  }

  /** What reinit leaves on process me is the index allreduce relies on. */
  lemma ReinitReflects(c: GroupIndex.MultiGroupCommunicator, parts: GroupIndex.Matrix, groups: nat, me: nat)
    requires c.Indexed(parts, groups, me)
    ensures var ix := Index(c.memberships, c.groupOffsets, c.groupMembers);
            ix.Valid() && ix.Reflects(Lists(parts, groups), me)
  {
    hide GroupIndex.MembersUpTo, Selected;
    var ix := Index(c.memberships, c.groupOffsets, c.groupMembers);
    SelectedExact(parts[me]);
    forall i | 0 <= i < |ix.memberships|
      ensures ix.Ok(i) && GroupIndex.Holds(ix.offsets, ix.members, i, GroupIndex.Members(parts, ix.memberships[i]))
      ensures me in GroupIndex.Members(parts, ix.memberships[i])
    {
      var g := ix.memberships[i];
      assert g in Selected(parts[me]);
      GroupIndex.MembersExact(parts, g, |parts|);
      assert GroupIndex.Holds(ix.offsets, ix.members, i, GroupIndex.Members(parts, g));
    }
    var lists := Lists(parts, groups);
    assert forall i :: 0 <= i < |ix.memberships| ==>
      ix.memberships[i] < |lists| && lists[ix.memberships[i]] == ix.Group(i);
    forall g: nat | g < |lists| && me in lists[g] ensures g in ix.memberships {
      GroupIndex.MembersExact(parts, g, |parts|);
    }
  }

  /** The flat buffers hold, block by block, what the model says: own blocks per membership,
      received blocks where PostPhase1 placed them. */
  ghost predicate BuffersReflect<T>(ins: Instance<seq<T>>, mem: map<Loc, seq<T>>, ix: Index, rank: nat,
                                    sent: seq<T>, vals: seq<T>, i: nat, count: nat)
    requires ix.Valid() && i < |ix.memberships|
  {
    && (i + 1) * count <= |sent| && ins.input(rank, ix.memberships[i]) == BlockOf(sent, i, count)
    && (ix.Handled(i, rank) + |ix.Group(i)| - 1) * count <= |vals|
    && forall pos :: 0 < pos < |ix.Group(i)| ==> ReceivedAt(mem, ix, rank, vals, i, count, pos)
  }

  ghost predicate ReceivedAt<T>(mem: map<Loc, seq<T>>, ix: Index, rank: nat, vals: seq<T>, i: nat, count: nat, pos: nat)
    requires ix.Valid() && i < |ix.memberships| && pos > 0
  {
    && Val(ix.memberships[i], pos) in mem && (ix.Handled(i, rank) + pos) * count <= |vals|
    && mem[Val(ix.memberships[i], pos)] == BlockOf(vals, ix.Handled(i, rank) + pos - 1, count)
  }

  /** The block the loops of phase 2 compute for a rooted group is the one the Reduce step of
      the model computes. */
  lemma WantedIsReduced<T>(ins: Instance<seq<T>>, op: (T, T) -> T, mem: map<Loc, seq<T>>, ix: Index, rank: nat,
                           sent: seq<T>, vals: seq<T>, i: nat, count: nat)
    requires ins.Valid() && ix.Valid() && ix.Reflects(ins.members, rank) && ins.op == Lift(op)
    requires i < |ix.memberships| && ix.Rooted(i, rank)
    requires BuffersReflect(ins, mem, ix, rank, sent, vals, i, count)
    ensures Received(mem, ix.memberships[i], |ix.Group(i)|)
    ensures Reduced(ins, mem, rank, ix.memberships[i]) == Wanted(ix, rank, op, sent, vals, i, count)
  {
    hide BlockOf, ix.Handled, Fold;
    var g := ix.memberships[i];
    var n := |ix.Group(i)| - 1;
    var first := ix.Handled(i, rank);
    forall pos | 0 < pos <= n ensures Val(g, pos) in mem {
      assert ReceivedAt(mem, ix, rank, vals, i, count, pos);
    }
    var blocks := BlocksOf(vals, first, n, count);
    assert ins.members[g] == ix.Group(i) && Received(mem, g, n + 1);
    var stored := ReceivedBlocks(mem, g, n + 1);
    forall j | 0 <= j < n ensures stored[j] == blocks[j] {
      assert ReceivedAt(mem, ix, rank, vals, i, count, j + 1);
      BlocksAt(vals, first, n, count, j);
    }
    assert stored == blocks;
  }

  /** On the communicator at the end of any tower of sub-communicators, whose addresses are the
      world ranks of its members, the collective can finish exactly if every member of a group
      of two or more has the same rank in the communicator and in the world. */
  lemma AllreduceOnTower<B(!new)>(ins: Instance<B>, rounds: seq<seq<bool>>, world: nat, st: State<B>, synchronous: bool)
    requires ins.Valid() && ins.addr == SubCommunicators.TowerMembers(rounds, world) && Init(ins.n, st)
    ensures CanFinish(ins, st, synchronous) <==>
              forall g, m: nat :: 0 <= g < |ins.members| && |ins.members[g]| > 1 && m in ins.members[g] ==>
                m < |ins.addr| && ins.addr[m] == m
  {
    hide CanFinish, Init, SubCommunicators.TowerMembers;
    SubCommunicators.TowerMembersOk(rounds, world);
    AllreduceFinishesIff(ins, st, synchronous);
    if WellAddressed(ins) {
      forall g, m: nat | 0 <= g < |ins.members| && |ins.members[g]| > 1 && m in ins.members[g]
        ensures m < |ins.addr| && ins.addr[m] == m
      {
        assert GroupAddressed(ins.addr, ins.members[g]);
      }
    }
  }

  /** Two processes with world ranks 1 and 2 share one group: their sub-communicator lists
      global ranks where the posts need ranks of the communicator, and allreduce hangs. */
  lemma SubCommunicatorHangs(synchronous: bool, input: (nat, nat) -> int, op: (int, int) -> int, st: State<int>)
    requires Init(2, st)
    ensures var ins := Instance(2, [[0, 1]], [1, 2], input, op);
            ins.Valid() && Ascending(ins.addr) && !CanFinish(ins, st, synchronous)
  {
    hide CanFinish, Init;
    var ins := Instance(2, [[0, 1]], [1, 2], input, op);
    assert ins.members[0] == [0, 1] && ins.addr[ins.members[0][0]] != 0;
    assert !GroupAddressed(ins.addr, ins.members[0]);
    AllreduceFinishesIff(ins, st, synchronous);
  }
}
