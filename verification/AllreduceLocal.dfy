/** The loops of MultiGroupCommunicator::allreduce that run inside one process: counting and
    posting requests, and the in-place reduction over flat buffers. */
module AllreduceLocal {
  import opened Selection
  import opened AllreduceModel

  /** The index reinit built on process p, and the communicator it belongs to. */
  datatype Index = Index(memberships: seq<nat>, offsets: seq<nat>, members: seq<nat>) {
    ghost predicate Valid() {
      && |offsets| == |memberships| + 1
      && (forall i :: 0 <= i < |memberships| ==> Ok(i))
    }

    ghost predicate Ok(i: nat)
      requires i < |memberships| && |offsets| == |memberships| + 1
    { offsets[i] < offsets[i + 1] <= |members| }

    function Group(i: nat): seq<nat>
      requires Valid() && i < |memberships|
    { assert Ok(i); members[offsets[i]..offsets[i + 1]] }

    predicate Rooted(i: nat, rank: nat)
      requires Valid() && i < |memberships|
    { assert Ok(i); Group(i)[0] == rank }

    /** Blocks received for the memberships before i: the block where receivedVals of i starts. */
    function Handled(i: nat, rank: nat): nat
      requires Valid() && i <= |memberships|
    {
      if i == 0 then 0
      else
        assert Ok(i - 1);
        Handled(i - 1, rank) + (if Rooted(i - 1, rank) then |Group(i - 1)| - 1 else 0)
    }

    /** The member lists of the model, for the groups this process belongs to. */
    ghost predicate Reflects(lists: seq<seq<nat>>, rank: nat)
      requires Valid()
    {
      && Ascending(memberships)
      && (forall i :: 0 <= i < |memberships| ==> memberships[i] < |lists| && lists[memberships[i]] == Group(i))
      && (forall g: nat :: g < |lists| && rank in lists[g] ==> g in memberships)
      && (forall i :: 0 <= i < |memberships| ==> rank in Group(i))
    }

    /** The groups before this bound are those of the memberships before i, for this process. */
    function Bound(i: nat): nat
      requires i <= |memberships|
    { if i == 0 then 0 else memberships[i - 1] + 1 }
  }

  /** Groups without the process contribute no posts. */
  lemma {:induction false} SkipGroups<B>(ins: Instance<B>, p: nat, a: nat, b: nat)
    requires ins.Valid() && a <= b <= |ins.members|
    requires forall g :: a <= g < b ==> p !in ins.members[g]
    ensures Posts1(ins, p, a) == Posts1(ins, p, b) && Posts3(ins, p, a) == Posts3(ins, p, b)
  { if a < b { SkipGroups(ins, p, a, b - 1); } }

  /** Between two memberships there is no further group of the process. */
  lemma NoneBetween(lists: seq<seq<nat>>, ix: Index, p: nat, i: nat, h: nat)
    requires ix.Valid() && ix.Reflects(lists, p) && i <= |ix.memberships| && h < |lists|
    requires ix.Bound(i) <= h && (i < |ix.memberships| ==> h < ix.memberships[i])
    ensures p !in lists[h]
  {
    hide ix.Group;
    forall j | 0 <= j < |ix.memberships| ensures ix.memberships[j] != h {
      if j < i { assert ix.memberships[j] < ix.Bound(i); } else { assert h < ix.memberships[i] <= ix.memberships[j]; }
    }
  }

  lemma NextMembership<B>(ins: Instance<B>, ix: Index, p: nat, i: nat)
    requires ins.Valid() && ix.Valid() && ix.Reflects(ins.members, p) && i < |ix.memberships|
    ensures ix.Bound(i) <= ix.memberships[i] < |ins.members|
    ensures var g := ix.memberships[i];
            && ins.members[g] == ix.Group(i) && p in ins.members[g]
            && Posts1(ins, p, ix.Bound(i + 1)) == Posts1(ins, p, ix.Bound(i)) + Ops1(ins.addr, ix.Group(i), p, g)
            && Posts3(ins, p, ix.Bound(i + 1)) == Posts3(ins, p, ix.Bound(i)) + Ops3(ins.addr, ix.Group(i), p, g)
  {
    hide Ops1, Ops3, ix.Reflects, ix.Group, ins.Valid;
    MembershipOf(ins.members, ix, p, i);
    var g := ix.memberships[i];
    forall h | ix.Bound(i) <= h < g ensures p !in ins.members[h] {
      NoneBetween(ins.members, ix, p, i, h);
    }
    SkipGroups(ins, p, ix.Bound(i), g);
  }

  lemma MembershipOf(lists: seq<seq<nat>>, ix: Index, p: nat, i: nat)
    requires ix.Valid() && ix.Reflects(lists, p) && i < |ix.memberships|
    ensures ix.Bound(i) <= ix.memberships[i] < |lists|
    ensures lists[ix.memberships[i]] == ix.Group(i) && p in ix.Group(i)
  {}

  lemma LastMembership<B>(ins: Instance<B>, ix: Index, p: nat)
    requires ins.Valid() && ix.Valid() && ix.Reflects(ins.members, p)
    ensures ix.Bound(|ix.memberships|) <= |ins.members|
    ensures Posts1(ins, p, ix.Bound(|ix.memberships|)) == Posts1(ins, p, |ins.members|)
    ensures Posts3(ins, p, ix.Bound(|ix.memberships|)) == Posts3(ins, p, |ins.members|)
  {
    hide Posts1, Posts3, ix.Reflects, ix.Group;
    var n := |ix.memberships|;
    if n > 0 { MembershipOf(ins.members, ix, p, n - 1); }
    forall h | ix.Bound(n) <= h < |ins.members| ensures p !in ins.members[h] {
      NoneBetween(ins.members, ix, p, n, h);
    }
    SkipGroups(ins, p, ix.Bound(n), |ins.members|);
  }

  // ---- counting and posting -------------------------------------------------------

  /** Sends of phase 1 for the memberships before i. */
  function SendsBefore(ix: Index, rank: nat, i: nat): nat
    requires ix.Valid() && i <= |ix.memberships|
  {
    if i == 0 then 0
    else SendsBefore(ix, rank, i - 1) + (if |ix.Group(i - 1)| > 1 && !ix.Rooted(i - 1, rank) then 1 else 0)
  }

  method CountRequests(ix: Index, rank: nat) returns (numSends: nat, numRecvs: nat)
    requires ix.Valid()
    ensures numSends == SendsBefore(ix, rank, |ix.memberships|)
    ensures numRecvs == ix.Handled(|ix.memberships|, rank)
  {
    numSends, numRecvs := 0, 0;
    for imem := 0 to |ix.memberships|
      invariant numSends == SendsBefore(ix, rank, imem) && numRecvs == ix.Handled(imem, rank)
    {
      assert ix.Ok(imem);
      var o := ix.offsets[imem];
      var s := ix.offsets[imem + 1] - o;
      if s <= 1 { continue; }
      if ix.members[o] == rank {
        numRecvs := numRecvs + (s - 1);
      } else {
        numSends := numSends + 1;
      }
    }
  }

  // ---- the counters are the numbers of posts ------------------------------------------------------

  function NumSends(ops: seq<Op>): nat {
    if |ops| == 0 then 0 else NumSends(ops[..|ops| - 1]) + (if IsSend(ops[|ops| - 1]) then 1 else 0)
  }

  function NumRecvs(ops: seq<Op>): nat {
    if |ops| == 0 then 0 else NumRecvs(ops[..|ops| - 1]) + (if IsRecv(ops[|ops| - 1]) then 1 else 0)
  }

  lemma {:induction false} NumConcat(a: seq<Op>, b: seq<Op>)
    ensures NumSends(a + b) == NumSends(a) + NumSends(b) && NumRecvs(a + b) == NumRecvs(a) + NumRecvs(b)
  {
    if |b| == 0 {
      assert a + b == a;
    } else {
      var n := |b| - 1;
      NumConcat(a, b[..n]);
      assert (a + b)[..|a| + n] == a + b[..n];
    }
  }

  lemma NumOne(op: Op)
    ensures NumSends([op]) == (if IsSend(op) then 1 else 0) && NumRecvs([op]) == if IsRecv(op) then 1 else 0
  { assert [op][..0] == []; }

  lemma {:induction false} NumRoot(addr: seq<nat>, ms: seq<nat>, g: nat, n: nat)
    requires 0 < n <= |ms| && forall i :: 0 <= i < |ms| ==> ms[i] < |addr|
    ensures NumRecvs(RootRecvs(addr, ms, g, n)) == n - 1 && NumSends(RootRecvs(addr, ms, g, n)) == 0
    ensures NumSends(RootSends(addr, ms, g, n)) == n - 1 && NumRecvs(RootSends(addr, ms, g, n)) == 0
  {
    if n > 1 {
      NumRoot(addr, ms, g, n - 1);
      NumConcat(RootRecvs(addr, ms, g, n - 1), [Recv(addr[ms[n - 1]], g, n - 1)]);
      NumOne(Recv(addr[ms[n - 1]], g, n - 1));
      NumConcat(RootSends(addr, ms, g, n - 1), [SendBack(addr[ms[n - 1]], g)]);
      NumOne(SendBack(addr[ms[n - 1]], g));
    }
  }

  lemma NumGroup(addr: seq<nat>, ms: seq<nat>, p: nat, g: nat)
    requires p in ms && forall i :: 0 <= i < |ms| ==> ms[i] < |addr|
    ensures var sends := if |ms| > 1 && ms[0] != p then 1 else 0;
            var recvs := if ms[0] == p then |ms| - 1 else 0;
            && NumSends(Ops1(addr, ms, p, g)) == NumRecvs(Ops3(addr, ms, p, g)) == sends
            && NumRecvs(Ops1(addr, ms, p, g)) == NumSends(Ops3(addr, ms, p, g)) == recvs
  {
    hide RootRecvs, RootSends;
    NumRoot(addr, ms, g, |ms|);
    NumOne(Send(addr[ms[0]], g));
    NumOne(RecvBack(addr[ms[0]], g));
  }

  /** The numbers that are counted before anything is posted, by which the vectors of requests are
      sized, are those of the sends and receives of phase 1, and of phase 3 the other way round. */
  lemma {:induction false} CountsArePosts<B>(ins: Instance<B>, ix: Index, p: nat, i: nat)
    requires ins.Valid() && ix.Valid() && ix.Reflects(ins.members, p) && i <= |ix.memberships|
    ensures ix.Bound(i) <= |ins.members|
    ensures NumSends(Posts1(ins, p, ix.Bound(i))) == NumRecvs(Posts3(ins, p, ix.Bound(i))) == SendsBefore(ix, p, i)
    ensures NumRecvs(Posts1(ins, p, ix.Bound(i))) == NumSends(Posts3(ins, p, ix.Bound(i))) == ix.Handled(i, p)
  {
    hide Ops1, Ops3, NumSends, NumRecvs, ix.Reflects;
    if i == 0 {
      NoPosts(ins, p);
    } else {
      var k := i - 1;
      NextMembership(ins, ix, p, k);
      CountsArePosts(ins, ix, p, k);
      assert ix.Ok(k);
      NumGroup(ins.addr, ix.Group(k), p, ix.memberships[k]);
      NumConcat(Posts1(ins, p, ix.Bound(k)), Ops1(ins.addr, ix.Group(k), p, ix.memberships[k]));
      NumConcat(Posts3(ins, p, ix.Bound(k)), Ops3(ins.addr, ix.Group(k), p, ix.memberships[k]));
    }
  }

  lemma NoPosts<B>(ins: Instance<B>, p: nat)
    requires ins.Valid()
    ensures NumSends(Posts1(ins, p, 0)) == 0 == NumRecvs(Posts1(ins, p, 0))
    ensures NumSends(Posts3(ins, p, 0)) == 0 == NumRecvs(Posts3(ins, p, 0))
  {}

  /** Block b of a buffer serves this post: a receive of phase 1 fills the block of
      receivedVals that the reduction of its group will read at this place, the other posts
      use the block of the membership. */
  ghost predicate BlockFits(ix: Index, rank: nat, op: Op, b: nat)
    requires ix.Valid()
  {
    exists i :: 0 <= i < |ix.memberships| && FitsMembership(ix, rank, op, b, i)
  }

  ghost predicate FitsMembership(ix: Index, rank: nat, op: Op, b: nat, i: nat)
    requires ix.Valid() && i < |ix.memberships|
  {
    && !op.Wait? && !op.Reduce? && op.grp == ix.memberships[i]
    && (op.Recv? ==> b == ix.Handled(i, rank) + op.pos - 1)
    && (!op.Recv? ==> b == i)
  }

  ghost predicate Fit(ix: Index, rank: nat, ops: seq<Op>, blocks: seq<nat>)
    requires ix.Valid()
  { |ops| == |blocks| && forall k :: 0 <= k < |ops| ==> BlockFits(ix, rank, ops[k], blocks[k]) }

  lemma FitConcat(ix: Index, rank: nat, ops: seq<Op>, blocks: seq<nat>, op: Op, b: nat, i: nat)
    requires ix.Valid() && Fit(ix, rank, ops, blocks) && i < |ix.memberships| && FitsMembership(ix, rank, op, b, i)
    ensures Fit(ix, rank, ops + [op], blocks + [b])
  {
    hide FitsMembership;
    assert BlockFits(ix, rank, op, b);
  }

  /** The inner loop of a root: one receive per further member, into consecutive blocks. */
  method PostRootRecvs(ix: Index, rank: nat, addr: seq<nat>, imem: nat, ops0: seq<Op>, blocks0: seq<nat>,
                       recvCount0: nat)
      returns (ops: seq<Op>, blocks: seq<nat>, recvCount: nat)
    requires ix.Valid() && imem < |ix.memberships| && recvCount0 == ix.Handled(imem, rank)
    requires forall i :: 0 <= i < |ix.Group(imem)| ==> ix.Group(imem)[i] < |addr|
    requires Fit(ix, rank, ops0, blocks0)
    ensures ops == ops0 + RootRecvs(addr, ix.Group(imem), ix.memberships[imem], |ix.Group(imem)|)
    ensures Fit(ix, rank, ops, blocks) && recvCount == recvCount0 + |ix.Group(imem)| - 1
  {
    hide Fit;
    assert ix.Ok(imem);
    var g, o := ix.memberships[imem], ix.offsets[imem];
    var s := ix.offsets[imem + 1] - o;
    ops, blocks, recvCount := ops0, blocks0, recvCount0;
    for i := 1 to s
      invariant recvCount == recvCount0 + i - 1 && Fit(ix, rank, ops, blocks)
      invariant ops == ops0 + RootRecvs(addr, ix.Group(imem), g, i)
    {
      assert ix.Group(imem)[i] == ix.members[o + i];
      var op := Recv(addr[ix.members[o + i]], g, i);
      FitConcat(ix, rank, ops, blocks, op, recvCount, imem);
      ops, blocks, recvCount := ops + [op], blocks + [recvCount], recvCount + 1;
    }
  }

  /** The posts of phase 1 are those of the model, and the counters end where the request
      vectors do, so neither UG_COND_THROW fires. */
  method PostPhase1<B>(ghost ins: Instance<B>, ix: Index, rank: nat, addr: seq<nat>, numSends: nat, numRecvs: nat)
      returns (ops: seq<Op>, blocks: seq<nat>, sendCount: nat, recvCount: nat)
    requires ins.Valid() && ix.Valid() && ix.Reflects(ins.members, rank) && addr == ins.addr
    requires numSends == SendsBefore(ix, rank, |ix.memberships|) && numRecvs == ix.Handled(|ix.memberships|, rank)
    ensures ops == Posts1(ins, rank, |ins.members|) && Fit(ix, rank, ops, blocks)
    ensures sendCount == numSends && recvCount == numRecvs
  {
    hide Fit, ix.Reflects, Posts1;
    ops, blocks, sendCount, recvCount := [], [], 0, 0;
    PostsStart(ins, ix, rank);
    for imem := 0 to |ix.memberships|
      invariant ix.Bound(imem) <= |ins.members| && ops == Posts1(ins, rank, ix.Bound(imem))
      invariant Fit(ix, rank, ops, blocks)
      invariant sendCount == SendsBefore(ix, rank, imem) && recvCount == ix.Handled(imem, rank)
    {
      NextMembership(ins, ix, rank, imem);
      assert ix.Ok(imem);
      var g, o := ix.memberships[imem], ix.offsets[imem];
      var s := ix.offsets[imem + 1] - o;
      if s == 1 { continue; }
      if ix.members[o] == rank {
        ops, blocks, recvCount := PostRootRecvs(ix, rank, addr, imem, ops, blocks, recvCount);
      } else {
        var op := Send(addr[ix.members[o]], g);
        FitConcat(ix, rank, ops, blocks, op, imem, imem);
        ops, blocks, sendCount := ops + [op], blocks + [imem], sendCount + 1;
      }
    }
    LastMembership(ins, ix, rank);
  }

  lemma PostsStart<B>(ins: Instance<B>, ix: Index, rank: nat)
    requires ins.Valid() && ix.Valid()
    ensures Posts1(ins, rank, 0) == [] == Posts3(ins, rank, 0) && Fit(ix, rank, [], [])
  {}

  method PostRootSends(ix: Index, rank: nat, addr: seq<nat>, imem: nat, ops0: seq<Op>, blocks0: seq<nat>,
                       sendCount0: nat)
      returns (ops: seq<Op>, blocks: seq<nat>, sendCount: nat)
    requires ix.Valid() && imem < |ix.memberships|
    requires forall i :: 0 <= i < |ix.Group(imem)| ==> ix.Group(imem)[i] < |addr|
    requires Fit(ix, rank, ops0, blocks0)
    ensures ops == ops0 + RootSends(addr, ix.Group(imem), ix.memberships[imem], |ix.Group(imem)|)
    ensures Fit(ix, rank, ops, blocks) && sendCount == sendCount0 + |ix.Group(imem)| - 1
  {
    hide Fit;
    assert ix.Ok(imem);
    var g, o := ix.memberships[imem], ix.offsets[imem];
    var s := ix.offsets[imem + 1] - o;
    ops, blocks, sendCount := ops0, blocks0, sendCount0;
    for i := 1 to s
      invariant sendCount == sendCount0 + i - 1 && Fit(ix, rank, ops, blocks)
      invariant ops == ops0 + RootSends(addr, ix.Group(imem), g, i)
    {
      assert ix.Group(imem)[i] == ix.members[o + i];
      var op := SendBack(addr[ix.members[o + i]], g);
      FitConcat(ix, rank, ops, blocks, op, imem, imem);
      ops, blocks, sendCount := ops + [op], blocks + [imem], sendCount + 1;
    }
  }

  /** Phase 3 answers exactly the posts of phase 1: as many sends as there were receives and
      the other way round. */
  method PostPhase3<B>(ghost ins: Instance<B>, ix: Index, rank: nat, addr: seq<nat>, numSendBack: nat, numRecvBack: nat)
      returns (ops: seq<Op>, blocks: seq<nat>, sendCount: nat, recvCount: nat)
    requires ins.Valid() && ix.Valid() && ix.Reflects(ins.members, rank) && addr == ins.addr
    requires numRecvBack == SendsBefore(ix, rank, |ix.memberships|) && numSendBack == ix.Handled(|ix.memberships|, rank)
    ensures ops == Posts3(ins, rank, |ins.members|) && Fit(ix, rank, ops, blocks)
    ensures sendCount == numSendBack && recvCount == numRecvBack
  {
    hide Fit, ix.Reflects, Posts3;
    ops, blocks, sendCount, recvCount := [], [], 0, 0;
    PostsStart(ins, ix, rank);
    for imem := 0 to |ix.memberships|
      invariant ix.Bound(imem) <= |ins.members| && ops == Posts3(ins, rank, ix.Bound(imem))
      invariant Fit(ix, rank, ops, blocks)
      invariant recvCount == SendsBefore(ix, rank, imem) && sendCount == ix.Handled(imem, rank)
    {
      NextMembership(ins, ix, rank, imem);
      assert ix.Ok(imem);
      var g, o := ix.memberships[imem], ix.offsets[imem];
      var s := ix.offsets[imem + 1] - o;
      if s == 1 { continue; }
      if ix.members[o] == rank {
        ops, blocks, sendCount := PostRootSends(ix, rank, addr, imem, ops, blocks, sendCount);
      } else {
        var op := RecvBack(addr[ix.members[o]], g);
        FitConcat(ix, rank, ops, blocks, op, imem, imem);
        ops, blocks, recvCount := ops + [op], blocks + [imem], recvCount + 1;
      }
    }
    LastMembership(ins, ix, rank);
  }
}
