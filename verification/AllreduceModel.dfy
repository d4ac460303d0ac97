/** MultiGroupCommunicator::allreduce as a distributed program: every process runs
    the posts of phase 1, a wait, the local reduction, the posts of phase 3 and a
    final wait, over one FIFO channel per ordered pair of processes. */
module AllreduceModel {
  import opened Selection

  /** One collective call. members[g] is the member list of group g in ascending rank, as
      every member of g computes it in reinit; addr is get_proc_id, the rank a post really
      names; input(p, g) is the block process p contributes to group g; op reduces two blocks. */
  datatype Instance<!B> = Instance(
    n: nat, members: seq<seq<nat>>, addr: seq<nat>, input: (nat, nat) -> B, op: (B, B) -> B)
  {
    ghost predicate Valid() {
      && |addr| == n
      && (forall g :: 0 <= g < |members| ==> ValidGroup(members[g], n))
    }

    predicate Member(p: nat, g: nat) { g < |members| && p in members[g] }

    predicate Root(p: nat, g: nat) { g < |members| && |members[g]| > 0 && members[g][0] == p }

    /** What every member of g has to hold in the end: the blocks of the members folded from
        the left in ascending rank, starting from the block of the root. */
    function Result(g: nat): B
      requires g < |members| && |members[g]| > 0
    { Fold(op, input(members[g][0], g), Contributions(g)) }

    function Contributions(g: nat): (c: seq<B>)
      requires g < |members| && |members[g]| > 0
      ensures |c| == |members[g]| - 1
    { seq(|members[g]| - 1, i requires 0 <= i < |members[g]| - 1 => input(members[g][i + 1], g)) }
  }

  ghost predicate ValidGroup(ms: seq<nat>, n: nat) {
    Ascending(ms) && forall i :: 0 <= i < |ms| ==> ms[i] < n
  }

  /** The reducer applied from the left, in list order. */
  function Fold<B>(op: (B, B) -> B, init: B, rest: seq<B>): B {
    if |rest| == 0 then init
    else op(Fold(op, init, rest[..|rest| - 1]), rest[|rest| - 1])
  }

  /** The results that accumulate in the block of group g, one per member: the block of the root,
      then each time the reducer of what is there and of the block of the next member. */
  ghost predicate PartialResults<B>(ins: Instance<B>, g: nat, acc: seq<B>)
    requires g < |ins.members| && |ins.members[g]| > 0
  {
    var ms := ins.members[g];
    && |acc| == |ms| && acc[0] == ins.input(ms[0], g)
    && forall i :: 0 < i < |acc| ==> acc[i] == ins.op(acc[i - 1], ins.input(ms[i], g))
  }

  /** What accumulates when rest is folded into init. */
  ghost predicate Accumulates<B>(op: (B, B) -> B, init: B, rest: seq<B>, acc: seq<B>) {
    && |acc| == |rest| + 1 && acc[0] == init
    && forall i :: 0 < i < |acc| ==> acc[i] == op(acc[i - 1], rest[i - 1])
  }

  /** A fold is the last of its partial results. */
  lemma {:induction false} FoldAccumulates<B>(op: (B, B) -> B, init: B, rest: seq<B>) returns (acc: seq<B>)
    ensures Accumulates(op, init, rest, acc) && Fold(op, init, rest) == acc[|acc| - 1]
  {
    if |rest| == 0 {
      acc := [init];
    } else {
      var n := |rest| - 1;
      acc := FoldAccumulates(op, init, rest[..n]);
      acc := acc + [op(acc[n], rest[n])];
    }
  }

  /** The result of a group is the last of its partial results. */
  lemma ResultAccumulates<B>(ins: Instance<B>, g: nat) returns (acc: seq<B>)
    requires g < |ins.members| && |ins.members[g]| > 0
    ensures PartialResults(ins, g, acc) && ins.Result(g) == acc[|acc| - 1]
  {
    hide Fold;
    acc := FoldAccumulates(ins.op, ins.input(ins.members[g][0], g), ins.Contributions(g));
  }

  /** A group of one keeps its block, a group of two holds the reducer of both. */
  lemma SmallGroups<B>(ins: Instance<B>, g: nat)
    requires g < |ins.members|
    ensures |ins.members[g]| == 1 ==> ins.Result(g) == ins.input(ins.members[g][0], g)
    ensures |ins.members[g]| == 2 ==>
              ins.Result(g) == ins.op(ins.input(ins.members[g][0], g), ins.input(ins.members[g][1], g))
  {
    hide Fold;
    if |ins.members[g]| > 0 { var acc := ResultAccumulates(ins, g); }
  }

  /** One statement of the program of a process. grp is the group, pos the place of the
      sender in its member list. */
  datatype Op =
    | Send(dst: nat, grp: nat)
    | Recv(src: nat, grp: nat, pos: nat)
    | Wait
    | Reduce
    | SendBack(dst: nat, grp: nat)
    | RecvBack(src: nat, grp: nat)

  predicate IsSend(op: Op) { op.Send? || op.SendBack? }
  predicate IsRecv(op: Op) { op.Recv? || op.RecvBack? }

  /** The receives a root posts for the members at places 1 .. n-1 of its group. */
  function RootRecvs(addr: seq<nat>, ms: seq<nat>, g: nat, n: nat): seq<Op>
    requires n <= |ms| && forall i :: 0 <= i < |ms| ==> ms[i] < |addr|
  { if n <= 1 then [] else RootRecvs(addr, ms, g, n - 1) + [Recv(addr[ms[n - 1]], g, n - 1)] }

  /** The sends by which the root answers them. */
  function RootSends(addr: seq<nat>, ms: seq<nat>, g: nat, n: nat): seq<Op>
    requires n <= |ms| && forall i :: 0 <= i < |ms| ==> ms[i] < |addr|
  { if n <= 1 then [] else RootSends(addr, ms, g, n - 1) + [SendBack(addr[ms[n - 1]], g)] }

  /** What a process posts for one group in phase 1. */
  function Ops1(addr: seq<nat>, ms: seq<nat>, p: nat, g: nat): seq<Op>
    requires forall i :: 0 <= i < |ms| ==> ms[i] < |addr|
  {
    if p !in ms || |ms| == 1 then []
    else if ms[0] == p then RootRecvs(addr, ms, g, |ms|)
    else [Send(addr[ms[0]], g)]
  }

  /** What it posts for that group in phase 3. */
  function Ops3(addr: seq<nat>, ms: seq<nat>, p: nat, g: nat): seq<Op>
    requires forall i :: 0 <= i < |ms| ==> ms[i] < |addr|
  {
    if p !in ms || |ms| == 1 then []
    else if ms[0] == p then RootSends(addr, ms, g, |ms|)
    else [RecvBack(addr[ms[0]], g)]
  }

  /** Posts of phase 1 (then 3) for the groups before n, in ascending group order. */
  function Posts1<B>(ins: Instance<B>, p: nat, n: nat): seq<Op>
    requires ins.Valid() && n <= |ins.members|
  { if n == 0 then [] else Posts1(ins, p, n - 1) + Ops1(ins.addr, ins.members[n - 1], p, n - 1) }

  function Posts3<B>(ins: Instance<B>, p: nat, n: nat): seq<Op>
    requires ins.Valid() && n <= |ins.members|
  { if n == 0 then [] else Posts3(ins, p, n - 1) + Ops3(ins.addr, ins.members[n - 1], p, n - 1) }

  function Code<B>(ins: Instance<B>, p: nat): seq<Op>
    requires ins.Valid()
  { Posts1(ins, p, |ins.members|) + [Wait, Reduce] + Posts3(ins, p, |ins.members|) + [Wait] }

  /** Everything ever sent, the receives posted so far, and how many of them matched.
      MPI's non-overtaking rule: the k-th message meets the k-th posted receive. */
  datatype Channel<B> = Channel(sent: seq<B>, posted: seq<Op>, done: nat)

  /** A block of receivedVals, or the block of a group in recvBuf. */
  datatype Loc = Val(grp: nat, pos: nat) | Buf(grp: nat)

  datatype State<B> = State(
    pc: seq<nat>,
    chan: seq<seq<Channel<B>>>,   // chan[source][destination]
    mem: seq<map<Loc, B>>)        // receive buffers of each process

  ghost predicate Shape<B>(n: nat, st: State<B>) {
    && |st.pc| == |st.chan| == |st.mem| == n
    && (forall s :: 0 <= s < n ==> |st.chan[s]| == n)
  }

  /** Nothing posted; the receive buffers hold whatever the caller left in them. */
  ghost predicate Init<B>(n: nat, st: State<B>) {
    && Shape(n, st)
    && (forall p :: 0 <= p < n ==> st.pc[p] == 0)
    && (forall s, d :: 0 <= s < n && 0 <= d < n ==> st.chan[s][d] == Channel([], [], 0))
  }

  ghost predicate Final<B>(ins: Instance<B>, st: State<B>)
    requires ins.Valid() && Shape(ins.n, st)
  { forall p :: 0 <= p < ins.n ==> st.pc[p] == |Code(ins, p)| }

  // ---- steps --------------------------------------------------------------

  ghost predicate Current<B>(ins: Instance<B>, st: State<B>, p: nat, op: Op)
    requires ins.Valid() && Shape(ins.n, st)
  { p < ins.n && st.pc[p] < |Code(ins, p)| && Code(ins, p)[st.pc[p]] == op }

  function SetChan<B>(st: State<B>, s: nat, d: nat, c: Channel<B>): State<B>
    requires s < |st.chan| && d < |st.chan[s]|
  { st.(chan := st.chan[s := st.chan[s][d := c]]) }

  function Advance<B>(st: State<B>, p: nat): State<B>
    requires p < |st.pc|
  { st.(pc := st.pc[p := st.pc[p] + 1]) }

  /** The block in the send buffer of op at the moment op is posted. */
  ghost function Payload<B>(ins: Instance<B>, mem: map<Loc, B>, p: nat, op: Op): B
    requires Ready(mem, op)
  { if op.Send? then ins.input(p, op.grp) else mem[Buf(op.grp)] }

  ghost predicate Ready<B>(mem: map<Loc, B>, op: Op) { op.Send? || (op.SendBack? && Buf(op.grp) in mem) }

  /** Where a receive puts its block. */
  function Target(op: Op): Loc
    requires IsRecv(op)
  { if op.Recv? then Val(op.grp, op.pos) else Buf(op.grp) }

  /** MPI_Isend: only possible if the address is a rank of the communicator. */
  ghost predicate PostSend<B>(ins: Instance<B>, st: State<B>, st': State<B>, p: nat, op: Op)
    requires ins.Valid() && Shape(ins.n, st)
  {
    && Current(ins, st, p, op) && Ready(st.mem[p], op) && op.dst < ins.n
    && var c := st.chan[p][op.dst];
       st' == SetChan(Advance(st, p), p, op.dst, c.(sent := c.sent + [Payload(ins, st.mem[p], p, op)]))
  }

  /** MPI_Irecv. */
  ghost predicate PostRecv<B>(ins: Instance<B>, st: State<B>, st': State<B>, p: nat, op: Op)
    requires ins.Valid() && Shape(ins.n, st)
  {
    && Current(ins, st, p, op) && IsRecv(op) && op.src < ins.n
    && var c := st.chan[op.src][p];
       st' == SetChan(Advance(st, p), op.src, p, c.(posted := c.posted + [op]))
  }

  /** Waitall on both request lists. Under eager buffering a send request completes at
      once; a synchronous send completes only when its message was received. */
  ghost predicate PassWait<B>(ins: Instance<B>, st: State<B>, st': State<B>, p: nat, synchronous: bool)
    requires ins.Valid() && Shape(ins.n, st)
  {
    && Current(ins, st, p, Wait)
    && (forall s :: 0 <= s < ins.n ==> st.chan[s][p].done == |st.chan[s][p].posted|)
    && (synchronous ==> forall d :: 0 <= d < ins.n ==> st.chan[p][d].done == |st.chan[p][d].sent|)
    && st' == Advance(st, p)
  }

  /** The blocks received for group g lie in receivedVals. */
  ghost predicate Received<B>(mem: map<Loc, B>, g: nat, len: nat) {
    forall i :: 0 < i < len ==> Val(g, i) in mem
  }

  /** What the local reduction leaves for a group rooted at p. */
  ghost function Reduced<B>(ins: Instance<B>, mem: map<Loc, B>, p: nat, g: nat): B
    requires g < |ins.members| && |ins.members[g]| > 0 && Received(mem, g, |ins.members[g]|)
  { Fold(ins.op, ins.input(p, g), ReceivedBlocks(mem, g, |ins.members[g]|)) }

  ghost function ReceivedBlocks<B>(mem: map<Loc, B>, g: nat, len: nat): (r: seq<B>)
    requires len > 0 && Received(mem, g, len)
    ensures |r| == len - 1
  { seq(len - 1, i requires 0 <= i < len - 1 => mem[Val(g, i + 1)]) }

  /** Phase 2 writes the blocks of exactly the groups p is the root of. */
  ghost predicate AfterReduce<B>(ins: Instance<B>, mem: map<Loc, B>, mem': map<Loc, B>, p: nat) {
    && (forall g: nat :: ins.Root(p, g) ==>
          && Received(mem, g, |ins.members[g]|)
          && Buf(g) in mem' && mem'[Buf(g)] == Reduced(ins, mem, p, g))
    && (forall l :: l in mem && !(l.Buf? && ins.Root(p, l.grp)) ==> l in mem' && mem'[l] == mem[l])
  }

  ghost predicate DoReduce<B>(ins: Instance<B>, st: State<B>, st': State<B>, p: nat)
    requires ins.Valid() && Shape(ins.n, st)
  {
    && Current(ins, st, p, Reduce) && p < |st'.mem|
    && AfterReduce(ins, st.mem[p], st'.mem[p], p)
    && st' == Advance(st, p).(mem := st.mem[p := st'.mem[p]])
  }

  /** The oldest unmatched message of a channel meets the oldest unmatched receive. */
  ghost predicate Deliver<B>(ins: Instance<B>, st: State<B>, st': State<B>, s: nat, d: nat)
    requires ins.Valid() && Shape(ins.n, st)
  {
    && s < ins.n && d < ins.n
    && var c := st.chan[s][d];
    && c.done < |c.sent| && c.done < |c.posted| && IsRecv(c.posted[c.done])
    && st' == SetChan(st, s, d, c.(done := c.done + 1))
                .(mem := st.mem[d := st.mem[d][Target(c.posted[c.done]) := c.sent[c.done]]])
  }

  ghost predicate Step<B>(ins: Instance<B>, st: State<B>, st': State<B>, synchronous: bool)
    requires ins.Valid() && Shape(ins.n, st)
  {
    || (exists p: nat, op :: PostSend(ins, st, st', p, op))
    || (exists p: nat, op :: PostRecv(ins, st, st', p, op))
    || (exists p: nat :: PassWait(ins, st, st', p, synchronous))
    || (exists p: nat :: DoReduce(ins, st, st', p))
    || (exists s: nat, d: nat :: Deliver(ins, st, st', s, d))
  }
}
