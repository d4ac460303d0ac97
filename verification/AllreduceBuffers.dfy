/** allreduce on the buffers the processes really have. A post names a block of sendBuf,
    receivedVals or recvBuf, a message is copied out of one block and into another, and phase 2
    reduces recvBuf in place. Every run of this program is mirrored, step by step, by a run of the
    collective in AllreduceModel, so what is proved there holds for the entries of recvBuf. */
module AllreduceBuffers {
  import opened AllreduceModel
  import opened AllreduceMatching
  import opened AllreduceLocal
  import opened AllreduceReduce
  import opened AllreduceSafety
  import opened AllreduceRuns
  import opened AllreduceRefinement

  /** What every process has when the call starts: the index of reinit and its sendBuf, with
      count entries for each membership. */
  datatype Setup<!T> = Setup(
    ins: Instance<seq<T>>, index: seq<Index>, sent: seq<seq<T>>, count: nat, op: (T, T) -> T)
  {
    ghost predicate Valid() {
      && ins.Valid() && ins.op == Lift(op) && |index| == |sent| == ins.n
      && forall p :: 0 <= p < ins.n ==> Prepared(p)
    }

    ghost predicate Prepared(p: nat)
      requires ins.Valid() && p < |index| && p < |sent|
    {
      && index[p].Valid() && index[p].Reflects(ins.members, p)
      && |sent[p]| == |index[p].memberships| * count
      && forall i :: 0 <= i < |index[p].memberships| ==> Contributes(p, i)
    }

    /** The index of process p. */
    ghost function Ix(p: nat): (ix: Index)
      requires Valid() && p < ins.n
      ensures ix.Valid() && ix.Reflects(ins.members, p) && |sent[p]| == |ix.memberships| * count
      ensures ix == index[p]
    { assert Prepared(p); index[p] }

    ghost predicate Contributes(p: nat, i: nat)
      requires p < |index| && p < |sent| && i < |index[p].memberships|
    {
      (i + 1) * count <= |sent[p]| && ins.input(p, index[p].memberships[i]) == BlockOf(sent[p], i, count)
    }
  }

  /** receivedVals and recvBuf of one process. */
  datatype Flat<T> = Flat(vals: seq<T>, buf: seq<T>)

  datatype FlatState<T> = FlatState(
    pc: seq<nat>, chan: seq<seq<Channel<seq<T>>>>, flat: seq<Flat<T>>)

  ghost predicate FlatShape<T>(n: nat, fs: FlatState<T>) {
    |fs.pc| == |fs.chan| == |fs.flat| == n && forall s :: 0 <= s < n ==> |fs.chan[s]| == n
  }

  /** Copying v over the entries from block b on, never past the end of the buffer. */
  function Put<T>(s: seq<T>, b: nat, v: seq<T>, count: nat): (r: seq<T>)
    ensures |r| == |s|
  {
    seq(|s|, k requires 0 <= k < |s| => if b * count <= k < b * count + |v| then v[k - b * count] else s[k])
  }

  /** The entries of block b, as far as there are any. */
  function Taken<T>(s: seq<T>, b: nat, count: nat): seq<T> {
    if (b + 1) * count <= |s| then BlockOf(s, b, count) else []
  }

  /** A receive of phase 1 writes into receivedVals, one of phase 3 into recvBuf. */
  function Stored<T>(f: Flat<T>, op: Op, b: nat, v: seq<T>, count: nat): Flat<T> {
    if op.Recv? then f.(vals := Put(f.vals, b, v, count)) else f.(buf := Put(f.buf, b, v, count))
  }

  // ---- steps -----------------------------------------------------------------------

  /** The state with memories of the model in place of the buffers. */
  function View<T>(fs: FlatState<T>, mems: seq<map<Loc, seq<T>>>): State<seq<T>> { State(fs.pc, fs.chan, mems) }

  ghost predicate Next<T>(su: Setup<T>, fs: FlatState<T>, p: nat, op: Op)
    requires su.Valid() && FlatShape(su.ins.n, fs)
  { p < su.ins.n && fs.pc[p] < |Code(su.ins, p)| && Code(su.ins, p)[fs.pc[p]] == op }

  function Advanced<T>(fs: FlatState<T>, p: nat): FlatState<T>
    requires p < |fs.pc|
  { fs.(pc := fs.pc[p := fs.pc[p] + 1]) }

  function WithChan<T>(fs: FlatState<T>, s: nat, d: nat, c: Channel<seq<T>>): FlatState<T>
    requires s < |fs.chan| && d < |fs.chan[s]|
  { fs.(chan := fs.chan[s := fs.chan[s][d := c]]) }

  /** Phase 1 sends from sendBuf, phase 3 from recvBuf; both from the block of membership i. */
  ghost predicate FlatSend<T>(su: Setup<T>, fs: FlatState<T>, fs': FlatState<T>, p: nat, op: Op, i: nat)
    requires su.Valid() && FlatShape(su.ins.n, fs)
  {
    && Next(su, fs, p, op) && IsSend(op) && op.dst < su.ins.n
    && i < |su.Ix(p).memberships| && FitsMembership(su.Ix(p), p, op, i, i)
    && var c := fs.chan[p][op.dst];
       var v := Taken(if op.Send? then su.sent[p] else fs.flat[p].buf, i, su.count);
       fs' == WithChan(Advanced(fs, p), p, op.dst, c.(sent := c.sent + [v]))
  }

  ghost predicate FlatRecv<T>(su: Setup<T>, fs: FlatState<T>, fs': FlatState<T>, p: nat, op: Op)
    requires su.Valid() && FlatShape(su.ins.n, fs)
  {
    && Next(su, fs, p, op) && IsRecv(op) && op.src < su.ins.n
    && var c := fs.chan[op.src][p];
       fs' == WithChan(Advanced(fs, p), op.src, p, c.(posted := c.posted + [op]))
  }

  ghost predicate FlatWait<T>(su: Setup<T>, fs: FlatState<T>, fs': FlatState<T>, p: nat, synchronous: bool)
    requires su.Valid() && FlatShape(su.ins.n, fs)
  {
    && Next(su, fs, p, Wait)
    && (forall s :: 0 <= s < su.ins.n ==> fs.chan[s][p].done == |fs.chan[s][p].posted|)
    && (synchronous ==> forall d :: 0 <= d < su.ins.n ==> fs.chan[p][d].done == |fs.chan[p][d].sent|)
    && fs' == Advanced(fs, p)
  }

  /** What ReduceLocal leaves in recvBuf. */
  ghost predicate FlatReduce<T>(su: Setup<T>, fs: FlatState<T>, fs': FlatState<T>, p: nat)
    requires su.Valid() && FlatShape(su.ins.n, fs)
  {
    && Next(su, fs, p, Reduce) && |fs'.flat| == |fs.flat|
    && var before := fs.flat[p];
       var after := fs'.flat[p];
       && |after.buf| == |before.buf|
       && (forall i :: 0 <= i < |su.Ix(p).memberships| ==>
             GroupReduced(su.Ix(p), p, su.op, su.sent[p], before.vals, before.buf, after.buf, su.count, i))
       && fs' == Advanced(fs, p).(flat := fs.flat[p := before.(buf := after.buf)])
  }

  /** The oldest message of a channel is copied into the block its receive was posted with. */
  ghost predicate FlatDeliver<T>(su: Setup<T>, fs: FlatState<T>, fs': FlatState<T>, s: nat, d: nat, b: nat, i: nat)
    requires su.Valid() && FlatShape(su.ins.n, fs)
  {
    && s < su.ins.n && d < su.ins.n && i < |su.Ix(d).memberships|
    && var c := fs.chan[s][d];
    && c.done < |c.sent| && c.done < |c.posted| && IsRecv(c.posted[c.done])
    && FitsMembership(su.Ix(d), d, c.posted[c.done], b, i)
    && fs' == WithChan(fs, s, d, c.(done := c.done + 1))
                .(flat := fs.flat[d := Stored(fs.flat[d], c.posted[c.done], b, c.sent[c.done], su.count)])
  }

  ghost predicate FlatStep<T>(su: Setup<T>, fs: FlatState<T>, fs': FlatState<T>, synchronous: bool)
    requires su.Valid() && FlatShape(su.ins.n, fs)
  {
    || (exists p: nat, op, i: nat :: FlatSend(su, fs, fs', p, op, i))
    || (exists p: nat, op :: FlatRecv(su, fs, fs', p, op))
    || (exists p: nat :: FlatWait(su, fs, fs', p, synchronous))
    || (exists p: nat :: FlatReduce(su, fs, fs', p))
    || (exists s: nat, d: nat, b: nat, i: nat :: FlatDeliver(su, fs, fs', s, d, b, i))
  }

  /** Nothing posted yet. The buffers have their sizes and hold anything. */
  ghost predicate FlatInit<T>(su: Setup<T>, fs: FlatState<T>)
    requires su.Valid()
  {
    && FlatShape(su.ins.n, fs)
    && (forall p :: 0 <= p < su.ins.n ==> fs.pc[p] == 0 && Sized(su, p, fs.flat[p]))
    && (forall s, d :: 0 <= s < su.ins.n && 0 <= d < su.ins.n ==> fs.chan[s][d] == Channel([], [], 0))
  }

  ghost predicate Sized<T>(su: Setup<T>, p: nat, f: Flat<T>)
    requires su.Valid() && p < su.ins.n
  { BuffersFit(su.Ix(p), p, su.sent[p], f.vals, f.buf, su.count) }

  // ---- how buffers mirror a memory ----------------------------------------------------

  /** The member at place pos of membership i sends a block to this root. */
  ghost predicate Slot(ix: Index, rank: nat, i: nat, pos: int)
    requires ix.Valid() && i < |ix.memberships|
  { ix.Rooted(i, rank) && 0 < pos < |ix.Group(i)| }

  ghost predicate ValMirrors<T>(su: Setup<T>, p: nat, mem: map<Loc, seq<T>>, f: Flat<T>, i: nat, pos: nat)
    requires su.Valid() && p < su.ins.n && i < |su.Ix(p).memberships| && pos > 0
  {
    var ix := su.Ix(p);
    Val(ix.memberships[i], pos) in mem ==> ReceivedAt(mem, ix, p, f.vals, i, su.count, pos)
  }

  ghost predicate BufMirrors<T>(su: Setup<T>, p: nat, mem: map<Loc, seq<T>>, f: Flat<T>, i: nat)
    requires su.Valid() && p < su.ins.n && i < |su.Ix(p).memberships|
  {
    var l := Buf(su.Ix(p).memberships[i]);
    l in mem ==> (i + 1) * su.count <= |f.buf| && mem[l] == BlockOf(f.buf, i, su.count)
  }

  ghost predicate Mirrors<T>(su: Setup<T>, p: nat, mem: map<Loc, seq<T>>, f: Flat<T>)
    requires su.Valid() && p < su.ins.n
  {
    && Sized(su, p, f)
    && (forall i, pos :: 0 <= i < |su.Ix(p).memberships| && Slot(su.Ix(p), p, i, pos) ==>
          ValMirrors(su, p, mem, f, i, pos))
    && (forall i :: 0 <= i < |su.Ix(p).memberships| ==> BufMirrors(su, p, mem, f, i))
  }

  /** The buffers mirror memories with which the state is one the collective keeps. */
  ghost predicate Mirrored<T>(su: Setup<T>, fs: FlatState<T>, mems: seq<map<Loc, seq<T>>>)
    requires su.Valid()
  {
    && FlatShape(su.ins.n, fs) && |mems| == su.ins.n && Inv(su.ins, View(fs, mems))
    && forall p :: 0 <= p < su.ins.n ==> Mirrors(su, p, mems[p], fs.flat[p])
  }

  // ---- blocks ---------------------------------------------------------------------------

  lemma PutHere<T>(s: seq<T>, b: nat, v: seq<T>, count: nat)
    requires (b + 1) * count <= |s| && |v| == count
    ensures BlockOf(Put(s, b, v, count), b, count) == v
  { BlockBounds(b, count); }

  lemma PutElsewhere<T>(s: seq<T>, b: nat, v: seq<T>, count: nat, a: nat)
    requires (a + 1) * count <= |s| && |v| == count && a != b
    ensures BlockOf(Put(s, b, v, count), a, count) == BlockOf(s, a, count)
  {
    BlockBounds(a, count);
    BlockBounds(b, count);
    if a < b { BlockInside(a, b, count); } else { BlockInside(b, a, count); }
  }

  lemma {:induction false} FoldSize<T>(op: (T, T) -> T, init: seq<T>, rest: seq<seq<T>>)
    ensures |Fold(Lift(op), init, rest)| == |init|
  { if |rest| > 0 { FoldSize(op, init, rest[..|rest| - 1]); } }

  /** Member p of group g knows g as one of its memberships. */
  lemma MembershipFor<T>(su: Setup<T>, p: nat, g: nat) returns (i: nat)
    requires su.Valid() && su.ins.Member(p, g)
    ensures p < su.ins.n && i < |su.Ix(p).memberships| && su.Ix(p).memberships[i] == g
    ensures su.Ix(p).Group(i) == su.ins.members[g] && (su.Ix(p).Rooted(i, p) <==> su.ins.Root(p, g))
  {
    assert ValidGroup(su.ins.members[g], su.ins.n);
    i :| 0 <= i < |su.Ix(p).memberships| && su.Ix(p).memberships[i] == g;
  }

  /** All blocks have count entries. */
  lemma IdealSize<T>(su: Setup<T>, l: Loc)
    requires su.Valid() && LocOk(su.ins.members, l)
    ensures |Ideal(su.ins, l)| == su.count
  {
    hide Fold;
    var ms := su.ins.members[l.grp];
    var p := ms[if l.Val? then l.pos else 0];
    assert su.ins.Member(p, l.grp);
    var i := MembershipFor(su, p, l.grp);
    assert su.Prepared(p) && su.Contributes(p, i);
    BlockBounds(i, su.count);
    if l.Buf? { FoldSize(su.op, su.ins.input(p, l.grp), su.ins.Contributions(l.grp)); }
  }

  /** A post has one block only, the one the posting loops give it. */
  lemma BlockDetermined(ix: Index, lists: seq<seq<nat>>, rank: nat, op: Op, b: nat, b': nat)
    requires ix.Valid() && ix.Reflects(lists, rank) && BlockFits(ix, rank, op, b) && BlockFits(ix, rank, op, b')
    ensures b == b'
  {
    hide Index.Handled, Index.Group;
    var i :| 0 <= i < |ix.memberships| && FitsMembership(ix, rank, op, b, i);
    var j :| 0 <= j < |ix.memberships| && FitsMembership(ix, rank, op, b', j);
    assert ix.memberships[i] == ix.memberships[j];
    assert i == j;
  }

  lemma {:induction false} PostedBy(c: seq<Op>, s: nat, k: nat)
    requires k < |RecvOps(c, s)|
    ensures RecvOps(c, s)[k] in c
  {
    var n := |c| - 1;
    if k < |RecvOps(c[..n], s)| { PostedBy(c[..n], s, k); }
  }

  /** A receive that was posted belongs to a group of its process. */
  lemma PostedIsOwn<B>(ins: Instance<B>, st: State<B>, s: nat, d: nat, k: nat)
    requires ins.Valid() && Control(ins, st) && s < ins.n && d < ins.n && k < |st.chan[s][d].posted|
    ensures Post1(ins, d, st.chan[s][d].posted[k]) || Post3(ins, d, st.chan[s][d].posted[k])
    ensures IsRecv(st.chan[s][d].posted[k])
  {
    hide Code, SendOps, RecvOps, Post1, Post3, WaitOk;
    assert ChanOk(ins, st, s, d);
    var c := Code(ins, d)[..st.pc[d]];
    PostedBy(c, s, k);
    var i :| 0 <= i < |c| && c[i] == RecvOps(c, s)[k];
    CodeAt(ins, d, i);
    PostedIsRecv(c, s, k);
    assert Code(ins, d)[i] == st.chan[s][d].posted[k];
  }

  lemma {:induction false} PostedIsRecv(c: seq<Op>, s: nat, k: nat)
    requires k < |RecvOps(c, s)|
    ensures IsRecv(RecvOps(c, s)[k])
  {
    var n := |c| - 1;
    if k < |RecvOps(c[..n], s)| { PostedIsRecv(c[..n], s, k); }
  }

  // ---- one step -----------------------------------------------------------------------------

  /** The message copied out of the buffer is the message of the model. */
  lemma SendMirrored<T>(su: Setup<T>, fs: FlatState<T>, fs': FlatState<T>, mems: seq<map<Loc, seq<T>>>, p: nat, op: Op,
                        i: nat)
    requires su.Valid() && Mirrored(su, fs, mems) && FlatSend(su, fs, fs', p, op, i)
    ensures PostSend(su.ins, View(fs, mems), View(fs', mems), p, op) && FlatShape(su.ins.n, fs')
    ensures fs'.flat == fs.flat
  {
    hide Code, Inv, BlockOf, Index.Handled, Index.Rooted, Index.Group;
    var st := View(fs, mems);
    InvBounded(su.ins, st);
    assert Current(su.ins, st, p, op);
    SendReady(su.ins, st, p, op);
    var ix := su.Ix(p);
    if op.Send? {
      assert su.Prepared(p) && su.Contributes(p, i);
    } else {
      assert Mirrors(su, p, mems[p], fs.flat[p]) && BufMirrors(su, p, mems[p], fs.flat[p], i);
    }
  }

  lemma PostHasSlot<T>(su: Setup<T>, p: nat, op: Op, b: nat, i: nat)
    requires su.Valid() && p < su.ins.n && (Post1(su.ins, p, op) || Post3(su.ins, p, op))
    requires i < |su.Ix(p).memberships| && FitsMembership(su.Ix(p), p, op, b, i)
    ensures op.Recv? ==> Slot(su.Ix(p), p, i, op.pos)
  { hide Index.Handled; }

  /** The block of the receive lies inside its buffer, and no other receive shares it. */
  lemma DeliverMirrored<T>(su: Setup<T>, p: nat, mem: map<Loc, seq<T>>, f: Flat<T>, op: Op, b: nat, i: nat, v: seq<T>)
    requires su.Valid() && p < su.ins.n && Mirrors(su, p, mem, f)
    requires i < |su.Ix(p).memberships| && FitsMembership(su.Ix(p), p, op, b, i) && IsRecv(op)
    requires Post1(su.ins, p, op) || Post3(su.ins, p, op)
    requires |v| == su.count
    ensures Mirrors(su, p, mem[Target(op) := v], Stored(f, op, b, v, su.count))
  {
    hide BlockOf, Put, Index.Handled, Index.Group, Index.Rooted, Index.Reflects;
    var ix := su.Ix(p);
    var mem', f' := mem[Target(op) := v], Stored(f, op, b, v, su.count);
    PostHasSlot(su, p, op, b, i);
    hide Post1, Post3;
    forall j, pos | 0 <= j < |ix.memberships| && Slot(ix, p, j, pos) ensures ValMirrors(su, p, mem', f', j, pos) {
      assert ValMirrors(su, p, mem, f, j, pos);
      if op.Recv? { SlotStored(su, p, mem, f, op, b, i, v, j, pos); }
    }
    forall j | 0 <= j < |ix.memberships| ensures BufMirrors(su, p, mem', f', j) {
      assert BufMirrors(su, p, mem, f, j);
      if op.RecvBack? { BufStored(su, p, mem, f, op, b, i, v, j); }
    }
  }

  /** Slots have blocks inside receivedVals, and different slots different ones. */
  lemma SlotBlocks<T>(su: Setup<T>, p: nat, f: Flat<T>, i: nat, pos: nat, j: nat, pos': nat)
    requires su.Valid() && p < su.ins.n && Sized(su, p, f)
    requires i < |su.Ix(p).memberships| && Slot(su.Ix(p), p, i, pos)
    requires j < |su.Ix(p).memberships| && Slot(su.Ix(p), p, j, pos')
    ensures pos > 0 && pos' > 0 && (su.Ix(p).Handled(i, p) + pos) * su.count <= |f.vals|
    ensures su.Ix(p).Handled(i, p) + pos == su.Ix(p).Handled(j, p) + pos' ==> i == j && pos == pos'
    ensures su.Ix(p).memberships[i] == su.Ix(p).memberships[j] ==> i == j
  {
    hide Index.Handled, Index.Group, Index.Rooted;
    var ix := su.Ix(p);
    ReceiveBlocksDistinct(ix, p, i, pos, j, pos');
    BlockInside(ix.Handled(i, p) + pos - 1, ix.Handled(|ix.memberships|, p), su.count);
  }

  lemma SlotStored<T>(su: Setup<T>, p: nat, mem: map<Loc, seq<T>>, f: Flat<T>, op: Op, b: nat, i: nat, v: seq<T>,
                      j: nat, pos: nat)
    requires su.Valid() && p < su.ins.n && Sized(su, p, f) && |v| == su.count
    requires i < |su.Ix(p).memberships| && op.Recv?
    requires FitsMembership(su.Ix(p), p, op, b, i) && Slot(su.Ix(p), p, i, op.pos)
    requires j < |su.Ix(p).memberships| && Slot(su.Ix(p), p, j, pos) && ValMirrors(su, p, mem, f, j, pos)
    ensures ValMirrors(su, p, mem[Target(op) := v], Stored(f, op, b, v, su.count), j, pos)
  {
    hide BlockOf, Put, Index.Handled, Index.Valid, Index.Reflects, su.Valid, Slot, Sized;
    SlotBlocks(su, p, f, i, op.pos, j, pos);
    SlotBlocks(su, p, f, j, pos, j, pos);
    if i == j && op.pos == pos {
      PutHere(f.vals, b, v, su.count);
    } else {
      PutElsewhere(f.vals, b, v, su.count, su.Ix(p).Handled(j, p) + pos - 1);
    }
  }

  lemma BufStored<T>(su: Setup<T>, p: nat, mem: map<Loc, seq<T>>, f: Flat<T>, op: Op, b: nat, i: nat, v: seq<T>, j: nat)
    requires su.Valid() && p < su.ins.n && Sized(su, p, f) && |v| == su.count
    requires i < |su.Ix(p).memberships| && op.RecvBack? && FitsMembership(su.Ix(p), p, op, b, i)
    requires j < |su.Ix(p).memberships| && BufMirrors(su, p, mem, f, j)
    ensures BufMirrors(su, p, mem[Target(op) := v], Stored(f, op, b, v, su.count), j)
  {
    hide BlockOf, Put;
    var ix := su.Ix(p);
    BlockInside(i, |ix.memberships|, su.count);
    BlockInside(j, |ix.memberships|, su.count);
    if i == j {
      PutHere(f.buf, b, v, su.count);
    } else {
      PutElsewhere(f.buf, b, v, su.count, j);
    }
  }

  /** Every delivery of the flat program is the delivery of the model, inside the buffers. */
  lemma DeliveryMirrored<T>(su: Setup<T>, fs: FlatState<T>, fs': FlatState<T>, mems: seq<map<Loc, seq<T>>>,
                            s: nat, d: nat, b: nat, i: nat) returns (mems': seq<map<Loc, seq<T>>>)
    requires su.Valid() && WellAddressed(su.ins) && Mirrored(su, fs, mems) && FlatDeliver(su, fs, fs', s, d, b, i)
    ensures Deliver(su.ins, View(fs, mems), View(fs', mems'), s, d) && FlatShape(su.ins.n, fs')
    ensures MirrorAll(su, fs', mems')
  {
    hide Code, Control, Values, Post1, Post3, FitsMembership, Mirrors, WellAddressed, LocOk;
    var st := View(fs, mems);
    var c := fs.chan[s][d];
    var op, v := c.posted[c.done], c.sent[c.done];
    InvBounded(su.ins, st);
    PostedIsOwn(su.ins, st, s, d, c.done);
    DeliveredBlock(su.ins, st, s, d);
    IdealSize(su, Target(op));
    mems' := mems[d := mems[d][Target(op) := v]];
    DeliverMirrored(su, d, mems[d], fs.flat[d], op, b, i, v);
  }

  ghost predicate MirrorAll<T>(su: Setup<T>, fs: FlatState<T>, mems: seq<map<Loc, seq<T>>>)
    requires su.Valid()
  {
    && FlatShape(su.ins.n, fs) && |mems| == su.ins.n
    && forall p :: 0 <= p < su.ins.n ==> Mirrors(su, p, mems[p], fs.flat[p])
  }

  /** The memory after phase 2: the groups rooted here hold their results. */
  ghost function ReducedMem<B>(ins: Instance<B>, mem: map<Loc, B>, p: nat): map<Loc, B>
    requires ins.Valid()
  { mem + (map g: nat | 0 <= g < |ins.members| && ins.Root(p, g) :: Buf(g) := ins.Result(g)) }

  /** What the loops of phase 2 compute for membership i, the Reduce step of the model and the
      result of the group are the same block. */
  ghost predicate ReducesRight<T>(su: Setup<T>, mem: map<Loc, seq<T>>, p: nat, f: Flat<T>, i: nat)
    requires su.Valid() && p < su.ins.n && i < |su.Ix(p).memberships| && su.Ix(p).Rooted(i, p)
  {
    var ix := su.Ix(p);
    var g := ix.memberships[i];
    var n := |ix.Group(i)|;
    && Received(mem, g, n) && Reduced(su.ins, mem, p, g) == su.ins.Result(g)
    && (i + 1) * su.count <= |su.sent[p]| && (ix.Handled(i, p) + n - 1) * su.count <= |f.vals|
    && Wanted(ix, p, su.op, su.sent[p], f.vals, i, su.count) == su.ins.Result(g)
  }

  lemma RootedBlock<T>(su: Setup<T>, st: State<seq<T>>, p: nat, f: Flat<T>, i: nat)
    requires su.Valid() && WellAddressed(su.ins) && Inv(su.ins, st) && p < su.ins.n
    requires st.pc[p] > W1(su.ins, p) && Mirrors(su, p, st.mem[p], f)
    requires i < |su.Ix(p).memberships| && su.Ix(p).Rooted(i, p)
    ensures su.ins.Root(p, su.Ix(p).memberships[i]) && ReducesRight(su, st.mem[p], p, f, i)
  {
    hide BlockOf, Index.Handled, Control, Values, Wanted, Good, WellAddressed, W1, Reduced, Fold;
    InvBounded(su.ins, st);
    var ix := su.Ix(p);
    var g := ix.memberships[i];
    assert su.ins.members[g] == ix.Group(i);
    forall pos | 0 < pos < |ix.Group(i)|
      ensures Good(su.ins, st.mem[p], Val(g, pos)) && ReceivedAt(st.mem[p], ix, p, f.vals, i, su.count, pos)
    {
      BlocksArrived(su.ins, st, p, g, pos);
      GoodIsStored(su.ins, st.mem[p], Val(g, pos));
      assert Slot(ix, p, i, pos);
      assert ValMirrors(su, p, st.mem[p], f, i, pos);
    }
    RootedFits(su, p, st.mem[p], f, i);
    WantedIsReduced(su.ins, su.op, st.mem[p], ix, p, su.sent[p], f.vals, i, su.count);
    ReducedIsResult(su.ins, st.mem[p], p, g);
  }

  lemma GoodIsStored<B>(ins: Instance<B>, mem: map<Loc, B>, l: Loc)
    requires Good(ins, mem, l)
    ensures l in mem
  {}

  lemma RootedFits<T>(su: Setup<T>, p: nat, mem: map<Loc, seq<T>>, f: Flat<T>, i: nat)
    requires su.Valid() && p < su.ins.n && Mirrors(su, p, mem, f)
    requires i < |su.Ix(p).memberships| && su.Ix(p).Rooted(i, p)
    requires forall pos :: 0 < pos < |su.Ix(p).Group(i)| ==> ReceivedAt(mem, su.Ix(p), p, f.vals, i, su.count, pos)
    ensures BuffersReflect(su.ins, mem, su.Ix(p), p, su.sent[p], f.vals, i, su.count)
  {
    hide BlockOf, Index.Handled;
    RoomForGroup(su.Ix(p), p, i, su.count);
    assert su.Prepared(p) && su.Contributes(p, i);
  }

  lemma ReduceMirrors<T>(su: Setup<T>, st: State<seq<T>>, p: nat, f: Flat<T>, f': Flat<T>)
    requires su.Valid() && WellAddressed(su.ins) && Inv(su.ins, st) && p < su.ins.n
    requires st.pc[p] > W1(su.ins, p) && Mirrors(su, p, st.mem[p], f)
    requires f'.vals == f.vals && |f'.buf| == |f.buf|
    requires forall i :: 0 <= i < |su.Ix(p).memberships| ==>
               GroupReduced(su.Ix(p), p, su.op, su.sent[p], f.vals, f.buf, f'.buf, su.count, i)
    ensures Mirrors(su, p, ReducedMem(su.ins, st.mem[p], p), f')
  {
    hide BlockOf, Index.Handled, Control, Values, Wanted, WellAddressed, W1, Inv, Index.Rooted, Fold;
    InvBounded(su.ins, st);
    var ix := su.Ix(p);
    var mem' := ReducedMem(su.ins, st.mem[p], p);
    forall i, pos | 0 <= i < |ix.memberships| && Slot(ix, p, i, pos) ensures ValMirrors(su, p, mem', f', i, pos) {
      assert ValMirrors(su, p, st.mem[p], f, i, pos);
    }
    forall i | 0 <= i < |ix.memberships| ensures BufMirrors(su, p, mem', f', i) {
      assert BufMirrors(su, p, st.mem[p], f, i);
      assert GroupReduced(ix, p, su.op, su.sent[p], f.vals, f.buf, f'.buf, su.count, i);
      if ix.Rooted(i, p) {
        RootedBlock(su, st, p, f, i);
      } else {
        NotRoot(su, p, i);
      }
    }
  }

  lemma NotRoot<T>(su: Setup<T>, p: nat, i: nat)
    requires su.Valid() && p < su.ins.n && i < |su.Ix(p).memberships|
    ensures su.Ix(p).Rooted(i, p) <==> su.ins.Root(p, su.Ix(p).memberships[i])
  {}

  /** Phase 2 in place is the Reduce step of the model. */
  lemma ReduceMirrored<T>(su: Setup<T>, fs: FlatState<T>, fs': FlatState<T>, mems: seq<map<Loc, seq<T>>>, p: nat)
      returns (mems': seq<map<Loc, seq<T>>>)
    requires su.Valid() && WellAddressed(su.ins) && Mirrored(su, fs, mems) && FlatReduce(su, fs, fs', p)
    ensures DoReduce(su.ins, View(fs, mems), View(fs', mems'), p) && MirrorAll(su, fs', mems')
  {
    hide Code, Control, Values, Mirrors, WellAddressed, GroupReduced, Reduced, Good, Instance.Result;
    var st := View(fs, mems);
    InvBounded(su.ins, st);
    ReduceIsLate(su.ins, p, st.pc[p]);
    var mem' := ReducedMem(su.ins, mems[p], p);
    mems' := mems[p := mem'];
    forall g: nat | su.ins.Root(p, g)
      ensures Received(mems[p], g, |su.ins.members[g]|)
      ensures Buf(g) in mem' && mem'[Buf(g)] == Reduced(su.ins, mems[p], p, g)
    {
      RootReduced(su.ins, st, p, g);
    }
    ReduceMirrors(su, st, p, fs.flat[p], fs'.flat[p]);
  }

  lemma RootReduced<B>(ins: Instance<B>, st: State<B>, p: nat, g: nat)
    requires ins.Valid() && WellAddressed(ins) && Inv(ins, st) && p < ins.n
    requires st.pc[p] > W1(ins, p) && ins.Root(p, g)
    ensures Received(st.mem[p], g, |ins.members[g]|) && Buf(g) in ReducedMem(ins, st.mem[p], p)
    ensures ReducedMem(ins, st.mem[p], p)[Buf(g)] == Reduced(ins, st.mem[p], p, g)
  {
    hide Control, Values, Good, WellAddressed, Reduced, W1, Fold;
    InvBounded(ins, st);
    forall pos | 0 < pos < |ins.members[g]| ensures Good(ins, st.mem[p], Val(g, pos)) {
      BlocksArrived(ins, st, p, g, pos);
    }
    ReducedIsResult(ins, st.mem[p], p, g);
  }

  /** One step of the flat program is one step of the model, and the buffers go on mirroring. */
  lemma StepMirrored<T(!new)>(su: Setup<T>, fs: FlatState<T>, fs': FlatState<T>, mems: seq<map<Loc, seq<T>>>,
                        synchronous: bool) returns (mems': seq<map<Loc, seq<T>>>)
    requires su.Valid() && WellAddressed(su.ins) && Mirrored(su, fs, mems) && FlatStep(su, fs, fs', synchronous)
    ensures Step(su.ins, View(fs, mems), View(fs', mems'), synchronous) && Mirrored(su, fs', mems')
  {
    hide Code, Inv, Mirrors, PostSend, PostRecv, PassWait, DoReduce, Deliver, FlatSend, FlatRecv, FlatWait;
    hide FlatReduce, FlatDeliver, Instance.Valid, WellAddressed;
    mems' := mems;
    if p: nat, op, i: nat :| FlatSend(su, fs, fs', p, op, i) {
      SendMirrored(su, fs, fs', mems, p, op, i);
      assert Step(su.ins, View(fs, mems), View(fs', mems'), synchronous);
    } else if p: nat, op :| FlatRecv(su, fs, fs', p, op) {
      RecvMirrored(su, fs, fs', mems, p, op);
      assert Step(su.ins, View(fs, mems), View(fs', mems'), synchronous);
    } else if p: nat :| FlatWait(su, fs, fs', p, synchronous) {
      WaitMirrored(su, fs, fs', mems, p, synchronous);
      assert Step(su.ins, View(fs, mems), View(fs', mems'), synchronous);
    } else if p: nat :| FlatReduce(su, fs, fs', p) {
      mems' := ReduceMirrored(su, fs, fs', mems, p);
      assert Step(su.ins, View(fs, mems), View(fs', mems'), synchronous);
    } else {
      var s: nat, d: nat, b: nat, i: nat :| FlatDeliver(su, fs, fs', s, d, b, i);
      mems' := DeliveryMirrored(su, fs, fs', mems, s, d, b, i);
      assert Step(su.ins, View(fs, mems), View(fs', mems'), synchronous);
    }
    InvStep(su.ins, View(fs, mems), View(fs', mems'), synchronous);
  }

  lemma RecvMirrored<T>(su: Setup<T>, fs: FlatState<T>, fs': FlatState<T>, mems: seq<map<Loc, seq<T>>>, p: nat, op: Op)
    requires su.Valid() && Mirrored(su, fs, mems) && FlatRecv(su, fs, fs', p, op)
    ensures PostRecv(su.ins, View(fs, mems), View(fs', mems), p, op) && FlatShape(su.ins.n, fs')
    ensures fs'.flat == fs.flat
  { hide Code, Inv, Mirrors; }

  lemma WaitMirrored<T>(su: Setup<T>, fs: FlatState<T>, fs': FlatState<T>, mems: seq<map<Loc, seq<T>>>, p: nat,
                        synchronous: bool)
    requires su.Valid() && Mirrored(su, fs, mems) && FlatWait(su, fs, fs', p, synchronous)
    ensures PassWait(su.ins, View(fs, mems), View(fs', mems), p, synchronous) && FlatShape(su.ins.n, fs')
    ensures fs'.flat == fs.flat
  { hide Code, Inv, Mirrors; }

  // ---- runs ----------------------------------------------------------------------------------

  ghost predicate FlatRun<T>(su: Setup<T>, states: seq<FlatState<T>>, synchronous: bool)
    requires su.Valid()
  {
    && |states| > 0
    && (forall i :: 0 <= i < |states| ==> FlatShape(su.ins.n, states[i]))
    && FlatInit(su, states[0])
    && (forall i :: 0 <= i < |states| - 1 ==> FlatStep(su, states[i], states[i + 1], synchronous))
  }

  /** A run of the model with the same programs and channels, whose memories the buffers mirror. */
  ghost predicate Shadows<T>(su: Setup<T>, states: seq<FlatState<T>>, mems: seq<seq<map<Loc, seq<T>>>>)
    requires su.Valid()
  { |mems| == |states| && forall i :: 0 <= i < |states| ==> Mirrored(su, states[i], mems[i]) }

  function Views<T>(states: seq<FlatState<T>>, mems: seq<seq<map<Loc, seq<T>>>>): (r: seq<State<seq<T>>>)
    requires |mems| == |states|
    ensures |r| == |states| && forall i :: 0 <= i < |states| ==> r[i] == View(states[i], mems[i])
  { seq(|states|, i requires 0 <= i < |states| => View(states[i], mems[i])) }

  lemma StartMirrored<T>(su: Setup<T>, fs: FlatState<T>) returns (mems: seq<map<Loc, seq<T>>>)
    requires su.Valid() && FlatInit(su, fs)
    ensures Mirrored(su, fs, mems) && Init(su.ins.n, View(fs, mems))
  {
    hide Inv, Code;
    mems := seq(su.ins.n, p => map[]);
    InvInit(su.ins, View(fs, mems));
  }

  /** Every run of the flat program is a run of the collective. */
  lemma {:induction false} RunMirrored<T(!new)>(su: Setup<T>, states: seq<FlatState<T>>, synchronous: bool)
      returns (mems: seq<seq<map<Loc, seq<T>>>>)
    requires su.Valid() && WellAddressed(su.ins) && FlatRun(su, states, synchronous)
    ensures Shadows(su, states, mems) && Run(su.ins, Views(states, mems), synchronous)
  {
    hide FlatStep, FlatInit, Step, Init, Mirrored, WellAddressed, Setup.Valid;
    var n := |states| - 1;
    if n == 0 {
      var first := StartMirrored(su, states[0]);
      mems := [first];
      MirroredShape(su, states[0], first);
    } else {
      mems := RunMirrored(su, states[..n], synchronous);
      var next := StepMirrored(su, states[n - 1], states[n], mems[n - 1], synchronous);
      var views := Views(states[..n], mems);
      mems := mems + [next];
      MirroredShape(su, states[n], next);
      assert Views(states, mems) == views + [View(states[n], next)];
    }
  }

  lemma MirroredShape<T>(su: Setup<T>, fs: FlatState<T>, mems: seq<map<Loc, seq<T>>>)
    requires su.Valid() && Mirrored(su, fs, mems)
    ensures Shape(su.ins.n, View(fs, mems))
  {}

  ghost predicate FlatFinal<T>(su: Setup<T>, fs: FlatState<T>)
    requires su.Valid() && FlatShape(su.ins.n, fs)
  { forall p :: 0 <= p < su.ins.n ==> fs.pc[p] == |Code(su.ins, p)| }

  /** When all processes are through, block i of every recvBuf is the result of its i-th group,
      whatever the buffers held before. */
  lemma BuffersHoldResults<T(!new)>(su: Setup<T>, states: seq<FlatState<T>>, synchronous: bool, p: nat, i: nat)
    requires su.Valid() && WellAddressed(su.ins) && FlatRun(su, states, synchronous)
    requires FlatFinal(su, states[|states| - 1]) && p < su.ins.n && i < |su.Ix(p).memberships|
    ensures var buf := states[|states| - 1].flat[p].buf;
            && (i + 1) * su.count <= |buf|
            && su.ins.Member(p, su.Ix(p).memberships[i])
            && BlockOf(buf, i, su.count) == su.ins.Result(su.Ix(p).memberships[i])
    ensures var g := su.Ix(p).memberships[i];
            exists acc :: PartialResults(su.ins, g, acc)
                          && BlockOf(states[|states| - 1].flat[p].buf, i, su.count) == acc[|su.ins.members[g]| - 1]
  {
    hide FlatStep, FlatInit, Step, Init, Inv, WellAddressed, Code, BlockOf, Fold;
    var mems := RunMirrored(su, states, synchronous);
    var views := Views(states, mems);
    var last := |states| - 1;
    assert Mirrored(su, states[last], mems[last]);
    assert Final(su.ins, views[last]);
    var g := su.Ix(p).memberships[i];
    AllreduceIsCorrect(su.ins, views, synchronous, p, g);
    assert Mirrors(su, p, mems[last][p], states[last].flat[p]);
    assert BufMirrors(su, p, mems[last][p], states[last].flat[p], i);
  }

  lemma InputSizes<T>(su: Setup<T>, g: nat)
    requires su.Valid() && g < |su.ins.members|
    ensures forall j :: 0 <= j < |su.ins.members[g]| ==> |su.ins.input(su.ins.members[g][j], g)| == su.count
  {
    forall j | 0 <= j < |su.ins.members[g]| ensures |su.ins.input(su.ins.members[g][j], g)| == su.count {
      IdealSize(su, Val(g, j));
    }
  }

  /** The k-th entries of the blocks of all members, folded from the left in ascending rank. */
  ghost function EntryFold<T>(su: Setup<T>, g: nat, k: nat): T
    requires su.Valid() && g < |su.ins.members| && |su.ins.members[g]| > 0 && k < su.count
  {
    InputSizes(su, g);
    var ms := su.ins.members[g];
    Fold(su.op, su.ins.input(ms[0], g)[k], seq(|ms| - 1, j requires 0 <= j < |ms| - 1 => su.ins.input(ms[j + 1], g)[k]))
  }

  lemma ColumnOf<T>(su: Setup<T>, g: nat, k: nat)
    requires su.Valid() && g < |su.ins.members| && |su.ins.members[g]| > 0 && k < su.count
    ensures var ms := su.ins.members[g];
            var rest := su.ins.Contributions(g);
            && |su.ins.input(ms[0], g)| == su.count && (forall j :: 0 <= j < |rest| ==> |rest[j]| == su.count)
            && EntryFold(su, g, k) ==
                 Fold(su.op, su.ins.input(ms[0], g)[k], seq(|rest|, j requires 0 <= j < |rest| => rest[j][k]))
  {
    hide Fold;
    InputSizes(su, g);
    var ms := su.ins.members[g];
    var rest := su.ins.Contributions(g);
    assert seq(|ms| - 1, j requires 0 <= j < |ms| - 1 => su.ins.input(ms[j + 1], g)[k])
        == seq(|rest|, j requires 0 <= j < |rest| => rest[j][k]);
  }

  /** x is entry k of the block that member q has for group g in its sendBuf. */
  ghost predicate IsSent<T>(su: Setup<T>, q: nat, g: nat, k: nat, x: T)
    requires su.Valid()
  {
    && q < su.ins.n
    && exists j :: 0 <= j < |su.Ix(q).memberships| && su.Ix(q).memberships[j] == g
                   && EntryIs(su.sent[q], j * su.count + k, x)
  }

  ghost predicate EntryIs<T>(s: seq<T>, at: nat, x: T) { at < |s| && s[at] == x }

  /** Entry k accumulates from the sendBufs of the members, in ascending rank. */
  ghost predicate EntryAccumulates<T(!new)>(su: Setup<T>, g: nat, k: nat, acc: seq<T>)
    requires su.Valid() && g < |su.ins.members| && |su.ins.members[g]| > 0
  {
    var ms := su.ins.members[g];
    && |acc| == |ms| && IsSent(su, ms[0], g, k, acc[0])
    && forall i :: 0 < i < |acc| ==> Combines(su, ms[i], g, k, acc[i - 1], acc[i])
  }

  ghost predicate Combines<T(!new)>(su: Setup<T>, q: nat, g: nat, k: nat, before: T, after: T)
    requires su.Valid()
  { exists x :: IsSent(su, q, g, k, x) && after == su.op(before, x) }

  /** Entry k of the input of a member is what lies in its sendBuf. */
  lemma InputIsSent<T>(su: Setup<T>, g: nat, m: nat, k: nat)
    requires su.Valid() && g < |su.ins.members| && m < |su.ins.members[g]| && k < su.count
    ensures |su.ins.input(su.ins.members[g][m], g)| == su.count
    ensures IsSent(su, su.ins.members[g][m], g, k, su.ins.input(su.ins.members[g][m], g)[k])
  {
    hide Index.Reflects, Index.Valid;
    InputSizes(su, g);
    var q := su.ins.members[g][m];
    assert su.ins.Member(q, g);
    var j := MembershipFor(su, q, g);
    assert su.Prepared(q) && su.Contributes(q, j);
    BlockBounds(j, su.count);
    assert EntryIs(su.sent[q], j * su.count + k, su.ins.input(q, g)[k]);
  }

  lemma EntryAccumulation<T(!new)>(su: Setup<T>, g: nat, k: nat) returns (acc: seq<T>)
    requires su.Valid() && g < |su.ins.members| && |su.ins.members[g]| > 0 && k < su.count
    ensures EntryAccumulates(su, g, k, acc) && EntryFold(su, g, k) == acc[|su.ins.members[g]| - 1]
  {
    hide Fold, IsSent, Setup.Valid;
    InputSizes(su, g);
    var ms := su.ins.members[g];
    var rest := seq(|ms| - 1, j requires 0 <= j < |ms| - 1 => su.ins.input(ms[j + 1], g)[k]);
    acc := FoldAccumulates(su.op, su.ins.input(ms[0], g)[k], rest);
    InputIsSent(su, g, 0, k);
    forall i | 0 < i < |acc| ensures Combines(su, ms[i], g, k, acc[i - 1], acc[i]) {
      InputIsSent(su, g, i, k);
      assert acc[i] == su.op(acc[i - 1], rest[i - 1]);
    }
  }

  /** Entry by entry: recvBuf[i * count + k] is the fold of the k-th entries of the members' blocks
      in ascending rank: it accumulates from the entries of their sendBufs, each taken once. */
  lemma EntriesAreFolds<T(!new)>(su: Setup<T>, states: seq<FlatState<T>>, synchronous: bool, p: nat, i: nat, k: nat)
    requires su.Valid() && WellAddressed(su.ins) && FlatRun(su, states, synchronous)
    requires FlatFinal(su, states[|states| - 1]) && p < su.ins.n && i < |su.Ix(p).memberships| && k < su.count
    ensures var g := su.Ix(p).memberships[i];
            var buf := states[|states| - 1].flat[p].buf;
            && i * su.count + k < |buf| && su.ins.Member(p, g)
            && buf[i * su.count + k] == EntryFold(su, g, k)
            && exists acc :: EntryAccumulates(su, g, k, acc) && buf[i * su.count + k] == acc[|su.ins.members[g]| - 1]
  {
    hide FlatRun, FlatFinal, WellAddressed, Fold, Index.Reflects;
    BuffersHoldResults(su, states, synchronous, p, i);
    BlockBounds(i, su.count);
    var g := su.Ix(p).memberships[i];
    InputSizes(su, g);
    ColumnOf(su, g, k);
    FoldEntry(su.op, su.ins.input(su.ins.members[g][0], g), su.ins.Contributions(g), k);
    var acc := EntryAccumulation(su, g, k);
  }
}
