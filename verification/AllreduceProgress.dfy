/** The program on flat buffers gets on: what the collective can do next, the buffers can, so that
    every run of the program extends to one in which all processes are through. */
module AllreduceProgress {
  import opened AllreduceModel
  import opened AllreduceMatching
  import opened AllreduceLocal
  import opened AllreduceReduce
  import opened AllreduceSafety
  import opened AllreduceRuns
  import opened AllreduceBuffers

  // ---- the reduction has a result -----------------------------------------------------------------

  lemma WantedSize<T>(su: Setup<T>, p: nat, f: Flat<T>, i: nat)
    requires su.Valid() && p < su.ins.n && Sized(su, p, f)
    requires i < |su.Ix(p).memberships| && su.Ix(p).Rooted(i, p)
    ensures (i + 1) * su.count <= |su.sent[p]|
    ensures (su.Ix(p).Handled(i, p) + |su.Ix(p).Group(i)| - 1) * su.count <= |f.vals|
    ensures |Wanted(su.Ix(p), p, su.op, su.sent[p], f.vals, i, su.count)| == su.count
  {
    hide Index.Handled, Index.Group, Fold;
    var ix := su.Ix(p);
    RoomForGroup(ix, p, i, su.count);
    BlockBounds(i, su.count);
    FoldSize(su.op, BlockOf(su.sent[p], i, su.count),
             BlocksOf(f.vals, ix.Handled(i, p), |ix.Group(i)| - 1, su.count));
  }

  lemma {:induction false} ReducedPrefix<T>(su: Setup<T>, p: nat, f: Flat<T>, k: nat) returns (buf: seq<T>)
    requires su.Valid() && p < su.ins.n && Sized(su, p, f) && k <= |su.Ix(p).memberships|
    ensures ReducedUpTo(su.Ix(p), p, su.op, su.sent[p], f.vals, f.buf, buf, su.count, k)
  {
    hide Index.Handled, Index.Group, Index.Rooted, Wanted, GroupReduced;
    var ix := su.Ix(p);
    if k == 0 {
      buf := f.buf;
    } else {
      var i := k - 1;
      var before := ReducedPrefix(su, p, f, i);
      BlockBounds(i, su.count);
      RoomForGroup(ix, p, i, su.count);
      if ix.Rooted(i, p) {
        WantedSize(su, p, f, i);
        buf := before[..i * su.count] + Wanted(ix, p, su.op, su.sent[p], f.vals, i, su.count)
               + before[(i + 1) * su.count..];
        RootedAdvances(ix, p, su.op, su.sent[p], f.vals, f.buf, before, buf, su.count, i);
      } else {
        buf := before;
        UnrootedAdvances(ix, p, su.op, su.sent[p], f.vals, f.buf, before, su.count, i);
      }
    }
  }

  lemma ReduceStep<T>(su: Setup<T>, fs: FlatState<T>, mems: seq<map<Loc, seq<T>>>, p: nat) returns (fs': FlatState<T>)
    requires su.Valid() && Mirrored(su, fs, mems) && Next(su, fs, p, Reduce)
    ensures FlatShape(su.ins.n, fs') && FlatReduce(su, fs, fs', p)
  {
    hide Code, Inv, GroupReduced, Index.Valid, Index.Reflects;
    assert Mirrors(su, p, mems[p], fs.flat[p]);
    var buf := ReducedPrefix(su, p, fs.flat[p], |su.Ix(p).memberships|);
    fs' := Advanced(fs, p).(flat := fs.flat[p := fs.flat[p].(buf := buf)]);
  }

  // ---- the other steps ----------------------------------------------------------------------------

  /** A post has a membership to take its block from. */
  lemma PostMembership<T>(su: Setup<T>, p: nat, op: Op) returns (i: nat)
    requires su.Valid() && p < su.ins.n && (Post1(su.ins, p, op) || Post3(su.ins, p, op))
    ensures i < |su.Ix(p).memberships|
    ensures op.Recv? ==> op.pos > 0
    ensures FitsMembership(su.Ix(p), p, op, if op.Recv? then su.Ix(p).Handled(i, p) + op.pos - 1 else i, i)
  {
    hide Index.Handled;
    i := MembershipFor(su, p, op.grp);
  }

  lemma SendStep<T>(su: Setup<T>, fs: FlatState<T>, mems: seq<map<Loc, seq<T>>>, st': State<seq<T>>, p: nat, op: Op)
      returns (fs': FlatState<T>, i: nat)
    requires su.Valid() && Mirrored(su, fs, mems) && PostSend(su.ins, View(fs, mems), st', p, op)
    ensures FlatShape(su.ins.n, fs') && FlatSend(su, fs, fs', p, op, i)
  {
    hide Code, Inv, Mirrors, Post1, Post3, Taken, Index.Valid, Index.Reflects;
    CodeAt(su.ins, p, fs.pc[p]);
    i := PostMembership(su, p, op);
    var c := fs.chan[p][op.dst];
    var v := Taken(if op.Send? then su.sent[p] else fs.flat[p].buf, i, su.count);
    fs' := WithChan(Advanced(fs, p), p, op.dst, c.(sent := c.sent + [v]));
  }

  lemma RecvStep<T>(su: Setup<T>, fs: FlatState<T>, mems: seq<map<Loc, seq<T>>>, st': State<seq<T>>, p: nat, op: Op)
      returns (fs': FlatState<T>)
    requires su.Valid() && Mirrored(su, fs, mems) && PostRecv(su.ins, View(fs, mems), st', p, op)
    ensures FlatShape(su.ins.n, fs') && FlatRecv(su, fs, fs', p, op)
  {
    hide Code, Inv, Mirrors;
    var c := fs.chan[op.src][p];
    fs' := WithChan(Advanced(fs, p), op.src, p, c.(posted := c.posted + [op]));
  }

  /** What passes a wait with synchronous sends passes it with buffered ones. */
  lemma WaitStep<T>(su: Setup<T>, fs: FlatState<T>, mems: seq<map<Loc, seq<T>>>, st': State<seq<T>>, p: nat,
                    synchronous: bool) returns (fs': FlatState<T>)
    requires su.Valid() && Mirrored(su, fs, mems) && PassWait(su.ins, View(fs, mems), st', p, true)
    ensures FlatShape(su.ins.n, fs') && FlatWait(su, fs, fs', p, synchronous)
  {
    hide Code, Inv, Mirrors;
    fs' := Advanced(fs, p);
  }

  lemma DeliverStep<T>(su: Setup<T>, fs: FlatState<T>, mems: seq<map<Loc, seq<T>>>, st': State<seq<T>>, s: nat, d: nat)
      returns (fs': FlatState<T>, b: nat, i: nat)
    requires su.Valid() && Mirrored(su, fs, mems) && Deliver(su.ins, View(fs, mems), st', s, d)
    ensures FlatShape(su.ins.n, fs') && FlatDeliver(su, fs, fs', s, d, b, i)
  {
    hide Code, Control, Values, Mirrors, Post3, Put, Index.Handled, Index.Valid, Index.Reflects;
    var c := fs.chan[s][d];
    var op := c.posted[c.done];
    InvBounded(su.ins, View(fs, mems));
    PostedIsOwn(su.ins, View(fs, mems), s, d, c.done);
    i := PostMembership(su, d, op);
    b := if op.Recv? then su.Ix(d).Handled(i, d) + op.pos - 1 else i;
    var f := Stored(fs.flat[d], op, b, c.sent[c.done], su.count);
    fs' := WithChan(fs, s, d, c.(done := c.done + 1)).(flat := fs.flat[d := f]);
  }

  lemma MirroredState<T>(su: Setup<T>, fs: FlatState<T>, mems: seq<map<Loc, seq<T>>>)
    requires su.Valid() && Mirrored(su, fs, mems)
    ensures var st := View(fs, mems);
            && su.ins.Valid() && Inv(su.ins, st) && Bounded(su.ins, st)
            && FlatShape(su.ins.n, fs) && (Final(su.ins, st) <==> FlatFinal(su, fs))
  {
    hide Code, Inv, Mirrors;
    InvBounded(su.ins, View(fs, mems));
  }

  // ---- progress -----------------------------------------------------------------------------------

  /** Unless all processes are through, some step of the program is possible. */
  lemma FlatNeverStuck<T(!new)>(su: Setup<T>, fs: FlatState<T>, mems: seq<map<Loc, seq<T>>>, synchronous: bool)
      returns (fs': FlatState<T>)
    requires su.Valid() && WellAddressed(su.ins) && Mirrored(su, fs, mems) && !FlatFinal(su, fs)
    ensures FlatShape(su.ins.n, fs') && FlatStep(su, fs, fs', synchronous)
  {
    hide Code, Inv, Mirrors, PostSend, PostRecv, PassWait, DoReduce, Deliver, FlatSend, FlatRecv, FlatWait;
    hide FlatReduce, FlatDeliver, Setup.Valid, WellAddressed, Enabled;
    var st := View(fs, mems);
    MirroredState(su, fs, mems);
    NeverStuck(su.ins, st);
    var st' := Successor(su.ins, st);
    if p: nat, op :| PostSend(su.ins, st, st', p, op) {
      var i;
      fs', i := SendStep(su, fs, mems, st', p, op);
    } else if p: nat, op :| PostRecv(su.ins, st, st', p, op) {
      fs' := RecvStep(su, fs, mems, st', p, op);
    } else if p: nat :| PassWait(su.ins, st, st', p, true) {
      fs' := WaitStep(su, fs, mems, st', p, synchronous);
    } else if p: nat :| DoReduce(su.ins, st, st', p) {
      ReduceIsNext(su, fs, mems, st', p);
      fs' := ReduceStep(su, fs, mems, p);
    } else {
      var s: nat, d: nat :| Deliver(su.ins, st, st', s, d);
      var b, i;
      fs', b, i := DeliverStep(su, fs, mems, st', s, d);
    }
  }

  lemma ReduceIsNext<T>(su: Setup<T>, fs: FlatState<T>, mems: seq<map<Loc, seq<T>>>, st': State<seq<T>>, p: nat)
    requires su.Valid() && Mirrored(su, fs, mems) && DoReduce(su.ins, View(fs, mems), st', p)
    ensures Next(su, fs, p, Reduce)
  { hide Code, Inv, Mirrors; }

  /** Every run of the program that has not come to its end can be continued. */
  lemma FlatRunGoesOn<T(!new)>(su: Setup<T>, states: seq<FlatState<T>>, synchronous: bool)
      returns (fs': FlatState<T>)
    requires su.Valid() && WellAddressed(su.ins) && FlatRun(su, states, synchronous)
    requires !FlatFinal(su, states[|states| - 1])
    ensures FlatRun(su, states + [fs'], synchronous)
  {
    hide FlatStep, FlatInit, Step, Init, Mirrored, WellAddressed, Setup.Valid, FlatFinal, Run;
    var mems := RunMirrored(su, states, synchronous);
    fs' := FlatNeverStuck(su, states[|states| - 1], mems[|states| - 1], synchronous);
  }

  /** Every run of the program extends to one in which all processes are through; by EntriesAreFolds
      all entries of all receive buffers are right then. */
  lemma FlatRunCompletes<T(!new)>(su: Setup<T>, states: seq<FlatState<T>>, synchronous: bool)
      returns (full: seq<FlatState<T>>)
    requires su.Valid() && WellAddressed(su.ins) && FlatRun(su, states, synchronous)
    ensures FlatRun(su, full, synchronous) && states <= full && FlatFinal(su, full[|full| - 1])
  {
    hide FlatStep, FlatInit, Step, Init, Mirrored, WellAddressed, Setup.Valid, FlatFinal, Run;
    var mems := RunMirrored(su, states, synchronous);
    MirroredState(su, states[|states| - 1], mems[|states| - 1]);
    full := Continued(su, states, mems[|states| - 1], synchronous);
  }

  lemma {:induction false} Continued<T(!new)>(su: Setup<T>, states: seq<FlatState<T>>, mems: seq<map<Loc, seq<T>>>,
                                              synchronous: bool) returns (full: seq<FlatState<T>>)
    requires su.Valid() && WellAddressed(su.ins) && FlatRun(su, states, synchronous)
    requires Mirrored(su, states[|states| - 1], mems) && Inv(su.ins, View(states[|states| - 1], mems))
    requires Bounded(su.ins, View(states[|states| - 1], mems))
    ensures FlatRun(su, full, synchronous) && states <= full && FlatFinal(su, full[|full| - 1])
    decreases Measure(su.ins, View(states[|states| - 1], mems))
  {
    hide FlatStep, FlatInit, Step, Inv, Mirrors, WellAddressed, Setup.Valid, FlatFinal, Measure;
    var last := states[|states| - 1];
    if FlatFinal(su, last) {
      full := states;
    } else {
      var next := FlatNeverStuck(su, last, mems, synchronous);
      var mems' := StepMirrored(su, last, next, mems, synchronous);
      MirroredState(su, last, mems);
      MirroredState(su, next, mems');
      InvBounded(su.ins, View(last, mems));
      InvBounded(su.ins, View(next, mems'));
      StepDecreases(su.ins, View(last, mems), View(next, mems'), synchronous);
      full := Continued(su, states + [next], mems', synchronous);
    }
  }
}
