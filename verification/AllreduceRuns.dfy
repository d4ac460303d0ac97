/** Whole runs of allreduce: every finished run is right, every run ends, no run gets
    stuck, and all of that exactly when the posts name the ranks they mean. */
module AllreduceRuns {
  import opened Selection
  import opened AllreduceModel
  import opened AllreduceMatching
  import opened AllreduceSafety

  ghost predicate Run<B>(ins: Instance<B>, states: seq<State<B>>, synchronous: bool)
    requires ins.Valid()
  {
    && |states| > 0
    && (forall i :: 0 <= i < |states| ==> Shape(ins.n, states[i]))
    && Init(ins.n, states[0])
    && (forall i :: 0 <= i < |states| - 1 ==> Step(ins, states[i], states[i + 1], synchronous))
  }

  lemma {:induction false} RunInv<B>(ins: Instance<B>, states: seq<State<B>>, synchronous: bool, i: nat)
    requires ins.Valid() && WellAddressed(ins) && Run(ins, states, synchronous) && i < |states|
    ensures Inv(ins, states[i])
  {
    hide Init, Step, Inv, WellAddressed;
    if i == 0 {
      InvInit(ins, states[0]);
    } else {
      RunInv(ins, states, synchronous, i - 1);
      InvStep(ins, states[i - 1], states[i], synchronous);
    }
  }

  lemma {:induction false} Posts3Has<B>(ins: Instance<B>, p: nat, n: nat, g: nat)
    requires ins.Valid() && g < n <= |ins.members| && ins.Member(p, g) && |ins.members[g]| > 1 && !ins.Root(p, g)
    ensures RecvBack(ins.addr[ins.members[g][0]], g) in Posts3(ins, p, n)
  { if g < n - 1 { Posts3Has(ins, p, n - 1, g); } }

  lemma FinishedMember<B>(ins: Instance<B>, st: State<B>, p: nat, g: nat)
    requires ins.Valid() && WellAddressed(ins) && Inv(ins, st) && Final(ins, st)
    requires p < ins.n && ins.Member(p, g)
    ensures Good(ins, st.mem[p], Buf(g))
  {
    hide SendOps, RecvOps, Posts1, Posts3, Good;
    CodeAt(ins, p, W1(ins, p));
    if ins.Root(p, g) {
      assert RootsDone(ins, st, p);
    } else {
      var s := ins.members[g][0];
      assert GroupAddressed(ins.addr, ins.members[g]) && s < ins.n;
      Posts3Has(ins, p, |ins.members|, g);
      CodeOps(ins, p, s);
      RecvOpsHas(Posts3(ins, p, |ins.members|), RecvBack(s, g));
      assert ChanOk(ins, st, s, p) && WaitOk(ins, st, p) && ChanValues(ins, st, s, p);
      assert Code(ins, p)[..|Code(ins, p)|] == Code(ins, p);
      var ops := RecvOps(Code(ins, p), s);
      assert RecvBack(s, g) in ops;
      var k :| 0 <= k < |ops| && ops[k] == RecvBack(s, g);
      assert Good(ins, st.mem[p], Target(st.chan[s][p].posted[k]));
    }
  }

  /** The result of the collective. For every interleaving, whether sends are buffered or
      synchronous: once all processes are through, every member of every group holds the
      left fold of the members' blocks in ascending rank, starting from the root's own: the last of
      the partial results that accumulate member by member. */
  lemma AllreduceIsCorrect<B>(ins: Instance<B>, states: seq<State<B>>, synchronous: bool, p: nat, g: nat)
    requires ins.Valid() && WellAddressed(ins) && Run(ins, states, synchronous)
    requires Final(ins, states[|states| - 1])
    requires p < ins.n && ins.Member(p, g)
    ensures var mem := states[|states| - 1].mem[p]; Buf(g) in mem && mem[Buf(g)] == ins.Result(g)
    ensures exists acc :: PartialResults(ins, g, acc)
                          && states[|states| - 1].mem[p][Buf(g)] == acc[|ins.members[g]| - 1]
  {
    var acc := ResultAccumulates(ins, g);
    hide Inv, Run, Final, ins.Result, WellAddressed;
    LastShape(ins, states, synchronous);
    RunInv(ins, states, synchronous, |states| - 1);
    FinishedMember(ins, states[|states| - 1], p, g);
  }

  lemma LastShape<B>(ins: Instance<B>, states: seq<State<B>>, synchronous: bool)
    requires ins.Valid() && Run(ins, states, synchronous)
    ensures |states| > 0 && Shape(ins.n, states[|states| - 1])
  {}

  // ---- termination -----------------------------------------------------------

  function Total(s: seq<nat>): nat {
    if |s| == 0 then 0 else Total(s[..|s| - 1]) + s[|s| - 1]
  }

  lemma {:induction false} TotalUpdate(s: seq<nat>, t: seq<nat>, i: nat)
    requires |s| == |t| && i < |s| && forall j :: 0 <= j < |s| && j != i ==> s[j] == t[j]
    ensures Total(s) + t[i] == Total(t) + s[i]
  {
    var n := |s| - 1;
    if i == n {
      assert s[..n] == t[..n];
    } else {
      TotalUpdate(s[..n], t[..n], i);
    }
  }

  /** Statements left to execute. */
  ghost function Remaining<B>(ins: Instance<B>, st: State<B>): (r: seq<nat>)
    requires ins.Valid() && Bounded(ins, st)
    ensures |r| == ins.n && forall p :: 0 <= p < ins.n ==> r[p] == |Code(ins, p)| - st.pc[p]
  { seq(ins.n, p requires 0 <= p < ins.n => |Code(ins, p)| - st.pc[p]) }

  /** Messages on their way. */
  function InFlight<B>(c: Channel<B>): nat { if c.done <= |c.sent| then |c.sent| - c.done else 0 }

  function Row<B>(cs: seq<Channel<B>>): (r: seq<nat>)
    ensures |r| == |cs| && forall d :: 0 <= d < |cs| ==> r[d] == InFlight(cs[d])
  { seq(|cs|, d requires 0 <= d < |cs| => InFlight(cs[d])) }

  function Rows<B>(st: State<B>): (r: seq<nat>)
    ensures |r| == |st.chan| && forall s :: 0 <= s < |r| ==> r[s] == Total(Row(st.chan[s]))
  { seq(|st.chan|, s requires 0 <= s < |st.chan| => Total(Row(st.chan[s]))) }

  ghost function Measure<B>(ins: Instance<B>, st: State<B>): nat
    requires ins.Valid() && Bounded(ins, st)
  { 2 * Total(Remaining(ins, st)) + Total(Rows(st)) }

  lemma ChanUpdate<B>(st: State<B>, st': State<B>, s: nat, d: nat, c: Channel<B>)
    requires s < |st.chan| && d < |st.chan[s]| && st'.chan == SetChan(st, s, d, c).chan
    ensures Total(Rows(st')) + InFlight(st.chan[s][d]) == Total(Rows(st)) + InFlight(c)
  {
    hide Total;
    TotalUpdate(Row(st.chan[s]), Row(st'.chan[s]), d);
    TotalUpdate(Rows(st), Rows(st'), s);
  }

  lemma PcUpdate<B>(ins: Instance<B>, st: State<B>, st': State<B>, p: nat)
    requires ins.Valid() && Bounded(ins, st) && Bounded(ins, st') && p < ins.n && st'.pc == Advance(st, p).pc
    ensures Total(Remaining(ins, st')) == Total(Remaining(ins, st)) - 1
  {
    hide Total, Code;
    TotalUpdate(Remaining(ins, st), Remaining(ins, st'), p);
  }

  /** Every step of every process and every delivery lowers the measure. */
  lemma StepDecreases<B>(ins: Instance<B>, st: State<B>, st': State<B>, synchronous: bool)
    requires ins.Valid() && Control(ins, st) && Control(ins, st') && Step(ins, st, st', synchronous)
    ensures Measure(ins, st') < Measure(ins, st)
  {
    hide ChanOk, WaitOk, Total, Code, Remaining, Rows;
    if s: nat, d: nat :| Deliver(ins, st, st', s, d) {
      assert Remaining(ins, st') == Remaining(ins, st) by { SamePc(ins, st, st'); }
      ChanUpdate(st, st', s, d, st.chan[s][d].(done := st.chan[s][d].done + 1));
    } else if p: nat, op :| PostSend(ins, st, st', p, op) {
      PcUpdate(ins, st, st', p);
      var c := st.chan[p][op.dst];
      ChanUpdate(st, st', p, op.dst, c.(sent := c.sent + [Payload(ins, st.mem[p], p, op)]));
    } else if p: nat, op :| PostRecv(ins, st, st', p, op) {
      PcUpdate(ins, st, st', p);
      ChanUpdate(st, st', op.src, p, st.chan[op.src][p].(posted := st.chan[op.src][p].posted + [op]));
    } else if p: nat :| PassWait(ins, st, st', p, synchronous) {
      PcUpdate(ins, st, st', p);
      SameRows(st, st');
    } else {
      var p: nat :| DoReduce(ins, st, st', p);
      PcUpdate(ins, st, st', p);
      SameRows(st, st');
    }
  }

  lemma SamePc<B>(ins: Instance<B>, st: State<B>, st': State<B>)
    requires ins.Valid() && Bounded(ins, st) && Bounded(ins, st') && st.pc == st'.pc
    ensures Remaining(ins, st') == Remaining(ins, st)
  { hide Code; }

  lemma SameRows<B>(st: State<B>, st': State<B>)
    requires st.chan == st'.chan
    ensures Rows(st') == Rows(st)
  {}

  /** No run is longer than the measure of its first state: every run ends. */
  lemma {:induction false} RunsAreFinite<B>(ins: Instance<B>, states: seq<State<B>>, synchronous: bool, i: nat)
    requires ins.Valid() && WellAddressed(ins) && Run(ins, states, synchronous) && i < |states|
    ensures Inv(ins, states[0]) && Inv(ins, states[i])
    ensures i + Measure(ins, states[i]) <= Measure(ins, states[0])
  {
    hide Init, Step, Inv, Measure, WellAddressed;
    RunInv(ins, states, synchronous, 0);
    RunInv(ins, states, synchronous, i);
    InvBounded(ins, states[0]);
    InvBounded(ins, states[i]);
    if i > 0 {
      RunsAreFinite(ins, states, synchronous, i - 1);
      InvBounded(ins, states[i - 1]);
      StepDecreases(ins, states[i - 1], states[i], synchronous);
    }
  }

  lemma InvBounded<B>(ins: Instance<B>, st: State<B>)
    requires ins.Valid() && Inv(ins, st)
    ensures Control(ins, st) && Bounded(ins, st)
  {}

  // ---- progress ----------------------------------------------------------------

  ghost predicate Enabled<B(!new)>(ins: Instance<B>, st: State<B>)
    requires ins.Valid() && Shape(ins.n, st)
  { exists st' :: Shape(ins.n, st') && Step(ins, st, st', true) }

  lemma Enable<B(!new)>(ins: Instance<B>, st: State<B>, st': State<B>)
    requires ins.Valid() && Shape(ins.n, st) && Shape(ins.n, st') && Step(ins, st, st', true)
    ensures Enabled(ins, st)
  {}

  /** A process that is not waiting can execute its next statement. */
  lemma BusyEnabled<B(!new)>(ins: Instance<B>, st: State<B>, p: nat)
    requires ins.Valid() && WellAddressed(ins) && Inv(ins, st) && p < ins.n
    requires st.pc[p] < |Code(ins, p)| && Code(ins, p)[st.pc[p]] != Wait
    ensures Enabled(ins, st)
  {
    hide Code, Step, Inv, ins.Result, WellAddressed;
    InvBounded(ins, st);
    var op := Code(ins, p)[st.pc[p]];
    CodeAt(ins, p, st.pc[p]);
    if op == Reduce {
      ReduceEnabled(ins, st, p);
    } else {
      AddressesExist(ins, p, op);
      if IsSend(op) {
        SendReady(ins, st, p, op);
        var c := st.chan[p][op.dst];
        var st' := SetChan(Advance(st, p), p, op.dst, c.(sent := c.sent + [Payload(ins, st.mem[p], p, op)]));
        assert PostSend(ins, st, st', p, op);
        StepIntro(ins, st, st', p, op);
      } else {
        var c := st.chan[op.src][p];
        var st' := SetChan(Advance(st, p), op.src, p, c.(posted := c.posted + [op]));
        assert PostRecv(ins, st, st', p, op);
        StepIntro(ins, st, st', p, op);
      }
    }
  }

  lemma StepIntro<B(!new)>(ins: Instance<B>, st: State<B>, st': State<B>, p: nat, op: Op)
    requires ins.Valid() && Shape(ins.n, st) && Shape(ins.n, st')
    requires || PostSend(ins, st, st', p, op) || PostRecv(ins, st, st', p, op)
             || PassWait(ins, st, st', p, true) || DoReduce(ins, st, st', p)
    ensures Enabled(ins, st)
  {
    hide PostSend, PostRecv, PassWait, DoReduce, Deliver;
    Enable(ins, st, st');
  }

  lemma AddressesExist<B(!new)>(ins: Instance<B>, p: nat, op: Op)
    requires ins.Valid() && WellAddressed(ins) && (Post1(ins, p, op) || Post3(ins, p, op))
    ensures IsSend(op) ==> op.dst < ins.n
    ensures IsRecv(op) ==> op.src < ins.n
  { assert GroupAddressed(ins.addr, ins.members[op.grp]) && ValidGroup(ins.members[op.grp], ins.n); }

  lemma SendReady<B>(ins: Instance<B>, st: State<B>, p: nat, op: Op)
    requires ins.Valid() && Inv(ins, st) && Current(ins, st, p, op) && IsSend(op)
    ensures Ready(st.mem[p], op)
  {
    hide Code, ins.Result;
    CodeAt(ins, p, st.pc[p]);
    assert RootsDone(ins, st, p);
    if op.SendBack? { assert ins.Root(p, op.grp) && Good(ins, st.mem[p], Buf(op.grp)); }
  }

  lemma ReduceEnabled<B(!new)>(ins: Instance<B>, st: State<B>, p: nat)
    requires ins.Valid() && WellAddressed(ins) && Inv(ins, st) && p < ins.n
    requires st.pc[p] < |Code(ins, p)| && Code(ins, p)[st.pc[p]] == Reduce
    ensures Enabled(ins, st)
  {
    hide Code, Control, Values, Step, ins.Result, Reduced, WellAddressed, Good;
    InvBounded(ins, st);
    ReduceIsLate(ins, p, st.pc[p]);
    var mem := st.mem[p];
    var mem' := mem + (map g: nat | 0 <= g < |ins.members| && ins.Root(p, g) :: Buf(g) := ins.Result(g));
    forall g: nat | ins.Root(p, g)
      ensures Received(mem, g, |ins.members[g]|) && Buf(g) in mem' && mem'[Buf(g)] == Reduced(ins, mem, p, g)
    {
      forall pos | 0 < pos < |ins.members[g]| ensures Good(ins, mem, Val(g, pos)) {
        BlocksArrived(ins, st, p, g, pos);
      }
      ReducedIsResult(ins, mem, p, g);
    }
    ShapeOf(ins, st);
    var st' := Advance(st, p).(mem := st.mem[p := mem']);
    assert DoReduce(ins, st, st', p);
    StepIntro(ins, st, st', p, Reduce);
  }

  lemma ShapeOf<B(!new)>(ins: Instance<B>, st: State<B>)
    requires ins.Valid() && Bounded(ins, st)
    ensures Shape(ins.n, st)
  {}

  ghost predicate Deliverable<B>(c: Channel<B>) { c.done < |c.sent| && c.done < |c.posted| }

  lemma DeliverEnabled<B(!new)>(ins: Instance<B>, st: State<B>, s: nat, d: nat)
    requires ins.Valid() && WellAddressed(ins) && Inv(ins, st) && s < ins.n && d < ins.n
    requires Deliverable(st.chan[s][d])
    ensures Enabled(ins, st)
  {
    hide Code, ChanOk, WaitOk, Values, PostSend, PostRecv, PassWait, DoReduce, ins.Result, WellAddressed;
    DeliveredBlock(ins, st, s, d);
    var c := st.chan[s][d];
    var st' := SetChan(st, s, d, c.(done := c.done + 1))
                 .(mem := st.mem[d := st.mem[d][Target(c.posted[c.done]) := c.sent[c.done]]]);
    assert Deliver(ins, st, st', s, d);
    Enable(ins, st, st');
  }

  /** If nothing can be delivered and all programs stand at or behind some common wait, the
      channel between two processes is drained as far as that wait asks. */
  lemma Drained<B(!new)>(ins: Instance<B>, st: State<B>, s: nat, d: nat)
    requires ins.Valid() && WellAddressed(ins) && Inv(ins, st) && s < ins.n && d < ins.n
    requires !Deliverable(st.chan[s][d]) && st.pc[s] >= W1(ins, s) && st.pc[d] >= W1(ins, d)
    ensures st.pc[d] == W1(ins, d) ==> st.chan[s][d].done == |st.chan[s][d].posted|
    ensures st.pc[s] == W1(ins, s) ==> st.chan[s][d].done == |st.chan[s][d].sent|
  {
    hide Code, SendOps, RecvOps, Posts1, Values;
    assert ChanOk(ins, st, s, d);
    ProgramsMatch(ins, s, d);
    var cs, cd := Code(ins, s)[..st.pc[s]], Code(ins, d)[..st.pc[d]];
    CodeLong(ins, s);
    CodeLong(ins, d);
    CodeAt(ins, s, W1(ins, s));
    CodeAt(ins, d, W1(ins, d));
    OpsPrefix(cs, W1(ins, s), d);
    OpsPrefix(cd, W1(ins, d), s);
    assert cs[..W1(ins, s)] == Code(ins, s)[..W1(ins, s)] && cd[..W1(ins, d)] == Code(ins, d)[..W1(ins, d)];
  }

  lemma DrainedAtEnd<B(!new)>(ins: Instance<B>, st: State<B>, s: nat, d: nat)
    requires ins.Valid() && WellAddressed(ins) && Inv(ins, st) && s < ins.n && d < ins.n
    requires !Deliverable(st.chan[s][d]) && st.pc[s] >= |Code(ins, s)| - 1 && st.pc[d] >= |Code(ins, d)| - 1
    ensures st.chan[s][d].done == |st.chan[s][d].posted| == |st.chan[s][d].sent|
  {
    hide Code, SendOps, RecvOps, Posts1, Values;
    assert ChanOk(ins, st, s, d);
    ProgramsMatch(ins, s, d);
    LastPostsNothing(ins, s, d, st.pc[s]);
    LastPostsNothing(ins, d, s, st.pc[d]);
  }

  lemma LastPostsNothing<B(!new)>(ins: Instance<B>, p: nat, q: nat, i: nat)
    requires ins.Valid() && |Code(ins, p)| - 1 <= i <= |Code(ins, p)|
    ensures SendOps(Code(ins, p)[..i], q) == SendOps(Code(ins, p), q)
    ensures RecvOps(Code(ins, p)[..i], q) == RecvOps(Code(ins, p), q)
  {
    hide Code, SendOps, RecvOps;
    var c := Code(ins, p);
    CodeLong(ins, p);
    CodeAt(ins, p, |c| - 1);
    PrefixStep(c, |c| - 1, q);
    assert c[..|c|] == c;
  }

  /** Waiting processes get on: there is no deadlock, even with synchronous sends. */
  lemma WaitEnabled<B(!new)>(ins: Instance<B>, st: State<B>, p: nat)
    requires ins.Valid() && WellAddressed(ins) && Inv(ins, st) && p < ins.n && st.pc[p] < |Code(ins, p)|
    requires forall q :: 0 <= q < ins.n ==> AtWait(ins, st, q)
    requires forall s, d :: 0 <= s < ins.n && 0 <= d < ins.n ==> !Deliverable(st.chan[s][d])
    requires st.pc[p] == W1(ins, p) || forall q :: 0 <= q < ins.n ==> st.pc[q] >= |Code(ins, q)| - 1
    ensures Enabled(ins, st)
  {
    hide Code, Posts1, Inv, Control, Values, Deliverable, WellAddressed;
    InvBounded(ins, st);
    ShapeOf(ins, st);
    forall q | 0 <= q < ins.n
      ensures st.chan[q][p].done == |st.chan[q][p].posted| && st.chan[p][q].done == |st.chan[p][q].sent|
    {
      if st.pc[p] == W1(ins, p) {
        CodeLong(ins, q);
        assert AtWait(ins, st, q);
        Drained(ins, st, q, p);
        Drained(ins, st, p, q);
      } else {
        DrainedAtEnd(ins, st, q, p);
        DrainedAtEnd(ins, st, p, q);
      }
    }
    CodeAt(ins, p, st.pc[p]);
    var st' := Advance(st, p);
    assert PassWait(ins, st, st', p, true);
    StepIntro(ins, st, st', p, Wait);
  }

  ghost predicate AtWait<B(!new)>(ins: Instance<B>, st: State<B>, q: nat)
    requires ins.Valid() && Bounded(ins, st) && q < ins.n
  { st.pc[q] == W1(ins, q) || st.pc[q] >= |Code(ins, q)| - 1 }

  /** As long as some process is not through, some step is possible. */
  lemma NeverStuck<B(!new)>(ins: Instance<B>, st: State<B>)
    requires ins.Valid() && WellAddressed(ins) && Inv(ins, st) && !Final(ins, st)
    ensures Enabled(ins, st)
  {
    hide Code, Posts1, Inv, Control, Values, Deliverable, WellAddressed, Enabled;
    InvBounded(ins, st);
    ShapeOf(ins, st);
    if q :| 0 <= q < ins.n && !AtWait(ins, st, q) {
      CodeAt(ins, q, st.pc[q]);
      BusyEnabled(ins, st, q);
    } else if s, d :| 0 <= s < ins.n && 0 <= d < ins.n && Deliverable(st.chan[s][d]) {
      DeliverEnabled(ins, st, s, d);
    } else if p :| 0 <= p < ins.n && st.pc[p] == W1(ins, p) {
      CodeLong(ins, p);
      WaitEnabled(ins, st, p);
    } else {
      assert forall q :: 0 <= q < ins.n ==> AtWait(ins, st, q) && st.pc[q] != W1(ins, q);
      assert forall q :: 0 <= q < ins.n ==> st.pc[q] >= |Code(ins, q)| - 1;
      var p :| 0 <= p < ins.n && st.pc[p] < |Code(ins, p)|;
      WaitEnabled(ins, st, p);
    }
  }

  // ---- completion ---------------------------------------------------------------

  /** A step that is possible with synchronous sends is possible with buffered ones. */
  lemma SynchronousIsStricter<B(!new)>(ins: Instance<B>, st: State<B>, st': State<B>, synchronous: bool)
    requires ins.Valid() && Shape(ins.n, st) && Step(ins, st, st', true)
    ensures Step(ins, st, st', synchronous)
  {
    hide Code, PostSend, PostRecv, DoReduce, Deliver;
    if p: nat :| PassWait(ins, st, st', p, true) { assert PassWait(ins, st, st', p, synchronous); }
  }

  /** Any state a run has reached can be continued to the end. */
  lemma {:induction false} RunCompletes<B(!new)>(ins: Instance<B>, states: seq<State<B>>, synchronous: bool)
      returns (full: seq<State<B>>)
    requires ins.Valid() && WellAddressed(ins) && Run(ins, states, synchronous)
    requires Inv(ins, states[|states| - 1])
    ensures Run(ins, full, synchronous) && states <= full && Final(ins, full[|full| - 1])
    decreases Measure(ins, states[|states| - 1])
  {
    hide Code, Step, Init, Inv, Measure, WellAddressed, Final, Enabled;
    var last := states[|states| - 1];
    if Final(ins, last) {
      full := states;
    } else {
      NeverStuck(ins, last);
      var next := Successor(ins, last);
      SynchronousIsStricter(ins, last, next, synchronous);
      InvStep(ins, last, next, synchronous);
      InvBounded(ins, last);
      InvBounded(ins, next);
      StepDecreases(ins, last, next, synchronous);
      full := RunCompletes(ins, states + [next], synchronous);
    }
  }

  lemma Successor<B(!new)>(ins: Instance<B>, st: State<B>) returns (st': State<B>)
    requires ins.Valid() && Shape(ins.n, st) && Enabled(ins, st)
    ensures Shape(ins.n, st') && Step(ins, st, st', true)
  {
    hide Step;
    st' :| Shape(ins.n, st') && Step(ins, st, st', true);
  }

  /** Some run from st leads to the end. */
  ghost predicate CanFinish<B(!new)>(ins: Instance<B>, st: State<B>, synchronous: bool)
    requires ins.Valid()
  {
    exists states: seq<State<B>> ::
      Run(ins, states, synchronous) && states[0] == st && Final(ins, states[|states| - 1])
  }

  lemma WellAddressedFinishes<B(!new)>(ins: Instance<B>, st: State<B>, synchronous: bool)
    requires ins.Valid() && WellAddressed(ins) && Init(ins.n, st)
    ensures CanFinish(ins, st, synchronous)
  {
    hide Init, Step, Inv, WellAddressed, Final;
    InvInit(ins, st);
    InvBounded(ins, st);
    ShapeOf(ins, st);
    assert Run(ins, [st], synchronous);
    var full := RunCompletes(ins, [st], synchronous);
    assert full[0] == st;
  }

  // ---- wrong addresses ------------------------------------------------------------

  /** A statement behind the program counter was posted towards an existing rank. */
  ghost predicate Passed<B>(ins: Instance<B>, st: State<B>, p: nat)
    requires ins.Valid() && Bounded(ins, st) && p < ins.n
  { forall i :: 0 <= i < st.pc[p] && IsRecv(Code(ins, p)[i]) ==> Code(ins, p)[i].src < ins.n }

  lemma PassedStep<B(!new)>(ins: Instance<B>, st: State<B>, st': State<B>, synchronous: bool, q: nat)
    requires ins.Valid() && Bounded(ins, st) && Bounded(ins, st') && Step(ins, st, st', synchronous) && q < ins.n
    requires Passed(ins, st, q)
    ensures Passed(ins, st', q)
  { hide Code; }

  lemma {:induction false} RunControl<B(!new)>(ins: Instance<B>, states: seq<State<B>>, synchronous: bool, i: nat,
                                               q: nat)
    requires ins.Valid() && Run(ins, states, synchronous) && i < |states| && q < ins.n
    ensures Control(ins, states[i]) && Passed(ins, states[i], q)
  {
    hide Init, Step, Control, Passed, Code;
    if i == 0 {
      ControlInit(ins, states[0]);
      ControlBounded(ins, states[0]);
      NothingPassed(ins, states[0], q);
    } else {
      RunControl(ins, states, synchronous, i - 1, q);
      ControlStep(ins, states[i - 1], states[i], synchronous);
      ControlBounded(ins, states[i - 1]);
      ControlBounded(ins, states[i]);
      PassedStep(ins, states[i - 1], states[i], synchronous, q);
    }
  }

  lemma NothingPassed<B>(ins: Instance<B>, st: State<B>, q: nat)
    requires ins.Valid() && Bounded(ins, st) && Init(ins.n, st) && q < ins.n
    ensures Passed(ins, st, q)
  {}

  lemma ControlBounded<B>(ins: Instance<B>, st: State<B>)
    requires ins.Valid() && Control(ins, st)
    ensures Bounded(ins, st) && Shape(ins.n, st)
  {}

  /** An ascending address list never points downwards, and once off it stays off. */
  lemma {:induction false} AscendingDrift(addr: seq<nat>, r: nat, x: nat)
    requires Ascending(addr) && r <= x < |addr|
    ensures addr[x] - x >= addr[r] - r
    ensures addr[r] >= r
    decreases r + x
  {
    if r < x {
      AscendingDrift(addr, r, x - 1);
    } else if r > 0 {
      AscendingDrift(addr, r - 1, r - 1);
    }
  }

  /** A process outside all shared groups posts nothing. */
  lemma OutsiderSilent<B>(ins: Instance<B>, x: nat, d: nat)
    requires ins.Valid()
    requires forall g: nat :: ins.Member(x, g) ==> |ins.members[g]| <= 1
    ensures SendOps(Code(ins, x), d) == []
  {
    hide SendOps, RecvOps;
    PostsSilent(ins, x, |ins.members|);
    CodeOps(ins, x, d);
    NothingSent(d);
  }

  lemma NothingSent(d: nat)
    ensures SendOps([], d) == []
  {}

  lemma {:induction false} PostsSilent<B>(ins: Instance<B>, x: nat, n: nat)
    requires ins.Valid() && n <= |ins.members|
    requires forall g: nat :: ins.Member(x, g) ==> |ins.members[g]| <= 1
    ensures Posts1(ins, x, n) == [] == Posts3(ins, x, n)
  {
    if n > 0 {
      PostsSilent(ins, x, n - 1);
      assert ins.Member(x, n - 1) || x !in ins.members[n - 1];
    }
  }

  /** If the last member of a shared group is misaddressed, its root waits forever. */
  lemma MisaddressedNeverFinishes<B(!new)>(ins: Instance<B>, states: seq<State<B>>, synchronous: bool, g: nat, pos: nat)
    requires ins.Valid() && Ascending(ins.addr) && Run(ins, states, synchronous)
    requires g < |ins.members| && |ins.members[g]| > 1 && pos < |ins.members[g]|
    requires ins.addr[ins.members[g][pos]] != ins.members[g][pos]
    requires forall h: nat, m: nat :: h < |ins.members| && |ins.members[h]| > 1 && m in ins.members[h] ==>
               m <= ins.members[g][pos]
    ensures !Final(ins, states[|states| - 1])
  {
    hide Init, Step, SendOps, RecvOps, Posts3, Ascending;
    var ms := ins.members[g];
    var o, r, x := ms[0], ms[pos], ins.addr[ms[pos]];
    var last := states[|states| - 1];
    AscendingDrift(ins.addr, r, r);
    GroupEdges(ins, g, pos);
    RunControl(ins, states, synchronous, |states| - 1, o);
    if Final(ins, last) {
      var op := Recv(x, g, pos);
      Posts1Has(ins, o, |ins.members|, g, pos);
      CodeAt(ins, o, W1(ins, o));
      CodeLong(ins, o);
      var i :| 0 <= i < |Posts1(ins, o, |ins.members|)| && Posts1(ins, o, |ins.members|)[i] == op;
      assert Code(ins, o)[i] == op;
      assert x < ins.n;
      forall h: nat | ins.Member(x, h) ensures |ins.members[h]| <= 1 {}
      assert ChanOk(ins, last, x, o) && WaitOk(ins, last, o);
      assert Code(ins, x)[..|Code(ins, x)|] == Code(ins, x);
      OutsiderSilent(ins, x, o);
      RecvOpsHas(Code(ins, o), op);
    }
  }

  lemma GroupEdges<B>(ins: Instance<B>, g: nat, pos: nat)
    requires ins.Valid() && g < |ins.members| && |ins.members[g]| > 1 && pos < |ins.members[g]|
    requires forall m: nat :: m in ins.members[g] ==> m <= ins.members[g][pos]
    ensures pos > 0 && ins.members[g][0] < ins.n && ins.members[g][pos] < ins.n
    ensures ins.Root(ins.members[g][0], g)
  {
    assert ins.members[g][1] in ins.members[g];
  }

  ghost predicate Misaddressed<B>(ins: Instance<B>, g: nat, pos: nat)
    requires ins.Valid()
  {
    && g < |ins.members| && |ins.members[g]| > 1 && pos < |ins.members[g]|
    && ins.addr[ins.members[g][pos]] != ins.members[g][pos]
  }

  /** Among the misaddressed members there is one above every member of any shared group. */
  lemma {:induction false} LastMisaddressed<B>(ins: Instance<B>, g: nat, pos: nat) returns (g': nat, pos': nat)
    requires ins.Valid() && Ascending(ins.addr) && Misaddressed(ins, g, pos)
    ensures Misaddressed(ins, g', pos')
    ensures forall h: nat, m: nat :: h < |ins.members| && |ins.members[h]| > 1 && m in ins.members[h] ==>
              m <= ins.members[g'][pos']
    decreases ins.n - ins.members[g][pos]
  {
    hide Ascending;
    var r := ins.members[g][pos];
    if h: nat, m: nat :| h < |ins.members| && |ins.members[h]| > 1 && m in ins.members[h] && m > r {
      var q :| 0 <= q < |ins.members[h]| && ins.members[h][q] == m;
      AscendingDrift(ins.addr, r, m);
      g', pos' := LastMisaddressed(ins, h, q);
    } else {
      g', pos' := g, pos;
    }
  }

  /** On a communicator whose process list is ascending (as create_sub_communicator builds
      it), allreduce can finish exactly if no group of two or more processes has a member
      whose global rank differs from its rank in the communicator. */
  lemma AllreduceFinishesIff<B(!new)>(ins: Instance<B>, st: State<B>, synchronous: bool)
    requires ins.Valid() && Ascending(ins.addr) && Init(ins.n, st)
    ensures CanFinish(ins, st, synchronous) <==> WellAddressed(ins)
  {
    hide Init, Step, Ascending;
    if WellAddressed(ins) {
      WellAddressedFinishes(ins, st, synchronous);
    } else {
      var g :| 0 <= g < |ins.members| && !GroupAddressed(ins.addr, ins.members[g]);
      var pos :| 0 <= pos < |ins.members[g]| && ins.addr[ins.members[g][pos]] != ins.members[g][pos];
      var g', pos' := LastMisaddressed(ins, g, pos);
      forall states: seq<State<B>> | Run(ins, states, synchronous) && states[0] == st
        ensures !Final(ins, states[|states| - 1])
      {
        MisaddressedNeverFinishes(ins, states, synchronous, g', pos');
      }
    }
  }
}
