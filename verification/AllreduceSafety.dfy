/** What every step of every interleaving keeps, and what therefore holds when a run ends. */
module AllreduceSafety {
  import opened AllreduceModel
  import opened AllreduceMatching

  function W1<B>(ins: Instance<B>, p: nat): nat
    requires ins.Valid()
  { |Posts1(ins, p, |ins.members|)| }

  /** The layout of a program: posts, wait, reduction, posts, wait. */
  lemma CodeAt<B>(ins: Instance<B>, p: nat, i: nat)
    requires ins.Valid() && i < |Code(ins, p)|
    ensures i < W1(ins, p) ==> Post1(ins, p, Code(ins, p)[i])
    ensures i == W1(ins, p) ==> Code(ins, p)[i] == Wait
    ensures i == W1(ins, p) + 1 ==> Code(ins, p)[i] == Reduce
    ensures W1(ins, p) + 1 < i < |Code(ins, p)| - 1 ==> Post3(ins, p, Code(ins, p)[i])
    ensures i == |Code(ins, p)| - 1 ==> Code(ins, p)[i] == Wait
    ensures W1(ins, p) + 2 < |Code(ins, p)|
    ensures Code(ins, p)[..W1(ins, p)] == Posts1(ins, p, |ins.members|)
  {
    hide Posts1, Posts3, Post1, Post3, ins.Valid;
    var n := |ins.members|;
    var a, c := Posts1(ins, p, n), Posts3(ins, p, n);
    assert Code(ins, p) == a + ([Wait, Reduce] + c + [Wait]);
    if i < |a| {
      PostsBelong(ins, p, n, i);
    } else if |a| + 1 < i < |Code(ins, p)| - 1 {
      PostsBelong(ins, p, n, i - |a| - 2);
    }
  }

  lemma CodeLong<B>(ins: Instance<B>, p: nat)
    requires ins.Valid()
    ensures W1(ins, p) + 2 < |Code(ins, p)|
  { hide Posts1, Posts3; }

  lemma PrefixStep(c: seq<Op>, i: nat, q: nat)
    requires i < |c|
    ensures SendOps(c[..i + 1], q) == SendOps(c[..i], q) + (if IsSend(c[i]) && c[i].dst == q then [c[i]] else [])
    ensures RecvOps(c[..i + 1], q) == RecvOps(c[..i], q) + (if IsRecv(c[i]) && c[i].src == q then [c[i]] else [])
  { assert c[..i + 1][..i] == c[..i]; }

  // ---- control: channels follow the programs --------------------------------

  /** Channel (s, d) holds one message for every send s has passed and exactly the receives
      d has passed. */
  ghost predicate ChanFollows(cs: seq<Op>, cd: seq<Op>, s: nat, d: nat, sent: nat, posted: seq<Op>, done: nat) {
    && sent == |SendOps(cs, d)|
    && posted == RecvOps(cd, s)
    && done <= sent && done <= |posted|
  }

  ghost predicate ChanOk<B>(ins: Instance<B>, st: State<B>, s: nat, d: nat)
    requires ins.Valid() && Bounded(ins, st) && s < ins.n && d < ins.n
  {
    var c := st.chan[s][d];
    ChanFollows(Code(ins, s)[..st.pc[s]], Code(ins, d)[..st.pc[d]], s, d, |c.sent|, c.posted, c.done)
  }

  /** A process behind a wait has received everything it had posted before. */
  ghost predicate WaitOk<B>(ins: Instance<B>, st: State<B>, p: nat)
    requires ins.Valid() && Bounded(ins, st) && p < ins.n
  {
    forall s :: 0 <= s < ins.n ==>
      && (st.pc[p] > W1(ins, p) ==> |RecvOps(Posts1(ins, p, |ins.members|), s)| <= st.chan[s][p].done)
      && (st.pc[p] == |Code(ins, p)| ==> |RecvOps(Code(ins, p), s)| <= st.chan[s][p].done)
  }

  ghost predicate Bounded<B>(ins: Instance<B>, st: State<B>)
    requires ins.Valid()
  { Shape(ins.n, st) && forall p :: 0 <= p < ins.n ==> st.pc[p] <= |Code(ins, p)| }

  ghost predicate Control<B>(ins: Instance<B>, st: State<B>)
    requires ins.Valid()
  {
    && Bounded(ins, st)
    && (forall s, d :: 0 <= s < ins.n && 0 <= d < ins.n ==> ChanOk(ins, st, s, d))
    && (forall p :: 0 <= p < ins.n ==> WaitOk(ins, st, p))
  }

  lemma ControlInit<B>(ins: Instance<B>, st: State<B>)
    requires ins.Valid() && Init(ins.n, st)
    ensures Control(ins, st)
  {
    forall s, d | 0 <= s < ins.n && 0 <= d < ins.n ensures ChanOk(ins, st, s, d) {
      assert Code(ins, s)[..0] == [] && Code(ins, d)[..0] == [];
    }
  }

  lemma PostSendChan<B>(ins: Instance<B>, st: State<B>, st': State<B>, p: nat, op: Op, s: nat, d: nat)
    requires ins.Valid() && Bounded(ins, st) && Bounded(ins, st') && s < ins.n && d < ins.n
    requires PostSend(ins, st, st', p, op) && ChanOk(ins, st, s, d)
    ensures ChanOk(ins, st', s, d)
  {
    hide Code, SendOps, RecvOps;
    PrefixStep(Code(ins, p), st.pc[p], d);
    PrefixStep(Code(ins, p), st.pc[p], s);
  }

  lemma PostRecvChan<B>(ins: Instance<B>, st: State<B>, st': State<B>, p: nat, op: Op, s: nat, d: nat)
    requires ins.Valid() && Bounded(ins, st) && Bounded(ins, st') && s < ins.n && d < ins.n
    requires PostRecv(ins, st, st', p, op) && ChanOk(ins, st, s, d)
    ensures ChanOk(ins, st', s, d)
  {
    hide Code, SendOps, RecvOps;
    PrefixStep(Code(ins, p), st.pc[p], d);
    PrefixStep(Code(ins, p), st.pc[p], s);
  }

  /** A local statement posts nothing. */
  lemma LocalChan<B>(ins: Instance<B>, st: State<B>, st': State<B>, p: nat, op: Op, s: nat, d: nat)
    requires ins.Valid() && Bounded(ins, st) && Bounded(ins, st') && s < ins.n && d < ins.n
    requires Current(ins, st, p, op) && !IsSend(op) && !IsRecv(op)
    requires st'.pc == Advance(st, p).pc && st'.chan == st.chan && ChanOk(ins, st, s, d)
    ensures ChanOk(ins, st', s, d)
  {
    hide Code, SendOps, RecvOps;
    PrefixStep(Code(ins, p), st.pc[p], d);
    PrefixStep(Code(ins, p), st.pc[p], s);
  }

  /** Only a wait moves a process behind a wait. */
  lemma WaitStays<B>(ins: Instance<B>, st: State<B>, st': State<B>, p: nat, q: nat)
    requires ins.Valid() && Bounded(ins, st) && Bounded(ins, st') && p < ins.n && q < ins.n
    requires st.pc[p] < |Code(ins, p)| && Code(ins, p)[st.pc[p]] != Wait && st'.pc == Advance(st, p).pc
    requires forall s :: 0 <= s < ins.n ==> st.chan[s][q].done <= st'.chan[s][q].done
    requires WaitOk(ins, st, q)
    ensures WaitOk(ins, st', q)
  {
    hide Code, RecvOps, Posts1;
    CodeAt(ins, p, st.pc[p]);
  }

  lemma WaitPassed<B>(ins: Instance<B>, st: State<B>, st': State<B>, p: nat, synchronous: bool)
    requires ins.Valid() && Control(ins, st) && PassWait(ins, st, st', p, synchronous) && Bounded(ins, st')
    ensures WaitOk(ins, st', p)
  {
    hide Code, RecvOps, Posts1, SendOps;
    var c := Code(ins, p);
    forall s | 0 <= s < ins.n
      ensures st'.pc[p] > W1(ins, p) ==> |RecvOps(Posts1(ins, p, |ins.members|), s)| <= st'.chan[s][p].done
      ensures st'.pc[p] == |c| ==> |RecvOps(c, s)| <= st'.chan[s][p].done
    {
      assert ChanOk(ins, st, s, p);
      CodeAt(ins, p, st.pc[p]);
      PrefixStep(c, st.pc[p], s);
      if st.pc[p] >= W1(ins, p) {
        OpsPrefix(c[..st.pc[p]], W1(ins, p), s);
        assert c[..st.pc[p]][..W1(ins, p)] == c[..W1(ins, p)];
      }
      assert c[..|c|] == c;
    }
  }

  lemma ControlPost<B>(ins: Instance<B>, st: State<B>, st': State<B>, p: nat, op: Op)
    requires ins.Valid() && Control(ins, st)
    requires PostSend(ins, st, st', p, op) || PostRecv(ins, st, st', p, op)
    ensures Control(ins, st')
  {
    hide Code, ChanOk, WaitOk;
    assert Bounded(ins, st');
    forall s, d | 0 <= s < ins.n && 0 <= d < ins.n ensures ChanOk(ins, st', s, d) {
      if PostSend(ins, st, st', p, op) {
        PostSendChan(ins, st, st', p, op, s, d);
      } else {
        PostRecvChan(ins, st, st', p, op, s, d);
      }
    }
    forall q | 0 <= q < ins.n ensures WaitOk(ins, st', q) {
      WaitStays(ins, st, st', p, q);
    }
  }

  lemma ControlLocal<B>(ins: Instance<B>, st: State<B>, st': State<B>, p: nat, synchronous: bool)
    requires ins.Valid() && Control(ins, st)
    requires PassWait(ins, st, st', p, synchronous) || DoReduce(ins, st, st', p)
    ensures Control(ins, st')
  {
    hide Code, ChanOk;
    assert Bounded(ins, st');
    forall s, d | 0 <= s < ins.n && 0 <= d < ins.n ensures ChanOk(ins, st', s, d) {
      LocalChan(ins, st, st', p, if DoReduce(ins, st, st', p) then Reduce else Wait, s, d);
    }
    forall q | 0 <= q < ins.n ensures WaitOk(ins, st', q) {
      if DoReduce(ins, st, st', p) {
        WaitStays(ins, st, st', p, q);
      } else if p == q {
        WaitPassed(ins, st, st', p, synchronous);
      } else {
        assert WaitOk(ins, st, q);
      }
    }
  }

  lemma ControlDeliver<B>(ins: Instance<B>, st: State<B>, st': State<B>, s: nat, d: nat)
    requires ins.Valid() && Control(ins, st) && Deliver(ins, st, st', s, d)
    ensures Control(ins, st')
  {
    hide Code, SendOps, RecvOps, Posts1;
    forall a, b | 0 <= a < ins.n && 0 <= b < ins.n ensures ChanOk(ins, st', a, b) {
      assert ChanOk(ins, st, a, b);
    }
    forall q | 0 <= q < ins.n ensures WaitOk(ins, st', q) {
      assert WaitOk(ins, st, q);
    }
  }

  /** Control holds whatever the addresses are. */
  lemma ControlStep<B>(ins: Instance<B>, st: State<B>, st': State<B>, synchronous: bool)
    requires ins.Valid() && Control(ins, st) && Step(ins, st, st', synchronous)
    ensures Control(ins, st')
  {
    hide ChanOk, WaitOk, PostSend, PostRecv, PassWait, DoReduce, Deliver;
    if p: nat, op :| PostSend(ins, st, st', p, op) {
      ControlPost(ins, st, st', p, op);
    } else if p: nat, op :| PostRecv(ins, st, st', p, op) {
      ControlPost(ins, st, st', p, op);
    } else if p: nat :| PassWait(ins, st, st', p, synchronous) {
      ControlLocal(ins, st, st', p, synchronous);
    } else if p: nat :| DoReduce(ins, st, st', p) {
      ControlLocal(ins, st, st', p, synchronous);
    } else {
      var s: nat, d: nat :| Deliver(ins, st, st', s, d);
      ControlDeliver(ins, st, st', s, d);
    }
  }

  // ---- values: every block ever sent or stored is the right one -----------------

  predicate LocOk(members: seq<seq<nat>>, l: Loc) {
    && l.grp < |members| && |members[l.grp]| > 0
    && (l.Val? ==> l.pos < |members[l.grp]|)
  }

  /** The block that belongs into a location. */
  function Ideal<B>(ins: Instance<B>, l: Loc): B
    requires LocOk(ins.members, l)
  {
    match l
    case Val(g, pos) => ins.input(ins.members[g][pos], g)
    case Buf(g) => ins.Result(g)
  }

  /** Location of the receiver that a message of s belongs to: known from its send. */
  ghost predicate Carries<B>(ins: Instance<B>, s: nat, op: Op, v: B) {
    && (op.Send? || (op.SendBack? && LocOk(ins.members, Buf(op.grp))))
    && v == if op.Send? then ins.input(s, op.grp) else ins.Result(op.grp)
  }

  ghost predicate Good<B>(ins: Instance<B>, mem: map<Loc, B>, l: Loc) {
    LocOk(ins.members, l) && l in mem && mem[l] == Ideal(ins, l)
  }

  ghost predicate SentOk<B>(ins: Instance<B>, s: nat, ops: seq<Op>, sent: seq<B>) {
    |ops| == |sent| && forall k :: 0 <= k < |sent| ==> Carries(ins, s, ops[k], sent[k])
  }

  ghost predicate ChanValues<B>(ins: Instance<B>, st: State<B>, s: nat, d: nat)
    requires ins.Valid() && Bounded(ins, st) && s < ins.n && d < ins.n
  {
    && SentOk(ins, s, SendOps(Code(ins, s)[..st.pc[s]], d), st.chan[s][d].sent)
    && forall k :: 0 <= k < st.chan[s][d].done && k < |st.chan[s][d].posted| && IsRecv(st.chan[s][d].posted[k]) ==>
         Good(ins, st.mem[d], Target(st.chan[s][d].posted[k]))
  }

  ghost predicate RootsDone<B>(ins: Instance<B>, st: State<B>, p: nat)
    requires ins.Valid() && Bounded(ins, st) && p < ins.n
  {
    st.pc[p] > W1(ins, p) + 1 ==> forall g: nat :: ins.Root(p, g) ==> Good(ins, st.mem[p], Buf(g))
  }

  ghost predicate Values<B>(ins: Instance<B>, st: State<B>)
    requires ins.Valid() && Bounded(ins, st)
  {
    && (forall s, d :: 0 <= s < ins.n && 0 <= d < ins.n ==> ChanValues(ins, st, s, d))
    && (forall p :: 0 <= p < ins.n ==> RootsDone(ins, st, p))
  }

  /** No location that holds the right block loses it. */
  ghost predicate Keeps<B>(ins: Instance<B>, st: State<B>, st': State<B>)
  {
    && |st.mem| == |st'.mem| == ins.n
    && forall p, l {:trigger Good(ins, st'.mem[p], l)} :: 0 <= p < ins.n && Good(ins, st.mem[p], l) ==>
         Good(ins, st'.mem[p], l)
  }

  lemma PostSendValues<B>(ins: Instance<B>, st: State<B>, st': State<B>, p: nat, op: Op, s: nat, d: nat)
    requires ins.Valid() && Bounded(ins, st) && Bounded(ins, st') && s < ins.n && d < ins.n
    requires PostSend(ins, st, st', p, op) && ChanValues(ins, st, s, d) && RootsDone(ins, st, p)
    ensures ChanValues(ins, st', s, d)
  {
    hide Code, SendOps, RecvOps, LocOk, ins.Result, Good;
    PrefixStep(Code(ins, p), st.pc[p], d);
    CodeAt(ins, p, st.pc[p]);
    if s == p && d == op.dst {
      PayloadCarries(ins, st, p, op);
    }
  }

  lemma PayloadCarries<B>(ins: Instance<B>, st: State<B>, p: nat, op: Op)
    requires ins.Valid() && Bounded(ins, st) && Current(ins, st, p, op) && Ready(st.mem[p], op)
    requires RootsDone(ins, st, p)
    ensures Carries(ins, p, op, Payload(ins, st.mem[p], p, op))
  {
    hide Code, ins.Result;
    CodeAt(ins, p, st.pc[p]);
    if op.SendBack? {
      assert ins.Root(p, op.grp);
      assert Good(ins, st.mem[p], Buf(op.grp));
    }
  }

  /** A step that posts no send leaves the sent messages alone. */
  lemma OtherValues<B>(ins: Instance<B>, st: State<B>, st': State<B>, p: nat, op: Op, s: nat, d: nat)
    requires ins.Valid() && Bounded(ins, st) && Bounded(ins, st') && s < ins.n && d < ins.n
    requires Current(ins, st, p, op) && !IsSend(op) && st'.pc == Advance(st, p).pc
    requires st'.chan[s][d].sent == st.chan[s][d].sent && st'.chan[s][d].done == st.chan[s][d].done
    requires st.chan[s][d].posted <= st'.chan[s][d].posted && st.chan[s][d].done <= |st.chan[s][d].posted|
    requires Keeps(ins, st, st') && ChanValues(ins, st, s, d)
    ensures ChanValues(ins, st', s, d)
  {
    hide Code, SendOps, RecvOps, Good, Carries;
    PrefixStep(Code(ins, p), st.pc[p], d);
  }

  lemma RootsStay<B>(ins: Instance<B>, st: State<B>, st': State<B>, p: nat, q: nat)
    requires ins.Valid() && Bounded(ins, st) && Bounded(ins, st') && p < ins.n && q < ins.n
    requires st.pc[p] < |Code(ins, p)| && Code(ins, p)[st.pc[p]] != Reduce && st'.pc == Advance(st, p).pc
    requires Keeps(ins, st, st') && RootsDone(ins, st, q)
    ensures RootsDone(ins, st', q)
  {
    hide Code, Good, ins.Root;
    CodeAt(ins, p, st.pc[p]);
  }

  lemma ValuesPost<B>(ins: Instance<B>, st: State<B>, st': State<B>, p: nat, op: Op, synchronous: bool)
    requires ins.Valid() && Control(ins, st) && Values(ins, st) && Control(ins, st')
    requires PostSend(ins, st, st', p, op) || PostRecv(ins, st, st', p, op) || PassWait(ins, st, st', p, synchronous)
    ensures Values(ins, st')
  {
    hide Code, Good, ChanValues, RootsDone, WaitOk;
    assert Keeps(ins, st, st');
    forall s, d | 0 <= s < ins.n && 0 <= d < ins.n ensures ChanValues(ins, st', s, d) {
      assert ChanOk(ins, st, s, d);
      if PostSend(ins, st, st', p, op) {
        PostSendValues(ins, st, st', p, op, s, d);
      } else {
        OtherValues(ins, st, st', p, if PassWait(ins, st, st', p, synchronous) then Wait else op, s, d);
      }
    }
    forall q | 0 <= q < ins.n ensures RootsDone(ins, st', q) {
      RootsStay(ins, st, st', p, q);
    }
  }

  lemma {:induction false} RootRecvsHas(addr: seq<nat>, ms: seq<nat>, g: nat, n: nat, pos: nat)
    requires n <= |ms| && (forall i :: 0 <= i < |ms| ==> ms[i] < |addr|) && 0 < pos < n
    ensures Recv(addr[ms[pos]], g, pos) in RootRecvs(addr, ms, g, n)
  { if pos < n - 1 { RootRecvsHas(addr, ms, g, n - 1, pos); } }

  lemma LastPosts<B>(ins: Instance<B>, p: nat, n: nat)
    requires ins.Valid() && 0 < n <= |ins.members|
    ensures Posts1(ins, p, n) == Posts1(ins, p, n - 1) + Ops1(ins.addr, ins.members[n - 1], p, n - 1)
  { hide Ops1; }

  lemma RootHas<B>(ins: Instance<B>, p: nat, g: nat, pos: nat)
    requires ins.Valid() && ins.Root(p, g) && 0 < pos < |ins.members[g]|
    ensures Recv(ins.addr[ins.members[g][pos]], g, pos) in Ops1(ins.addr, ins.members[g], p, g)
  {
    hide RootRecvs;
    RootRecvsHas(ins.addr, ins.members[g], g, |ins.members[g]|, pos);
  }

  lemma {:induction false} Posts1Has<B>(ins: Instance<B>, p: nat, n: nat, g: nat, pos: nat)
    requires ins.Valid() && g < n <= |ins.members| && ins.Root(p, g) && 0 < pos < |ins.members[g]|
    ensures Recv(ins.addr[ins.members[g][pos]], g, pos) in Posts1(ins, p, n)
  {
    hide RootRecvs, Posts1, Ops1;
    LastPosts(ins, p, n);
    if g < n - 1 {
      Posts1Has(ins, p, n - 1, g, pos);
    } else {
      RootHas(ins, p, g, pos);
    }
  }

  lemma {:induction false} RecvOpsHas(c: seq<Op>, op: Op)
    requires op in c && IsRecv(op)
    ensures op in RecvOps(c, op.src)
  {
    var n := |c| - 1;
    if op != c[n] { RecvOpsHas(c[..n], op); }
  }

  /** When a root reduces, the blocks of all further members have arrived. */
  lemma BlocksArrived<B>(ins: Instance<B>, st: State<B>, p: nat, g: nat, pos: nat)
    requires ins.Valid() && WellAddressed(ins) && Control(ins, st) && Values(ins, st)
    requires p < ins.n && st.pc[p] > W1(ins, p) && ins.Root(p, g) && 0 < pos < |ins.members[g]|
    ensures Good(ins, st.mem[p], Val(g, pos))
  {
    hide Code, SendOps, RecvOps, Posts1, Good;
    var s := ins.members[g][pos];
    var op := Recv(s, g, pos);
    assert GroupAddressed(ins.addr, ins.members[g]);
    Posts1Has(ins, p, |ins.members|, g, pos);
    RecvOpsHas(Posts1(ins, p, |ins.members|), op);
    assert ChanOk(ins, st, s, p) && WaitOk(ins, st, p) && ChanValues(ins, st, s, p);
    var c := Code(ins, p)[..st.pc[p]];
    CodeAt(ins, p, W1(ins, p));
    assert c[..W1(ins, p)] == Posts1(ins, p, |ins.members|);
    OpsPrefix(c, W1(ins, p), s);
    var k :| 0 <= k < |RecvOps(Posts1(ins, p, |ins.members|), s)| && RecvOps(Posts1(ins, p, |ins.members|), s)[k] == op;
    assert st.chan[s][p].posted[k] == op;
  }

  lemma ReducedIsResult<B>(ins: Instance<B>, mem: map<Loc, B>, p: nat, g: nat)
    requires ins.Valid() && ins.Root(p, g)
    requires forall pos :: 0 < pos < |ins.members[g]| ==> Good(ins, mem, Val(g, pos))
    ensures Received(mem, g, |ins.members[g]|) && Reduced(ins, mem, p, g) == ins.Result(g)
  {
    assert Received(mem, g, |ins.members[g]|);
    var blocks := ReceivedBlocks(mem, g, |ins.members[g]|);
    forall i | 0 <= i < |blocks| ensures blocks[i] == ins.Contributions(g)[i] {
      assert Good(ins, mem, Val(g, i + 1));
    }
    assert blocks == ins.Contributions(g);
  }

  lemma RootsReduced<B>(ins: Instance<B>, st: State<B>, st': State<B>, p: nat, g: nat)
    requires ins.Valid() && WellAddressed(ins) && Control(ins, st) && Values(ins, st) && DoReduce(ins, st, st', p)
    requires ins.Root(p, g)
    ensures Good(ins, st'.mem[p], Buf(g))
  {
    hide Code, ChanOk, WaitOk, Values, ins.Result;
    ReduceIsLate(ins, p, st.pc[p]);
    forall pos | 0 < pos < |ins.members[g]| ensures Good(ins, st.mem[p], Val(g, pos)) {
      BlocksArrived(ins, st, p, g, pos);
    }
    ReducedIsResult(ins, st.mem[p], p, g);
  }

  lemma ReduceKeeps<B>(ins: Instance<B>, st: State<B>, st': State<B>, p: nat)
    requires ins.Valid() && WellAddressed(ins) && Control(ins, st) && Values(ins, st) && DoReduce(ins, st, st', p)
    ensures Keeps(ins, st, st')
    ensures forall g: nat :: ins.Root(p, g) ==> Good(ins, st'.mem[p], Buf(g))
  {
    hide Code, ChanOk, WaitOk, Values, ins.Result, Reduced, ins.Root;
    forall g: nat | ins.Root(p, g)
      ensures Good(ins, st'.mem[p], Buf(g))
    {
      RootsReduced(ins, st, st', p, g);
    }
  }

  lemma ReduceIsLate<B>(ins: Instance<B>, p: nat, i: nat)
    requires ins.Valid() && i < |Code(ins, p)| && Code(ins, p)[i] == Reduce
    ensures i == W1(ins, p) + 1
  {
    hide Code;
    CodeAt(ins, p, i);
  }

  lemma ValuesReduce<B>(ins: Instance<B>, st: State<B>, st': State<B>, p: nat)
    requires ins.Valid() && WellAddressed(ins) && Control(ins, st) && Values(ins, st) && Control(ins, st')
    requires DoReduce(ins, st, st', p)
    ensures Values(ins, st')
  {
    hide Code, Good, ChanValues, RootsDone, WaitOk;
    ReduceKeeps(ins, st, st', p);
    forall s, d | 0 <= s < ins.n && 0 <= d < ins.n ensures ChanValues(ins, st', s, d) {
      assert ChanOk(ins, st, s, d);
      OtherValues(ins, st, st', p, Reduce, s, d);
    }
    forall q | 0 <= q < ins.n ensures RootsDone(ins, st', q) {
      if q == p { RootsNow(ins, st', p); } else { RootsSame(ins, st, st', q); }
    }
  }

  lemma RootsNow<B>(ins: Instance<B>, st: State<B>, p: nat)
    requires ins.Valid() && Bounded(ins, st) && p < ins.n
    requires forall g: nat :: ins.Root(p, g) ==> Good(ins, st.mem[p], Buf(g))
    ensures RootsDone(ins, st, p)
  {}

  lemma RootsSame<B>(ins: Instance<B>, st: State<B>, st': State<B>, q: nat)
    requires ins.Valid() && Bounded(ins, st) && Bounded(ins, st') && q < ins.n
    requires Keeps(ins, st, st') && RootsDone(ins, st, q) && st.pc[q] == st'.pc[q]
    ensures RootsDone(ins, st', q)
  { hide Code, Good, ins.Root; }

  /** The message that meets a receive is the one the receive is meant for. */
  lemma DeliveredBlock<B>(ins: Instance<B>, st: State<B>, s: nat, d: nat)
    requires ins.Valid() && WellAddressed(ins) && Control(ins, st) && Values(ins, st) && s < ins.n && d < ins.n
    requires st.chan[s][d].done < |st.chan[s][d].sent| && st.chan[s][d].done < |st.chan[s][d].posted|
    ensures var c := st.chan[s][d]; var op := c.posted[c.done];
            IsRecv(op) && LocOk(ins.members, Target(op)) && c.sent[c.done] == Ideal(ins, Target(op))
  {
    hide Code, SendOps, RecvOps, ins.Result;
    var c := st.chan[s][d];
    assert ChanOk(ins, st, s, d) && ChanValues(ins, st, s, d);
    OpsPrefix(Code(ins, s), st.pc[s], d);
    OpsPrefix(Code(ins, d), st.pc[d], s);
    ProgramsMatch(ins, s, d);
    var x, y := SendOps(Code(ins, s), d)[c.done], RecvOps(Code(ins, d), s)[c.done];
    assert Pair(ins.members, s, x, y) && Carries(ins, s, x, c.sent[c.done]);
  }

  lemma DeliverKeeps<B>(ins: Instance<B>, st: State<B>, st': State<B>, s: nat, d: nat)
    requires ins.Valid() && WellAddressed(ins) && Control(ins, st) && Values(ins, st) && Deliver(ins, st, st', s, d)
    ensures Keeps(ins, st, st')
    ensures Good(ins, st'.mem[d], Target(st.chan[s][d].posted[st.chan[s][d].done]))
  {
    hide Code, Values, ChanOk, WaitOk, ins.Result;
    DeliveredBlock(ins, st, s, d);
  }

  lemma ValuesDeliver<B>(ins: Instance<B>, st: State<B>, st': State<B>, s: nat, d: nat)
    requires ins.Valid() && WellAddressed(ins) && Control(ins, st) && Values(ins, st) && Control(ins, st')
    requires Deliver(ins, st, st', s, d)
    ensures Values(ins, st')
  {
    hide Code, Good, WaitOk, ChanOk, SendOps, RecvOps, RootsDone, SentOk;
    DeliverKeeps(ins, st, st', s, d);
    forall a, b | 0 <= a < ins.n && 0 <= b < ins.n ensures ChanValues(ins, st', a, b) {
      assert ChanValues(ins, st, a, b);
    }
    forall q | 0 <= q < ins.n ensures RootsDone(ins, st', q) {
      RootsSame(ins, st, st', q);
    }
  }

  ghost predicate Inv<B>(ins: Instance<B>, st: State<B>)
    requires ins.Valid()
  { Control(ins, st) && Values(ins, st) }

  lemma InvInit<B>(ins: Instance<B>, st: State<B>)
    requires ins.Valid() && Init(ins.n, st)
    ensures Inv(ins, st)
  {
    ControlInit(ins, st);
    hide Control, Posts1, Posts3;
    forall s, d | 0 <= s < ins.n && 0 <= d < ins.n ensures ChanValues(ins, st, s, d) {
      assert Code(ins, s)[..0] == [];
    }
  }

  lemma InvStep<B>(ins: Instance<B>, st: State<B>, st': State<B>, synchronous: bool)
    requires ins.Valid() && WellAddressed(ins) && Inv(ins, st) && Step(ins, st, st', synchronous)
    ensures Inv(ins, st')
  {
    hide ChanOk, WaitOk, ChanValues, RootsDone, PostSend, PostRecv, PassWait, DoReduce, Deliver, WellAddressed;
    ControlStep(ins, st, st', synchronous);
    if p: nat, op :| PostSend(ins, st, st', p, op) {
      ValuesPost(ins, st, st', p, op, synchronous);
    } else if p: nat, op :| PostRecv(ins, st, st', p, op) {
      ValuesPost(ins, st, st', p, op, synchronous);
    } else if p: nat :| PassWait(ins, st, st', p, synchronous) {
      ValuesPost(ins, st, st', p, Wait, synchronous);
    } else if p: nat :| DoReduce(ins, st, st', p) {
      ValuesReduce(ins, st, st', p);
    } else {
      var s: nat, d: nat :| Deliver(ins, st, st', s, d);
      ValuesDeliver(ins, st, st', s, d);
    }
  }
}
