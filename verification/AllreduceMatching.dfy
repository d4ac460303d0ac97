/** Static matching: what one process posts towards another is, position by position,
    what the other posts to receive from it, although both walk their own programs. */
module AllreduceMatching {
  import opened Selection
  import opened AllreduceModel

  function SendOps(c: seq<Op>, d: nat): (r: seq<Op>)
  {
    if |c| == 0 then []
    else
      var op := c[|c| - 1];
      SendOps(c[..|c| - 1], d) + (if IsSend(op) && op.dst == d then [op] else [])
  }

  function RecvOps(c: seq<Op>, s: nat): (r: seq<Op>)
  {
    if |c| == 0 then []
    else
      var op := c[|c| - 1];
      RecvOps(c[..|c| - 1], s) + (if IsRecv(op) && op.src == s then [op] else [])
  }

  lemma {:induction false} SendOpsConcat(a: seq<Op>, b: seq<Op>, q: nat)
    ensures SendOps(a + b, q) == SendOps(a, q) + SendOps(b, q)
  {
    if |b| == 0 {
      assert a + b == a;
    } else {
      SendOpsConcat(a, b[..|b| - 1], q);
      assert (a + b)[..|a + b| - 1] == a + b[..|b| - 1];
    }
  }

  lemma {:induction false} RecvOpsConcat(a: seq<Op>, b: seq<Op>, q: nat)
    ensures RecvOps(a + b, q) == RecvOps(a, q) + RecvOps(b, q)
  {
    if |b| == 0 {
      assert a + b == a;
    } else {
      RecvOpsConcat(a, b[..|b| - 1], q);
      assert (a + b)[..|a + b| - 1] == a + b[..|b| - 1];
    }
  }

  lemma OpsConcat(a: seq<Op>, b: seq<Op>, q: nat)
    ensures SendOps(a + b, q) == SendOps(a, q) + SendOps(b, q)
    ensures RecvOps(a + b, q) == RecvOps(a, q) + RecvOps(b, q)
  {
    hide SendOps, RecvOps;
    SendOpsConcat(a, b, q);
    RecvOpsConcat(a, b, q);
  }

  /** A prefix of the program posts a prefix of its sends and receives. */
  lemma OpsPrefix(c: seq<Op>, n: nat, q: nat)
    requires n <= |c|
    ensures SendOps(c[..n], q) <= SendOps(c, q)
    ensures RecvOps(c[..n], q) <= RecvOps(c, q)
  {
    OpsConcat(c[..n], c[n..], q);
    assert c[..n] + c[n..] == c;
  }

  lemma OpsSingle(op: Op, q: nat)
    ensures SendOps([op], q) == if IsSend(op) && op.dst == q then [op] else []
    ensures RecvOps([op], q) == if IsRecv(op) && op.src == q then [op] else []
  { assert [op][..0] == []; }

  lemma NothingPosted(q: nat)
    ensures SendOps([], q) == [] == RecvOps([], q)
  {}

  ghost predicate GroupAddressed(addr: seq<nat>, ms: seq<nat>) {
    |ms| > 1 ==> forall i :: 0 <= i < |ms| ==> ms[i] < |addr| && addr[ms[i]] == ms[i]
  }

  /** Every post names the rank it means. The caller can check this before the call: it
      holds when the communicator is the world, or when no group of two or more processes
      has a member whose global rank differs from its rank in the communicator. */
  ghost predicate WellAddressed<B>(ins: Instance<B>) {
    forall g :: 0 <= g < |ins.members| ==> GroupAddressed(ins.addr, ins.members[g])
  }

  /** Send x of process s and receive y belong together. */
  ghost predicate Pair(members: seq<seq<nat>>, s: nat, x: Op, y: Op) {
    || (x.SendBack? && y.RecvBack? && x.grp == y.grp)
    || (x.Send? && y.Recv? && x.grp == y.grp && y.grp < |members|
        && 0 < y.pos < |members[y.grp]| && members[y.grp][y.pos] == s)
  }

  ghost predicate Paired(members: seq<seq<nat>>, s: nat, xs: seq<Op>, ys: seq<Op>)
  { |xs| == |ys| && forall k :: 0 <= k < |xs| ==> Pair(members, s, xs[k], ys[k]) }

  lemma PairedConcat(members: seq<seq<nat>>, s: nat, a: seq<Op>, b: seq<Op>, x: seq<Op>, y: seq<Op>)
    requires Paired(members, s, a, b) && Paired(members, s, x, y)
    ensures Paired(members, s, a + x, b + y)
  {}

  /** The place of a member in the list of its group. */
  ghost function PlaceOf(ms: seq<nat>, q: nat): (pos: nat)
    ensures q in ms ==> pos < |ms| && ms[pos] == q
  { if q in ms then var i :| 0 <= i < |ms| && ms[i] == q; i else 0 }

  lemma PlaceUnique(ms: seq<nat>, q: nat, pos: nat, i: nat)
    requires Ascending(ms) && (q in ms ==> pos < |ms| && ms[pos] == q) && i < |ms|
    ensures ms[i] == q <==> q in ms && i == pos
  {}

  /** The receive a root posts for the member at place pos, and nobody else, names it. */
  lemma {:induction false} RootRecvsFrom(addr: seq<nat>, ms: seq<nat>, g: nat, n: nat, q: nat, pos: nat)
    requires ValidGroup(ms, |addr|) && GroupAddressed(addr, ms) && n <= |ms|
    requires q in ms ==> pos < |ms| && ms[pos] == q
    ensures RecvOps(RootRecvs(addr, ms, g, n), q) == if q in ms && 0 < pos < n then [Recv(q, g, pos)] else []
  {
    hide SendOps, RecvOps, Ascending;
    NothingPosted(q);
    if n > 1 {
      PlaceUnique(ms, q, pos, n - 1);
      RootRecvsFrom(addr, ms, g, n - 1, q, pos);
      OpsConcat(RootRecvs(addr, ms, g, n - 1), [Recv(addr[ms[n - 1]], g, n - 1)], q);
      OpsSingle(Recv(addr[ms[n - 1]], g, n - 1), q);
    }
  }

  lemma {:induction false} RootSendsTo(addr: seq<nat>, ms: seq<nat>, g: nat, n: nat, q: nat, pos: nat)
    requires ValidGroup(ms, |addr|) && GroupAddressed(addr, ms) && n <= |ms|
    requires q in ms ==> pos < |ms| && ms[pos] == q
    ensures SendOps(RootSends(addr, ms, g, n), q) == if q in ms && 0 < pos < n then [SendBack(q, g)] else []
  {
    hide SendOps, RecvOps, Ascending;
    NothingPosted(q);
    if n > 1 {
      PlaceUnique(ms, q, pos, n - 1);
      RootSendsTo(addr, ms, g, n - 1, q, pos);
      OpsConcat(RootSends(addr, ms, g, n - 1), [SendBack(addr[ms[n - 1]], g)], q);
      OpsSingle(SendBack(addr[ms[n - 1]], g), q);
    }
  }

  lemma {:induction false} RootOpsKind(addr: seq<nat>, ms: seq<nat>, g: nat, n: nat, q: nat)
    requires n <= |ms| && forall i :: 0 <= i < |ms| ==> ms[i] < |addr|
    ensures SendOps(RootRecvs(addr, ms, g, n), q) == [] && RecvOps(RootSends(addr, ms, g, n), q) == []
  { if n > 1 { RootOpsKind(addr, ms, g, n - 1, q); } }

  /** Process s has a message for the root d of the group (phase 1), and d answers (phase 3). */
  predicate Talks(ms: seq<nat>, s: nat, d: nat) { |ms| > 1 && s in ms && s != d && ms[0] == d }

  lemma GroupSends(addr: seq<nat>, ms: seq<nat>, g: nat, s: nat, d: nat)
    requires ValidGroup(ms, |addr|) && GroupAddressed(addr, ms)
    ensures SendOps(Ops1(addr, ms, s, g), d) == if Talks(ms, s, d) then [Send(d, g)] else []
    ensures SendOps(Ops3(addr, ms, s, g), d) == if Talks(ms, d, s) then [SendBack(d, g)] else []
  {
    hide SendOps, RecvOps, RootSends, RootRecvs, Ascending;
    NothingPosted(d);
    if s in ms && |ms| > 1 {
      if ms[0] == s {
        RootOpsKind(addr, ms, g, |ms|, d);
        RootSendsTo(addr, ms, g, |ms|, d, PlaceOf(ms, d));
        PlaceUnique(ms, d, PlaceOf(ms, d), 0);
      } else {
        OpsSingle(Send(addr[ms[0]], g), d);
        OpsSingle(RecvBack(addr[ms[0]], g), d);
      }
    }
  }

  /** The same, seen from the receiver; pos is the place of s in the group. */
  lemma GroupRecvs(addr: seq<nat>, ms: seq<nat>, g: nat, s: nat, d: nat, pos: nat)
    requires ValidGroup(ms, |addr|) && GroupAddressed(addr, ms)
    requires s in ms ==> pos < |ms| && ms[pos] == s
    ensures RecvOps(Ops1(addr, ms, d, g), s) == if Talks(ms, s, d) then [Recv(s, g, pos)] else []
    ensures RecvOps(Ops3(addr, ms, d, g), s) == if Talks(ms, d, s) then [RecvBack(s, g)] else []
  {
    hide SendOps, RecvOps, RootSends, RootRecvs, Ascending;
    NothingPosted(s);
    if d in ms && |ms| > 1 {
      if ms[0] == d {
        PlaceUnique(ms, s, pos, 0);
        RootOpsKind(addr, ms, g, |ms|, s);
        RootRecvsFrom(addr, ms, g, |ms|, s, pos);
      } else {
        OpsSingle(Send(addr[ms[0]], g), s);
        OpsSingle(RecvBack(addr[ms[0]], g), s);
      }
    }
  }

  lemma GroupMatches<B>(ins: Instance<B>, s: nat, d: nat, g: nat)
    requires ins.Valid() && WellAddressed(ins) && g < |ins.members|
    ensures Paired(ins.members, s, SendOps(Ops1(ins.addr, ins.members[g], s, g), d),
                   RecvOps(Ops1(ins.addr, ins.members[g], d, g), s))
    ensures Paired(ins.members, s, SendOps(Ops3(ins.addr, ins.members[g], s, g), d),
                   RecvOps(Ops3(ins.addr, ins.members[g], d, g), s))
  {
    hide SendOps, RecvOps, Ops1, Ops3;
    var ms := ins.members[g];
    GroupSends(ins.addr, ms, g, s, d);
    GroupRecvs(ins.addr, ms, g, s, d, PlaceOf(ms, s));
    if |ms| > 0 { PlaceUnique(ms, s, PlaceOf(ms, s), 0); }
  }

  lemma {:induction false} PhasesMatch<B>(ins: Instance<B>, s: nat, d: nat, n: nat)
    requires ins.Valid() && WellAddressed(ins) && n <= |ins.members|
    ensures Paired(ins.members, s, SendOps(Posts1(ins, s, n), d), RecvOps(Posts1(ins, d, n), s))
    ensures Paired(ins.members, s, SendOps(Posts3(ins, s, n), d), RecvOps(Posts3(ins, d, n), s))
  {
    hide SendOps, RecvOps, Ops1, Ops3, Paired;
    if n == 0 {
      NothingPaired(ins.members, s, d);
    } else {
      var g := n - 1;
      PhasesMatch(ins, s, d, g);
      GroupMatches(ins, s, d, g);
      PostsStep(ins, s, g, d);
      PostsStep(ins, d, g, s);
      var a, ms := ins.addr, ins.members[g];
      PairedConcat(ins.members, s, SendOps(Posts1(ins, s, g), d), RecvOps(Posts1(ins, d, g), s),
                   SendOps(Ops1(a, ms, s, g), d), RecvOps(Ops1(a, ms, d, g), s));
      PairedConcat(ins.members, s, SendOps(Posts3(ins, s, g), d), RecvOps(Posts3(ins, d, g), s),
                   SendOps(Ops3(a, ms, s, g), d), RecvOps(Ops3(a, ms, d, g), s));
    }
  }

  lemma NothingPaired(members: seq<seq<nat>>, s: nat, d: nat)
    ensures Paired(members, s, SendOps([], d), RecvOps([], s))
  {}

  lemma PostsStep<B>(ins: Instance<B>, p: nat, g: nat, q: nat)
    requires ins.Valid() && g < |ins.members|
    ensures SendOps(Posts1(ins, p, g + 1), q) ==
              SendOps(Posts1(ins, p, g), q) + SendOps(Ops1(ins.addr, ins.members[g], p, g), q)
    ensures RecvOps(Posts1(ins, p, g + 1), q) ==
              RecvOps(Posts1(ins, p, g), q) + RecvOps(Ops1(ins.addr, ins.members[g], p, g), q)
    ensures SendOps(Posts3(ins, p, g + 1), q) ==
              SendOps(Posts3(ins, p, g), q) + SendOps(Ops3(ins.addr, ins.members[g], p, g), q)
    ensures RecvOps(Posts3(ins, p, g + 1), q) ==
              RecvOps(Posts3(ins, p, g), q) + RecvOps(Ops3(ins.addr, ins.members[g], p, g), q)
  {
    hide SendOps, RecvOps, Ops1, Ops3;
    OpsConcat(Posts1(ins, p, g), Ops1(ins.addr, ins.members[g], p, g), q);
    OpsConcat(Posts3(ins, p, g), Ops3(ins.addr, ins.members[g], p, g), q);
  }

  lemma CodeOps<B>(ins: Instance<B>, p: nat, q: nat)
    requires ins.Valid()
    ensures SendOps(Code(ins, p), q) ==
              SendOps(Posts1(ins, p, |ins.members|), q) + SendOps(Posts3(ins, p, |ins.members|), q)
    ensures RecvOps(Code(ins, p), q) ==
              RecvOps(Posts1(ins, p, |ins.members|), q) + RecvOps(Posts3(ins, p, |ins.members|), q)
  {
    hide SendOps, RecvOps, Posts1, Posts3;
    var a, c := Posts1(ins, p, |ins.members|), Posts3(ins, p, |ins.members|);
    OpsConcat([Wait], [Reduce], q);
    assert [Wait] + [Reduce] == [Wait, Reduce];
    OpsConcat(a, [Wait, Reduce], q);
    OpsConcat(a + [Wait, Reduce], c, q);
    OpsConcat(a + [Wait, Reduce] + c, [Wait], q);
    OpsSingle(Wait, q);
    OpsSingle(Reduce, q);
  }

  /** The k-th message from s to d and the k-th receive d posts for s belong to the same
      group and phase; there are equally many of both, overall and in phase 1. */
  lemma ProgramsMatch<B>(ins: Instance<B>, s: nat, d: nat)
    requires ins.Valid() && WellAddressed(ins)
    ensures Paired(ins.members, s, SendOps(Code(ins, s), d), RecvOps(Code(ins, d), s))
    ensures |SendOps(Posts1(ins, s, |ins.members|), d)| == |RecvOps(Posts1(ins, d, |ins.members|), s)|
  {
    PhasesMatch(ins, s, d, |ins.members|);
    CodeOps(ins, s, d);
    CodeOps(ins, d, s);
  }

  // ---- what the posts of a program look like --------------------------------

  /** A post of phase 1 by p: a root expects a block from each further member, any other
      member sends to the root. */
  ghost predicate Post1<B>(ins: Instance<B>, p: nat, op: Op)
    requires ins.Valid()
  {
    && (op.Send? || op.Recv?) && ins.Member(p, op.grp) && |ins.members[op.grp]| > 1
    && var ms := ins.members[op.grp];
    && (op.Recv? ==> ms[0] == p && 0 < op.pos < |ms| && op.src == ins.addr[ms[op.pos]])
    && (op.Send? ==> ms[0] != p && op.dst == ins.addr[ms[0]])
  }

  ghost predicate Post3<B>(ins: Instance<B>, p: nat, op: Op)
    requires ins.Valid()
  {
    && (op.SendBack? || op.RecvBack?) && ins.Member(p, op.grp) && |ins.members[op.grp]| > 1
    && var ms := ins.members[op.grp];
    && (op.RecvBack? ==> ms[0] != p && op.src == ins.addr[ms[0]])
    && (op.SendBack? ==> ms[0] == p && exists pos :: 0 < pos < |ms| && op.dst == ins.addr[ms[pos]])
  }

  lemma {:induction false} RootOpsBelong(addr: seq<nat>, ms: seq<nat>, g: nat, n: nat, k: nat)
    requires n <= |ms| && forall i :: 0 <= i < |ms| ==> ms[i] < |addr|
    ensures k < |RootRecvs(addr, ms, g, n)| ==>
              var op := RootRecvs(addr, ms, g, n)[k];
              op.Recv? && op.grp == g && 0 < op.pos < n && op.src == addr[ms[op.pos]]
    ensures k < |RootSends(addr, ms, g, n)| ==>
              var op := RootSends(addr, ms, g, n)[k];
              op.SendBack? && op.grp == g && exists pos :: 0 < pos < n && op.dst == addr[ms[pos]]
  { if n > 1 { RootOpsBelong(addr, ms, g, n - 1, k); } }

  lemma GroupPostsBelong<B>(ins: Instance<B>, p: nat, g: nat, k: nat)
    requires ins.Valid() && g < |ins.members|
    ensures var ops := Ops1(ins.addr, ins.members[g], p, g); k < |ops| ==> Post1(ins, p, ops[k])
    ensures var ops := Ops3(ins.addr, ins.members[g], p, g); k < |ops| ==> Post3(ins, p, ops[k])
  {
    hide RootRecvs, RootSends;
    var ms := ins.members[g];
    RootOpsBelong(ins.addr, ms, g, |ms|, k);
  }

  lemma {:induction false} PostsBelong<B>(ins: Instance<B>, p: nat, n: nat, k: nat)
    requires ins.Valid() && n <= |ins.members|
    ensures k < |Posts1(ins, p, n)| ==> Post1(ins, p, Posts1(ins, p, n)[k])
    ensures k < |Posts3(ins, p, n)| ==> Post3(ins, p, Posts3(ins, p, n)[k])
  {
    hide Ops1, Ops3, RootRecvs, RootSends;
    if n > 0 {
      var g := n - 1;
      PostsBelong(ins, p, g, k);
      var k1, k3 := k - |Posts1(ins, p, g)|, k - |Posts3(ins, p, g)|;
      if 0 <= k1 { GroupPostsBelong(ins, p, g, k1); }
      if 0 <= k3 { GroupPostsBelong(ins, p, g, k3); }
    }
  }
}
