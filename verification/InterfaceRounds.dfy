/** One communication round of many processes: every process schedules the same exchanges over
    its own layouts, or raw data for single processes, and after wait every interface entry holds
    its partner's value and every raw receive the bytes of its send. */
module InterfaceRounds {
  import opened ByteCodes
  import opened InterfaceDelivery
  import opened InterfaceLayouts
  import opened InterfaceCommunicatorClass

  /** The calls of send_raw and receive_raw; size -1 if the receiver does not know it. */
  datatype RawSend = RawSend(target: int, bytes: seq<byte>, known: bool)
  datatype RawReceive = RawReceive(src: int, size: int)

  /** What all processes schedule together: exchange_data over the layouts each process sends over
      and receives over, or raw data. */
  datatype Exchange<!V, E> =
    | Exchange(sendOver: seq<Layout<V>>, receiveOver: seq<Layout<E>>, pol: Policy<V>)
    | RawExchange(rawSends: seq<seq<RawSend>>, rawReceives: seq<seq<RawReceive>>)
  {
    /** Something to send and something to receive is given for each process. */
    predicate For(n: nat) {
      match this
      case Exchange(s, r, _) => |s| == |r| == n
      case RawExchange(s, r) => |s| == |r| == n
    }

    function SendsOf(n: nat, p: nat): seq<(int, Packet<V>)>
      requires For(n) && p < n
    {
      match this
      case Exchange(s, _, pol) => LayoutSends(s[p], pol)
      case RawExchange(s, _) => RawPackets(s[p])
    }

    function SlotsOf(n: nat, p: nat): seq<Slot<V, E>>
      requires For(n) && p < n
    {
      match this
      case Exchange(_, r, pol) => LayoutSlots(r[p], pol)
      case RawExchange(_, r) => RawSlots(r[p])
    }
  }

  function RawPackets<V>(rs: seq<RawSend>): (r: seq<(int, Packet<V>)>)
    ensures |r| == |rs| && forall k :: 0 <= k < |r| ==> r[k] == (rs[k].target, Raw(rs[k].bytes, rs[k].known))
  { seq(|rs|, k requires 0 <= k < |rs| => (rs[k].target, Raw(rs[k].bytes, rs[k].known))) }

  function RawSlots<V, E>(rs: seq<RawReceive>): (r: seq<Slot<V, E>>)
    ensures |r| == |rs| && forall k :: 0 <= k < |r| ==> r[k] == IntoRaw(rs[k].src, rs[k].size)
  { seq(|rs|, k requires 0 <= k < |rs| => IntoRaw(rs[k].src, rs[k].size)) }

  ghost predicate Sized<V, E>(exs: seq<Exchange<V, E>>, n: nat) { forall i :: 0 <= i < |exs| ==> exs[i].For(n) }

  /** What process p has scheduled after all exchanges. */
  function Sends<V, E>(exs: seq<Exchange<V, E>>, n: nat, p: nat): seq<(int, Packet<V>)>
    requires p < n && Sized(exs, n)
  {
    if |exs| == 0 then []
    else Sends(exs[..|exs| - 1], n, p) + exs[|exs| - 1].SendsOf(n, p)
  }

  function Slots<V, E>(exs: seq<Exchange<V, E>>, n: nat, q: nat): seq<Slot<V, E>>
    requires q < n && Sized(exs, n)
  {
    if |exs| == 0 then []
    else Slots(exs[..|exs| - 1], n, q) + exs[|exs| - 1].SlotsOf(n, q)
  }

  /** Only processes of the communication are named. The layouts of every two processes are
      aligned in both directions; the raw sends from one to another are, in order, those the other
      receives, with their sizes announced the same way. */
  ghost predicate ExchangeOk<V(!new), E>(partner: E -> V, ex: Exchange<V, E>, n: nat) {
    && ex.For(n)
    && match ex {
       case Exchange(_, _, _) => LayoutsOk(partner, ex, n)
       case RawExchange(s, r) => RawOk<V, E>(s, r, n)
       }
  }

  ghost predicate RawOk<V(!new), E>(s: seq<seq<RawSend>>, r: seq<seq<RawReceive>>, n: nat)
    requires |s| == |r| == n
  {
    && (forall p, j :: 0 <= p < n && 0 <= j < |r[p]| ==> 0 <= r[p][j].src < n)
    && (forall p, q :: 0 <= p < n && 0 <= q < n ==>
          Matches<V, E>(To(RawPackets(s[p]), q), Project(RawSlots(r[q]), p)))
  }

  ghost predicate LayoutsOk<V(!new), E>(partner: E -> V, ex: Exchange<V, E>, n: nat)
    requires ex.For(n) && ex.Exchange?
  {
    && WellBehaved(ex.pol)
    && (forall p :: 0 <= p < n ==> IsLayout(ex.sendOver[p]) && IsLayout(ex.receiveOver[p]))
    && (forall p, q :: 0 <= p < n && 0 <= q < n ==> Aligned(partner, ex.sendOver[p], q, ex.receiveOver[q], p))
    && (forall p :: 0 <= p < n ==> Names(ex.sendOver[p], n) && Names(ex.receiveOver[p], n))
  }

  ghost predicate Names<T>(lay: Layout<T>, n: nat) {
    forall l, j :: 0 <= l < |lay| && 0 <= j < |lay[l]| ==> 0 <= lay[l][j].proc < n
  }

  ghost predicate RoundOk<V(!new), E>(partner: E -> V, exs: seq<Exchange<V, E>>, n: nat) {
    forall i :: 0 <= i < |exs| ==> ExchangeOk(partner, exs[i], n)
  }

  lemma {:induction false} RoundMatches<V(!new), E>(partner: E -> V, exs: seq<Exchange<V, E>>, n: nat, p: nat, q: nat)
    requires RoundOk(partner, exs, n) && Sized(exs, n) && p < n && q < n
    ensures MatchesBy(partner, To(Sends(exs, n, p), q), Project(Slots(exs, n, q), p))
  {
    hide MatchesBy, ExchangeOk, To, Project, Exchange.SendsOf, Exchange.SlotsOf;
    if |exs| == 0 {
      EmptyRound<V, E>(partner, p, q);
    } else {
      var k := |exs| - 1;
      var ex := exs[k];
      RoundMatches(partner, exs[..k], n, p, q);
      LastExchange(partner, ex, n, p, q);
      ToConcat(Sends(exs[..k], n, p), ex.SendsOf(n, p), q);
      ProjectConcat(Slots(exs[..k], n, q), ex.SlotsOf(n, q), p);
      MatchesConcat(partner, To(Sends(exs[..k], n, p), q), To(ex.SendsOf(n, p), q),
                    Project(Slots(exs[..k], n, q), p), Project(ex.SlotsOf(n, q), p));
    }
  }

  lemma EmptyRound<V(!new), E>(partner: E -> V, p: int, q: int)
    ensures MatchesBy<V, E>(partner, To([], q), Project([], p))
  {}

  lemma LastExchange<V(!new), E>(partner: E -> V, ex: Exchange<V, E>, n: nat, p: nat, q: nat)
    requires ExchangeOk(partner, ex, n) && p < n && q < n
    ensures MatchesBy(partner, To(ex.SendsOf(n, p), q), Project(ex.SlotsOf(n, q), p))
  {
    match ex
    case Exchange(s, r, pol) => LastLayouts(partner, ex, n, p, q);
    case RawExchange(s, r) => LastRaw(partner, s, r, n, p, q);
  }

  lemma LastLayouts<V(!new), E>(partner: E -> V, ex: Exchange<V, E>, n: nat, p: nat, q: nat)
    requires ex.For(n) && ex.Exchange? && LayoutsOk(partner, ex, n) && p < n && q < n
    ensures MatchesBy(partner, To(ex.SendsOf(n, p), q), Project(ex.SlotsOf(n, q), p))
  {
    hide MatchesBy, Aligned, WellBehaved, IsLayout, LayoutSends, LayoutSlots, LayoutPackets;
    LayoutSendsTo(ex.sendOver[p], ex.pol, q);
    AlignedLayoutsMatch(partner, ex.sendOver[p], q, ex.receiveOver[q], p, ex.pol);
  }

  lemma LastRaw<V(!new), E>(partner: E -> V, s: seq<seq<RawSend>>, r: seq<seq<RawReceive>>, n: nat, p: nat, q: nat)
    requires |s| == |r| == n && RawOk<V, E>(s, r, n) && p < n && q < n
    ensures MatchesBy<V, E>(partner, To(RawPackets(s[p]), q), Project(RawSlots(r[q]), p))
  {
    hide Project, RawSlots;
    var ps := To<V>(RawPackets(s[p]), q);
    assert Matches<V, E>(ps, Project(RawSlots(r[q]), p));
    forall k | 0 <= k < |ps| ensures ps[k].Raw? { SentIsRaw(RawPackets<V>(s[p]), q, k); }
  }

  lemma {:induction false} SentIsRaw<V>(sends: seq<(int, Packet<V>)>, q: int, k: nat)
    requires (forall j :: 0 <= j < |sends| ==> sends[j].1.Raw?) && k < |To(sends, q)|
    ensures To(sends, q)[k].Raw?
  {
    var m := |sends| - 1;
    if k < |To(sends[..m], q)| { SentIsRaw(sends[..m], q, k); }
  }

  // ---- sources are processes of the communication -------------------------------------------

  ghost predicate InRange<V, E>(slots: seq<Slot<V, E>>, n: nat) {
    forall k :: 0 <= k < |slots| ==> 0 <= slots[k].proc < n
  }

  lemma {:induction false} LevelInRange<V, E>(lvl: Level<E>, pol: Policy<V>, n: nat)
    requires forall j :: 0 <= j < |lvl| ==> 0 <= lvl[j].proc < n
    ensures InRange(LevelSlots(lvl, pol), n)
  { if |lvl| > 0 { LevelInRange(lvl[..|lvl| - 1], pol, n); } }

  lemma {:induction false} LayoutInRange<V, E>(lay: Layout<E>, pol: Policy<V>, n: nat)
    requires forall l, j :: 0 <= l < |lay| && 0 <= j < |lay[l]| ==> 0 <= lay[l][j].proc < n
    ensures InRange(LayoutSlots(lay, pol), n)
  {
    if |lay| > 0 {
      var k := |lay| - 1;
      LayoutInRange(lay[..k], pol, n);
      LevelInRange(lay[k], pol, n);
    }
  }

  lemma {:induction false} RoundInRange<V(!new), E>(partner: E -> V, exs: seq<Exchange<V, E>>, n: nat, q: nat)
    requires RoundOk(partner, exs, n) && Sized(exs, n) && q < n
    ensures InRange(Slots(exs, n, q), n)
  {
    hide Aligned, WellBehaved, IsLayout, LayoutSlots, Matches;
    if |exs| > 0 {
      var k := |exs| - 1;
      RoundInRange(partner, exs[..k], n, q);
      assert ExchangeOk(partner, exs[k], n);
      if exs[k].Exchange? { LayoutInRange(exs[k].receiveOver[q], exs[k].pol, n); }
    }
  }

  lemma {:induction false} ProjectOutside<V, E>(slots: seq<Slot<V, E>>, n: nat, x: int)
    requires InRange(slots, n) && !(0 <= x < n)
    ensures Project(slots, x) == []
  { if |slots| > 0 { ProjectOutside(slots[1..], n, x); } }

  /** The k-th receive is the n-th one from its source, if n receives from there precede it. */
  lemma {:induction false} ProjectAt<V, E>(slots: seq<Slot<V, E>>, k: nat)
    requires k < |slots|
    ensures var q := slots[k].proc; var n := |Project(slots[..k], q)|;
            n < |Project(slots, q)| && Project(slots, q)[n] == slots[k]
  {
    if k > 0 {
      ProjectAt(slots[1..], k - 1);
      assert slots[..k][1..] == slots[1..][..k - 1];
    }
  }

  // ---- the round --------------------------------------------------------------------------------

  /** The in-buffers of process q: what the others have collected for it. */
  ghost predicate Arrived<V, E>(received: map<int, seq<byte>>, exs: seq<Exchange<V, E>>, n: nat, q: nat)
    requires q < n && Sized(exs, n)
  {
    && (forall p: nat :: p < n ==> Get(received, p) == Stream(To(Sends(exs, n, p), q)))
    && (forall x :: !(0 <= x < n) ==> Get(received, x) == [])
  }

  ghost function From<V, E>(exs: seq<Exchange<V, E>>, n: nat, q: nat): int -> seq<Packet<V>>
    requires q < n && Sized(exs, n)
  { (x: int) => if 0 <= x < n then To(Sends(exs, n, x), q) else [] }

  lemma RoundIncoming<V(!new), E>(partner: E -> V, exs: seq<Exchange<V, E>>, n: nat, q: nat,
                                  received: map<int, seq<byte>>)
    requires RoundOk(partner, exs, n) && Sized(exs, n) && q < n && Arrived(received, exs, n, q)
    ensures Incoming(From(exs, n, q), Slots(exs, n, q), received)
  {
    hide To, Project, Slots, Sends, Stream, Fits, InRange;
    RoundInRange(partner, exs, n, q);
    forall x
      ensures Matches(From(exs, n, q)(x), Project(Slots(exs, n, q), x))
      ensures Get(received, x) == Stream(From(exs, n, q)(x))
    {
      if 0 <= x < n {
        RoundMatches(partner, exs, n, x, q);
      } else {
        ProjectOutside(Slots(exs, n, q), n, x);
        StreamNothing<V>();
      }
    }
  }

  lemma StreamNothing<V>()
    ensures Stream<V>([]) == []
  {}

  /** What receive k of process q has to yield: the partners' values for the entries of an
      interface, and for raw data the bytes of the send it belongs to, which is the m-th one from
      its source if it is the m-th receive from there. */
  ghost predicate Served<V, E>(partner: E -> V, exs: seq<Exchange<V, E>>, n: nat, q: nat, k: nat, o: Outcome<V, E>)
    requires Sized(exs, n) && q < n && k < |Slots(exs, n, q)|
  {
    match Slots(exs, n, q)[k]
    case Into(_, iface, _) => o == Values(iface, Partners(partner, iface))
    case IntoRaw(p, _) =>
      && 0 <= p < n
      && var sent := To(Sends(exs, n, p), q);
         var m := |Project(Slots(exs, n, q)[..k], p)|;
         m < |sent| && sent[m].Raw? && o == Bytes(sent[m].bytes)
  }

  /** After wait every entry of every interface, on every level and for every exchange, has
      received the value of its partner, every raw receive the bytes of its send, and every
      in-buffer has been read to its end. */
  lemma EveryEntryHasItsPartnersValue<V(!new), E>(partner: E -> V, exs: seq<Exchange<V, E>>, n: nat, q: nat,
                                                  received: map<int, seq<byte>>, k: nat)
    requires RoundOk(partner, exs, n) && Sized(exs, n) && q < n && Arrived(received, exs, n, q)
    requires k < |Slots(exs, n, q)|
    ensures Served(partner, exs, n, q, k, TakeAll(Slots(exs, n, q), received).0[k])
    ensures forall x :: Get(TakeAll(Slots(exs, n, q), received).1, x) == []
  {
    hide To, Project, Sends, Stream, TakeAll, Incoming, WellBehaved, Aligned, IsLayout;
    var slots := Slots(exs, n, q);
    RoundIncoming(partner, exs, n, q, received);
    AllDelivered(From(exs, n, q), slots, received, k);
    AllConsumed(From(exs, n, q), slots, received);
    RoundInRange(partner, exs, n, q);
    var p := slots[k].proc;
    RoundMatches(partner, exs, n, p, q);
    ProjectAt(slots, k);
    var m := |Project(slots[..k], p)|;
    assert Fits(To(Sends(exs, n, p), q)[m], slots[k]);
  }

  // ---- the exchange -------------------------------------------------------------------------------

  /** What process p decides in communicate_and_resume, from its own schedule alone. */
  ghost predicate Fixed<V, E>(exs: seq<Exchange<V, E>>, n: nat, p: nat)
    requires p < n && Sized(exs, n)
  { AllKnown(Sends(exs, n, p)) && AllSized(Slots(exs, n, p)) }

  /** p has something for q. */
  ghost predicate Talks<V, E>(exs: seq<Exchange<V, E>>, n: nat, p: nat, q: nat)
    requires p < n && q < n && Sized(exs, n)
  { |To(Sends(exs, n, p), q)| > 0 }

  function OutBuffer<V, E>(exs: seq<Exchange<V, E>>, n: nat, p: nat, q: nat): seq<byte>
    requires p < n && Sized(exs, n)
  { Stream(To(Sends(exs, n, p), q)) }

  /** Buffer sizes are ints. */
  ghost predicate SmallBuffers<V, E>(exs: seq<Exchange<V, E>>, n: nat)
    requires Sized(exs, n)
  { forall p: nat, q: nat :: p < n && q < n ==> |OutBuffer(exs, n, p, q)| < 0x8000_0000 }

  /** The size q computes for the buffer of p; only used if q decided that all sizes are fixed. */
  function Computed<V, E>(exs: seq<Exchange<V, E>>, n: nat, p: int, q: nat): nat
    requires q < n && Sized(exs, n)
  { AtLeastZero(TotalSize(Project(Slots(exs, n, q), p))) }

  function AtLeastZero(k: int): nat { if k < 0 then 0 else k }

  /** The transfer from p to q, with the decisions both have made. */
  ghost function Transfer<V, E>(exs: seq<Exchange<V, E>>, n: nat, p: nat, q: nat): Reception
    requires p < n && q < n && Sized(exs, n)
  {
    Receive(Fixed(exs, n, q), Computed(exs, n, p, q), Messages(Fixed(exs, n, p), OutBuffer(exs, n, p, q)))
  }

  /** Every two processes with something to exchange have decided alike. */
  ghost predicate Agree<V, E>(exs: seq<Exchange<V, E>>, n: nat)
    requires Sized(exs, n)
  { forall p: nat, q: nat :: p < n && q < n && Talks(exs, n, p, q) ==> (Fixed(exs, n, p) <==> Fixed(exs, n, q)) }

  lemma RoundSized<V(!new), E>(partner: E -> V, exs: seq<Exchange<V, E>>, n: nat)
    requires RoundOk(partner, exs, n)
    ensures Sized(exs, n)
  {}

  lemma {:induction false} AllSizedProject<V, E>(slots: seq<Slot<V, E>>, p: int)
    requires AllSized(slots)
    ensures AllSized(Project(slots, p))
  {
    if |slots| > 0 {
      AllSizedProject(slots[1..], p);
    }
  }

  /** A process that has decided for fixed sizes has computed the right ones. */
  lemma ComputedIsRight<V(!new), E>(partner: E -> V, exs: seq<Exchange<V, E>>, n: nat, p: nat, q: nat)
    requires RoundOk(partner, exs, n) && Sized(exs, n) && p < n && q < n && Fixed(exs, n, q)
    ensures Computed(exs, n, p, q) == |OutBuffer(exs, n, p, q)|
  {
    RoundSized(partner, exs, n);
    hide RoundOk, To, Project, Sends, Slots, Stream, Fits, TotalSize, SlotSize;
    RoundMatches(partner, exs, n, p, q);
    AllSizedProject(Slots(exs, n, q), p);
    ReceiveSizeIsSendSize(To(Sends(exs, n, p), q), Project(Slots(exs, n, q), p));
  }

  /** The transfer yields exactly the buffer of p, with nothing left in the channel, if and only
      if both have decided alike; otherwise nothing arrives cleanly. */
  lemma TransferIff<V(!new), E>(partner: E -> V, exs: seq<Exchange<V, E>>, n: nat, p: nat, q: nat)
    requires RoundOk(partner, exs, n) && Sized(exs, n) && SmallBuffers(exs, n) && p < n && q < n
    ensures Transfer(exs, n, p, q) == Received(OutBuffer(exs, n, p, q), []) <==>
              (Fixed(exs, n, p) <==> Fixed(exs, n, q))
    ensures Clean(Transfer(exs, n, p, q)) ==> Transfer(exs, n, p, q) == Received(OutBuffer(exs, n, p, q), [])
  {
    hide RoundOk, OutBuffer, Fixed, Computed;
    if Fixed(exs, n, q) { ComputedIsRight(partner, exs, n, p, q); }
    var data := OutBuffer(exs, n, p, q);
    TransferWorksIff(Fixed(exs, n, p), Fixed(exs, n, q), Computed(exs, n, p, q), data);
    TransferNotClean(Fixed(exs, n, p), Fixed(exs, n, q), Computed(exs, n, p, q), data);
  }

  /** A message was received and none is left over. */
  predicate Clean(r: Reception) { r.Received? && r.left == [] }

  /** Disagreement never looks clean. */
  lemma TransferNotClean(senderFixed: bool, receiverFixed: bool, computed: nat, data: seq<byte>)
    ensures Clean(Receive(receiverFixed, computed, Messages(senderFixed, data))) ==> senderFixed == receiverFixed
  {
    var msgs := Messages(senderFixed, data);
    if senderFixed {
      assert msgs == [data];
    } else {
      assert msgs == [ToBytes(|data|, SIZEOF_INT), data] && msgs[1..] == [data];
    }
  }

  /** All transfers of a round work exactly if every two processes with something to exchange
      have decided alike; one pair that disagrees makes a transfer fail. */
  lemma RoundDeliversIff<V(!new), E>(partner: E -> V, exs: seq<Exchange<V, E>>, n: nat)
    requires RoundOk(partner, exs, n) && Sized(exs, n) && SmallBuffers(exs, n)
    ensures (forall p: nat, q: nat :: p < n && q < n && Talks(exs, n, p, q) ==>
               Transfer(exs, n, p, q) == Received(OutBuffer(exs, n, p, q), [])) <==> Agree(exs, n)
  {
    hide RoundOk, OutBuffer, Fixed, Talks, Transfer, SmallBuffers;
    forall p: nat, q: nat | p < n && q < n
      ensures Transfer(exs, n, p, q) == Received(OutBuffer(exs, n, p, q), []) <==>
                (Fixed(exs, n, p) <==> Fixed(exs, n, q))
    { TransferIff(partner, exs, n, p, q); }
  }

  /** q expects something from p exactly if p has something for q. */
  lemma SourcesAreTalkers<V(!new), E>(partner: E -> V, exs: seq<Exchange<V, E>>, n: nat, p: nat, q: nat)
    requires RoundOk(partner, exs, n) && Sized(exs, n) && p < n && q < n
    ensures p in Procs(Slots(exs, n, q)) <==> Talks(exs, n, p, q)
  {
    hide RoundOk, To, Project, Sends, Slots, Fits, Procs;
    RoundMatches(partner, exs, n, p, q);
    ProjectNonEmpty(Slots(exs, n, q), p);
  }

  lemma {:induction false} ProjectNonEmpty<V, E>(slots: seq<Slot<V, E>>, p: int)
    ensures p in Procs(slots) <==> |Project(slots, p)| > 0
  {
    hide Procs;
    if |slots| > 0 {
      ProjectNonEmpty(slots[1..], p);
      assert slots == [slots[0]] + slots[1..];
      ProcsConcat([slots[0]], slots[1..]);
      ProcsOne(slots[0]);
    } else {
      NoProcs(slots, p);
    }
  }

  lemma NoProcs<V, E>(slots: seq<Slot<V, E>>, p: int)
    requires |slots| == 0
    ensures p !in Procs(slots)
  {}

  // ---- one kind of policy ---------------------------------------------------------------------------

  /** The size of the policy never depends on the interface: it is always known, or never. */
  ghost predicate Uniform<V>(pol: Policy<V>, known: bool) { forall k: nat :: pol.size(k) >= 0 <==> known }

  /** All sizes are known, or none is. */
  ghost predicate UniformExchange<V, E>(ex: Exchange<V, E>, known: bool) {
    match ex
    case Exchange(_, _, pol) => Uniform(pol, known)
    case RawExchange(s, r) =>
      && (forall p, k :: 0 <= p < |s| && 0 <= k < |s[p]| ==> (s[p][k].known <==> known))
      && (forall p, k :: 0 <= p < |r| && 0 <= k < |r[p]| ==> (r[p][k].size >= 0 <==> known))
  }

  ghost predicate AllUniform<V, E>(exs: seq<Exchange<V, E>>, known: bool) {
    forall i :: 0 <= i < |exs| ==> UniformExchange(exs[i], known)
  }

  ghost predicate SendsAre<V>(sends: seq<(int, Packet<V>)>, known: bool) {
    forall k :: 0 <= k < |sends| ==> (KnownSize(sends[k].1) <==> known)
  }

  ghost predicate SlotsAre<V, E>(slots: seq<Slot<V, E>>, known: bool) {
    forall k :: 0 <= k < |slots| ==> (SlotSize(slots[k]) >= 0 <==> known)
  }

  lemma {:induction false} LevelUniform<V, E>(mine: Level<V>, theirs: Level<E>, pol: Policy<V>, known: bool)
    requires Uniform(pol, known)
    ensures SendsAre(LevelSends(mine, pol), known) && SlotsAre(LevelSlots(theirs, pol), known)
    decreases |mine| + |theirs|
  {
    if |mine| > 0 { LevelUniform(mine[..|mine| - 1], theirs, pol, known); }
    if |theirs| > 0 { LevelUniform(mine, theirs[..|theirs| - 1], pol, known); }
  }

  lemma {:induction false} LayoutUniform<V, E>(mine: Layout<V>, theirs: Layout<E>, pol: Policy<V>, known: bool)
    requires Uniform(pol, known)
    ensures SendsAre(LayoutSends(mine, pol), known) && SlotsAre(LayoutSlots(theirs, pol), known)
    decreases |mine| + |theirs|
  {
    hide KnownSize, SlotSize;
    if |mine| > 0 {
      LayoutUniform(mine[..|mine| - 1], theirs, pol, known);
      LevelUniform<V, E>(mine[|mine| - 1], [], pol, known);
    }
    if |theirs| > 0 {
      LayoutUniform(mine, theirs[..|theirs| - 1], pol, known);
      LevelUniform([], theirs[|theirs| - 1], pol, known);
    }
  }

  lemma ExchangeUniform<V, E>(ex: Exchange<V, E>, n: nat, p: nat, known: bool)
    requires ex.For(n) && p < n && UniformExchange(ex, known)
    ensures SendsAre(ex.SendsOf(n, p), known) && SlotsAre(ex.SlotsOf(n, p), known)
  {
    hide LayoutSends, LayoutSlots, Uniform;
    if ex.Exchange? { LayoutUniform(ex.sendOver[p], ex.receiveOver[p], ex.pol, known); }
  }

  lemma {:induction false} RoundUniform<V, E>(exs: seq<Exchange<V, E>>, n: nat, p: nat, known: bool)
    requires Sized(exs, n) && p < n && AllUniform(exs, known)
    ensures SendsAre(Sends(exs, n, p), known) && SlotsAre(Slots(exs, n, p), known)
  {
    hide KnownSize, SlotSize, Exchange.SendsOf, Exchange.SlotsOf, UniformExchange;
    if |exs| > 0 {
      var k := |exs| - 1;
      RoundUniform(exs[..k], n, p, known);
      ExchangeUniform(exs[k], n, p, known);
    }
  }

  /** If the sizes of all policies of a round are always known, or never, every two processes with
      something to exchange decide alike, so that all transfers of the round work. */
  lemma SamePolicyAgrees<V(!new), E>(partner: E -> V, exs: seq<Exchange<V, E>>, n: nat, known: bool)
    requires RoundOk(partner, exs, n) && Sized(exs, n) && AllUniform(exs, known)
    ensures Agree(exs, n)
  {
    hide RoundOk, Sized, AllUniform, Sends, Slots, Fixed, To;
    forall p: nat, q: nat | p < n && q < n && Talks(exs, n, p, q) ensures Fixed(exs, n, p) <==> Fixed(exs, n, q) {
      SourcesAreTalkers(partner, exs, n, p, q);
      NothingToNobody(Sends(exs, n, p), q);
      FixedIs(exs, n, p, known);
      FixedIs(exs, n, q, known);
    }
  }

  lemma FixedIs<V, E>(exs: seq<Exchange<V, E>>, n: nat, p: nat, known: bool)
    requires Sized(exs, n) && p < n && AllUniform(exs, known)
    requires |Sends(exs, n, p)| > 0 || |Slots(exs, n, p)| > 0
    ensures Fixed(exs, n, p) <==> known
  {
    RoundUniform(exs, n, p, known);
    hide Sized, AllUniform, Sends, Slots, KnownSize, SlotSize;
    if |Sends(exs, n, p)| > 0 {
      assert KnownSize(Sends(exs, n, p)[0].1) <==> known;
    } else {
      assert SlotSize(Slots(exs, n, p)[0]) >= 0 <==> known;
    }
  }

  lemma NothingToNobody<V>(sends: seq<(int, Packet<V>)>, q: int)
    ensures |To(sends, q)| > 0 ==> |sends| > 0
  {}
}
