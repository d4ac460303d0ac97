/** A whole communication round of communicator objects: scheduling, the decision about sizes, the
    exchange itself, and the extraction. */
module InterfaceExchange {
  import opened ByteCodes
  import opened InterfaceDelivery
  import opened InterfaceLayouts
  import opened InterfaceCommunicatorClass
  import opened InterfaceRounds

  method SendAllRaw<V(!new), E>(com: InterfaceCommunicator<V, E>, rs: seq<RawSend>)
    requires com.Scheduling()
    modifies com`bufMapOut, com`curOutProcs, com`sendBuffersFixed, com`sends
    ensures com.Scheduling() && com.sends == old(com.sends) + RawPackets(rs)
  {
    hide InterfaceCommunicator.Scheduling;
    for i := 0 to |rs|
      invariant com.Scheduling() && com.sends == old(com.sends) + RawPackets(rs[..i])
    {
      com.SendRaw(rs[i].target, rs[i].bytes, rs[i].known);
      assert RawPackets<V>(rs[..i + 1]) == RawPackets(rs[..i]) + [(rs[i].target, Raw(rs[i].bytes, rs[i].known))];
    }
    assert rs[..|rs|] == rs;
  }

  method ReceiveAllRaw<V(!new), E>(com: InterfaceCommunicator<V, E>, rs: seq<RawReceive>)
    modifies com`extractorInfos
    ensures AllSlots(com.extractorInfos) == AllSlots(old(com.extractorInfos)) + RawSlots(rs)
  {
    for i := 0 to |rs|
      invariant AllSlots(com.extractorInfos) == AllSlots(old(com.extractorInfos)) + RawSlots(rs[..i])
    {
      ghost var before := com.extractorInfos;
      com.ReceiveRaw(rs[i].src, rs[i].size);
      assert com.extractorInfos[..|before|] == before;
      assert RawSlots<V, E>(rs[..i + 1]) == RawSlots(rs[..i]) + [IntoRaw(rs[i].src, rs[i].size)];
    }
    assert rs[..|rs|] == rs;
  }

  /** The sends and receives of one process, for all exchanges. */
  method Schedule<V(!new), E>(com: InterfaceCommunicator<V, E>, exs: seq<Exchange<V, E>>, n: nat, p: nat)
    requires com.Idle() && p < n && Sized(exs, n)
    modifies com
    ensures Ready(com, exs, n, p)
  {
    hide Buffered, AllKnown, LayoutSends, LayoutSlots;
    for i := 0 to |exs|
      invariant com.Scheduling() && com.numSendRequests == com.numReceiveRequests == 0
      invariant com.sends == Sends(exs[..i], n, p) && AllSlots(com.extractorInfos) == Slots(exs[..i], n, p)
    {
      assert exs[..i + 1][..i] == exs[..i];
      match exs[i] {
        case Exchange(sendOver, receiveOver, pol) =>
          com.SendLayout(sendOver[p], pol);
          com.ReceiveLayout(receiveOver[p], pol);
        case RawExchange(rawSends, rawReceives) =>
          SendAllRaw(com, rawSends[p]);
          ReceiveAllRaw(com, rawReceives[p]);
      }
    }
    assert exs[..|exs|] == exs;
  }

  /** Scheduled, and no communication pending. */
  ghost predicate Ready<V(!new), E>(com: InterfaceCommunicator<V, E>, exs: seq<Exchange<V, E>>, n: nat, p: nat)
    requires Sized(exs, n) && p < n
    reads com
  {
    && com.Scheduling() && com.sends == Sends(exs, n, p) && AllSlots(com.extractorInfos) == Slots(exs, n, p)
    && com.numSendRequests == com.numReceiveRequests == 0
  }

  /** Between communicate_and_resume and wait. */
  ghost predicate Pending<V(!new), E>(com: InterfaceCommunicator<V, E>, exs: seq<Exchange<V, E>>, n: nat, p: nat)
    requires Sized(exs, n) && p < n
    reads com
  {
    && (forall q: nat :: q < n ==> Get(com.bufMapOut, q) == OutBuffer(exs, n, p, q))
    && AllSlots(com.extractorInfos) == Slots(exs, n, p)
    && com.curInProcs == Procs(Slots(exs, n, p)) && com.sendBuffersFixed
  }

  /** The decision and the sizes that communicate_and_resume has come to. */
  ghost predicate Decided<V(!new), E>(exs: seq<Exchange<V, E>>, n: nat, q: nat, fixed: bool, sizes: map<int, int>)
    requires Sized(exs, n) && q < n
  {
    && (fixed <==> Fixed(exs, n, q))
    && (fixed ==> forall p :: AtLeastZero(GetSize(sizes, p)) == Computed(exs, n, p, q))
  }

  ghost predicate DistinctObjects<V(!new), E>(coms: seq<InterfaceCommunicator<V, E>>) {
    forall i, j :: 0 <= i < j < |coms| ==> coms[i] != coms[j]
  }

  method ScheduleAll<V(!new), E>(coms: seq<InterfaceCommunicator<V, E>>, exs: seq<Exchange<V, E>>, n: nat)
    requires |coms| == n && DistinctObjects(coms) && Sized(exs, n) && forall p :: 0 <= p < n ==> coms[p].Idle()
    modifies coms
    ensures forall p :: 0 <= p < n ==> Ready(coms[p], exs, n, p)
  {
    hide Ready, InterfaceCommunicator.Idle;
    for p := 0 to n
      invariant forall i :: 0 <= i < p ==> Ready(coms[i], exs, n, i)
      invariant forall i :: p <= i < n ==> coms[i].Idle()
    {
      Schedule(coms[p], exs, n, p);
    }
  }

  method Resume<V(!new), E>(com: InterfaceCommunicator<V, E>, ghost exs: seq<Exchange<V, E>>, ghost n: nat,
                            ghost p: nat)
    returns (fixed: bool, sizes: map<int, int>)
    requires Sized(exs, n) && p < n && Ready(com, exs, n, p)
    modifies com
    ensures Pending(com, exs, n, p) && Decided(exs, n, p, fixed, sizes)
  {
    hide AllKnown, AllSized, Project, TotalSize, Sends, Slots;
    var ok;
    ok, fixed, sizes := com.CommunicateAndResume();
  }

  method ResumeAll<V(!new), E>(coms: seq<InterfaceCommunicator<V, E>>, ghost exs: seq<Exchange<V, E>>, n: nat)
    returns (fixed: seq<bool>, sizes: seq<map<int, int>>)
    requires |coms| == n && DistinctObjects(coms) && Sized(exs, n)
    requires forall p :: 0 <= p < n ==> Ready(coms[p], exs, n, p)
    modifies coms
    ensures |fixed| == |sizes| == n
    ensures forall p :: 0 <= p < n ==> Pending(coms[p], exs, n, p) && Decided(exs, n, p, fixed[p], sizes[p])
  {
    hide Decided;
    fixed, sizes := [], [];
    for p := 0 to n
      invariant |fixed| == |sizes| == p
      invariant forall i :: 0 <= i < p ==> Pending(coms[i], exs, n, i) && Decided(exs, n, i, fixed[i], sizes[i])
      invariant forall i :: p <= i < n ==> Ready(coms[i], exs, n, i)
    {
      var f, s := Resume(coms[p], exs, n, p);
      fixed, sizes := fixed + [f], sizes + [s];
    }
  }

  lemma SourcesInRange<V(!new), E>(partner: E -> V, exs: seq<Exchange<V, E>>, n: nat, q: nat)
    requires RoundOk(partner, exs, n) && Sized(exs, n) && q < n
    ensures forall p :: p in Procs(Slots(exs, n, q)) ==> 0 <= p < n
  {
    hide RoundOk, Slots;
    RoundInRange(partner, exs, n, q);
  }

  /** What arrives from p with the decisions and sizes of both is the transfer of the model. */
  lemma TransferIs<V(!new), E>(exs: seq<Exchange<V, E>>, n: nat, p: nat, q: nat, fixedP: bool, sizesP: map<int, int>,
                               fixedQ: bool, sizesQ: map<int, int>)
    requires Sized(exs, n) && p < n && q < n
    requires Decided(exs, n, p, fixedP, sizesP) && Decided(exs, n, q, fixedQ, sizesQ)
    ensures Receive(fixedQ, AtLeastZero(GetSize(sizesQ, p)), Messages(fixedP, OutBuffer(exs, n, p, q))) ==
              Transfer(exs, n, p, q)
  { hide Fixed, Computed, OutBuffer, AtLeastZero, Messages; }

  /** All messages for process q: not ok if one is truncated, missing or left over. */
  method ExchangeFor<V(!new), E>(coms: seq<InterfaceCommunicator<V, E>>, ghost partner: E -> V,
                                 ghost exs: seq<Exchange<V, E>>,
                                 n: nat, q: nat, fixed: seq<bool>, sizes: seq<map<int, int>>)
    returns (ok: bool, received: map<int, seq<byte>>)
    requires |coms| == |fixed| == |sizes| == n && q < n
    requires RoundOk(partner, exs, n) && Sized(exs, n) && SmallBuffers(exs, n)
    requires forall p :: 0 <= p < n ==> Pending(coms[p], exs, n, p) && Decided(exs, n, p, fixed[p], sizes[p])
    ensures ok <==> AgreesWithSources(exs, n, q)
    ensures ok ==> Arrived(received, exs, n, q)
  {
    hide RoundOk, Sized, SmallBuffers, OutBuffer, Fixed, Computed, Talks, Slots, Sends, Transfer, Decided, Arrived,
      Procs, Clean;
    hide Receive, Messages, AtLeastZero, GetSize, AgreesWithSources, Stream;
    var procs := coms[q].curInProcs;
    SourcesInRange(partner, exs, n, q);
    var got := map p | p in procs ::
      Receive(fixed[q], AtLeastZero(GetSize(sizes[q], p)), Messages(fixed[p], Get(coms[p].bufMapOut, q)));
    forall p: nat | p < n
      ensures p in procs <==> Talks(exs, n, p, q)
      ensures p in procs ==> got[p] == Transfer(exs, n, p, q)
    {
      SourcesAreTalkers(partner, exs, n, p, q);
      TransferIs(exs, n, p, q, fixed[p], sizes[p], fixed[q], sizes[q]);
    }
    ok := forall p :: p in procs ==> Clean(got[p]);
    received := map p | p in procs && got[p].Received? :: got[p].data;
    AllClean(partner, exs, n, q, got, received);
  }

  /** Every process that has something for q has decided as q has. */
  ghost predicate AgreesWithSources<V, E>(exs: seq<Exchange<V, E>>, n: nat, q: nat)
    requires Sized(exs, n) && q < n
  { forall p: nat :: p < n && Talks(exs, n, p, q) ==> (Fixed(exs, n, p) <==> Fixed(exs, n, q)) }

  lemma AgreeIff<V, E>(exs: seq<Exchange<V, E>>, n: nat)
    requires Sized(exs, n)
    ensures Agree(exs, n) <==> forall q: nat :: q < n ==> AgreesWithSources(exs, n, q)
  {
    hide Fixed, Talks;
    if forall q: nat :: q < n ==> AgreesWithSources(exs, n, q) {
      forall p: nat, q: nat | p < n && q < n && Talks(exs, n, p, q) ensures Fixed(exs, n, p) <==> Fixed(exs, n, q) {
        assert AgreesWithSources(exs, n, q);
      }
    }
  }

  lemma AllClean<V(!new), E>(partner: E -> V, exs: seq<Exchange<V, E>>, n: nat, q: nat, got: map<int, Reception>,
                             received: map<int, seq<byte>>)
    requires RoundOk(partner, exs, n) && Sized(exs, n) && SmallBuffers(exs, n) && q < n
    requires forall p :: p in got ==> 0 <= p < n
    requires forall p: nat :: p < n ==>
               (p in got <==> Talks(exs, n, p, q)) && (p in got ==> got[p] == Transfer(exs, n, p, q))
    requires received == map p | p in got && got[p].Received? :: got[p].data
    ensures (forall p :: p in got ==> Clean(got[p])) <==> AgreesWithSources(exs, n, q)
    ensures (forall p :: p in got ==> Clean(got[p])) ==> Arrived(received, exs, n, q)
  {
    hide RoundOk, Sized, SmallBuffers, OutBuffer, Fixed, Transfer, Stream, To, Sends;
    forall p: nat | p < n
      ensures p in got ==> (Clean(got[p]) <==> (Fixed(exs, n, p) <==> Fixed(exs, n, q)))
      ensures p in got && Clean(got[p]) ==> Get(received, p) == Stream(To(Sends(exs, n, p), q))
      ensures p !in got ==> Stream(To(Sends(exs, n, p), q)) == []
    {
      TransferIff(partner, exs, n, p, q);
      OutBufferIs(exs, n, p, q);
    }
  }

  lemma OutBufferIs<V, E>(exs: seq<Exchange<V, E>>, n: nat, p: nat, q: nat)
    requires Sized(exs, n) && p < n && q < n
    ensures OutBuffer(exs, n, p, q) == Stream(To(Sends(exs, n, p), q))
    ensures !Talks(exs, n, p, q) ==> OutBuffer(exs, n, p, q) == []
  {}

  /** What a process has extracted: every entry of every interface, on every level and for every
      exchange, has the value of its partner, and every raw receive the bytes of its send. */
  ghost predicate Complete<V, E>(partner: E -> V, exs: seq<Exchange<V, E>>, n: nat, q: nat, out: seq<Outcome<V, E>>)
    requires Sized(exs, n) && q < n
  {
    && |out| == |Slots(exs, n, q)|
    && forall k :: 0 <= k < |out| ==> Served(partner, exs, n, q, k, out[k])
  }

  /** Idle again, and all in-buffers read to their end. */
  ghost predicate Finished<V(!new), E>(com: InterfaceCommunicator<V, E>)
    reads com
  { com.Idle() && forall x :: Get(com.bufMapIn, x) == [] }

  method WaitFor<V(!new), E>(com: InterfaceCommunicator<V, E>, ghost partner: E -> V, ghost exs: seq<Exchange<V, E>>,
                             ghost n: nat,
                             ghost q: nat, received: map<int, seq<byte>>)
    returns (out: seq<Outcome<V, E>>)
    requires RoundOk(partner, exs, n) && Sized(exs, n) && q < n
    requires Pending(com, exs, n, q) && Arrived(received, exs, n, q)
    modifies com
    ensures Finished(com) && Complete(partner, exs, n, q, out)
  {
    hide RoundOk, Sized, Arrived, TakeAll, Slots, Served;
    out := com.Wait(received);
    forall k | 0 <= k < |out| ensures Served(partner, exs, n, q, k, out[k]) {
      EveryEntryHasItsPartnersValue(partner, exs, n, q, received, k);
    }
    RoundConsumed(partner, exs, n, q, received);
  }

  lemma RoundConsumed<V(!new), E>(partner: E -> V, exs: seq<Exchange<V, E>>, n: nat, q: nat,
                                  received: map<int, seq<byte>>)
    requires RoundOk(partner, exs, n) && Sized(exs, n) && q < n && Arrived(received, exs, n, q)
    ensures forall x :: Get(TakeAll(Slots(exs, n, q), received).1, x) == []
  {
    hide TakeAll, Incoming, RoundOk;
    RoundIncoming(partner, exs, n, q, received);
    AllConsumed(From(exs, n, q), Slots(exs, n, q), received);
  }

  method ExchangeAll<V(!new), E>(coms: seq<InterfaceCommunicator<V, E>>, ghost partner: E -> V,
                                 ghost exs: seq<Exchange<V, E>>,
                                 n: nat, fixed: seq<bool>, sizes: seq<map<int, int>>)
    returns (ok: bool, received: seq<map<int, seq<byte>>>)
    requires |coms| == |fixed| == |sizes| == n && RoundOk(partner, exs, n) && Sized(exs, n) && SmallBuffers(exs, n)
    requires forall p :: 0 <= p < n ==> Pending(coms[p], exs, n, p) && Decided(exs, n, p, fixed[p], sizes[p])
    ensures ok <==> Agree(exs, n)
    ensures ok ==> |received| == n && forall q :: 0 <= q < n ==> Arrived(received[q], exs, n, q)
  {
    hide RoundOk, Sized, SmallBuffers, Pending, Decided, Arrived, Fixed, Talks;
    AgreeIff(exs, n);
    hide Agree, AgreesWithSources;
    ok, received := true, [];
    for q := 0 to n
      invariant ok && |received| == q
      invariant forall i: nat :: i < q ==> AgreesWithSources(exs, n, i) && Arrived(received[i], exs, n, i)
    {
      var here, r := ExchangeFor(coms, partner, exs, n, q, fixed, sizes);
      if !here { return false, []; }
      received := received + [r];
    }
  }

  method WaitAll<V(!new), E>(coms: seq<InterfaceCommunicator<V, E>>, ghost partner: E -> V,
                             ghost exs: seq<Exchange<V, E>>, n: nat,
                             received: seq<map<int, seq<byte>>>)
    returns (outs: seq<seq<Outcome<V, E>>>)
    requires |coms| == |received| == n && DistinctObjects(coms) && RoundOk(partner, exs, n) && Sized(exs, n)
    requires forall q :: 0 <= q < n ==> Pending(coms[q], exs, n, q) && Arrived(received[q], exs, n, q)
    modifies coms
    ensures |outs| == n && forall q :: 0 <= q < n ==> Finished(coms[q]) && Complete(partner, exs, n, q, outs[q])
  {
    hide RoundOk, Sized, Arrived, Complete;
    outs := [];
    for q := 0 to n
      invariant |outs| == q
      invariant forall i :: 0 <= i < q ==> Finished(coms[i]) && Complete(partner, exs, n, i, outs[i])
      invariant forall i :: q <= i < n ==> Pending(coms[i], exs, n, i)
    {
      var out := WaitFor(coms[q], partner, exs, n, q, received[q]);
      outs := outs + [out];
    }
  }

  /** A round of all processes: schedule, communicate, wait. It succeeds exactly if every two
      processes with something to exchange decide alike about sizes; then every interface entry
      has the value of its partner, every in-buffer is empty, and all communicators are ready for
      the next round. Otherwise a message is truncated, missing or left over. */
  method Round<V(!new), E>(coms: seq<InterfaceCommunicator<V, E>>, ghost partner: E -> V, exs: seq<Exchange<V, E>>,
                           n: nat)
    returns (ok: bool, outs: seq<seq<Outcome<V, E>>>)
    requires |coms| == n && DistinctObjects(coms) && forall p :: 0 <= p < n ==> coms[p].Idle()
    requires RoundOk(partner, exs, n) && Sized(exs, n) && SmallBuffers(exs, n)
    modifies coms
    ensures ok <==> Agree(exs, n)
    ensures ok ==> |outs| == n && forall q :: 0 <= q < n ==> Finished(coms[q]) && Complete(partner, exs, n, q, outs[q])
  {
    hide RoundOk, Sized, SmallBuffers, Agree, Complete, Finished, Pending, Ready, Decided, Arrived;
    ScheduleAll(coms, exs, n);
    var fixed, sizes := ResumeAll(coms, exs, n);
    var received;
    ok, received := ExchangeAll(coms, partner, exs, n, fixed, sizes);
    if !ok { return false, []; }
    outs := WaitAll(coms, partner, exs, n, received);
  }
}
