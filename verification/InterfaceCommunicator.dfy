/** InterfaceCommunicator: collecting sends into one buffer per peer, determining receive sizes,
    and extracting what arrived. */
module InterfaceCommunicatorClass {
  import opened ByteCodes
  import opened InterfaceDelivery
  import opened InterfaceLayouts

  /** A registered receive: raw data from one process, or a layout with its policy. */
  datatype ExtractorInfo<!V, E> = RawInfo(srcProc: int, rawSize: int) | LayoutInfo(layout: Layout<E>, pol: Policy<V>)

  function InfoSlots<V, E>(i: ExtractorInfo<V, E>): seq<Slot<V, E>> {
    match i
    case RawInfo(p, n) => [IntoRaw(p, n)]
    case LayoutInfo(lay, pol) => LayoutSlots(lay, pol)
  }

  function AllSlots<V, E>(infos: seq<ExtractorInfo<V, E>>): seq<Slot<V, E>> {
    if |infos| == 0 then [] else AllSlots(infos[..|infos| - 1]) + InfoSlots(infos[|infos| - 1])
  }

  /** The packets of a schedule that go to q, in order. */
  function To<V>(sends: seq<(int, Packet<V>)>, q: int): seq<Packet<V>> {
    if |sends| == 0 then []
    else
      var s := sends[|sends| - 1];
      To(sends[..|sends| - 1], q) + (if s.0 == q then [s.1] else [])
  }

  lemma ToSnoc<V>(sends: seq<(int, Packet<V>)>, t: int, p: Packet<V>, q: int)
    ensures To(sends + [(t, p)], q) == if t == q then To(sends, q) + [p] else To(sends, q)
  { assert (sends + [(t, p)])[..|sends|] == sends; }

  lemma {:induction false} ToConcat<V>(a: seq<(int, Packet<V>)>, b: seq<(int, Packet<V>)>, q: int)
    ensures To(a + b, q) == To(a, q) + To(b, q)
  {
    if |b| == 0 {
      assert a + b == a;
    } else {
      var n := |b| - 1;
      ToConcat(a, b[..n], q);
      assert a + b == (a + b[..n]) + [b[n]];
      ToSnoc(a + b[..n], b[n].0, b[n].1, q);
    }
  }

  /** What sending a layout schedules, in walking order. */
  function LevelSends<V>(lvl: Level<V>, pol: Policy<V>): seq<(int, Packet<V>)> {
    if |lvl| == 0 then []
    else
      var e := lvl[|lvl| - 1];
      LevelSends(lvl[..|lvl| - 1], pol) + (if |e.iface| > 0 then [(e.proc, Data(e.iface, pol))] else [])
  }

  function LayoutSends<V>(lay: Layout<V>, pol: Policy<V>): seq<(int, Packet<V>)> {
    if |lay| == 0 then [] else LayoutSends(lay[..|lay| - 1], pol) + LevelSends(lay[|lay| - 1], pol)
  }

  lemma {:induction false} LevelSendsTo<V>(lvl: Level<V>, pol: Policy<V>, q: int)
    ensures To(LevelSends(lvl, pol), q) == LevelPackets(lvl, pol, q)
  {
    if |lvl| > 0 {
      var n := |lvl| - 1;
      LevelSendsTo(lvl[..n], pol, q);
      assert |lvl[n].iface| == 0 ==> LevelSends(lvl, pol) == LevelSends(lvl[..n], pol);
      ToSnoc(LevelSends(lvl[..n], pol), lvl[n].proc, Data(lvl[n].iface, pol), q);
    }
  }

  /** Per peer, the walk over all interfaces schedules the packets of that peer. */
  lemma {:induction false} LayoutSendsTo<V>(lay: Layout<V>, pol: Policy<V>, q: int)
    ensures To(LayoutSends(lay, pol), q) == LayoutPackets(lay, pol, q)
  {
    if |lay| > 0 {
      var n := |lay| - 1;
      LayoutSendsTo(lay[..n], pol, q);
      LevelSendsTo(lay[n], pol, q);
      ToConcat(LayoutSends(lay[..n], pol), LevelSends(lay[n], pol), q);
    }
  }

  function GetSize(sizes: map<int, int>, q: int): int { if q in sizes then sizes[q] else 0 }

  ghost predicate AllKnown<V>(sends: seq<(int, Packet<V>)>) { forall k :: 0 <= k < |sends| ==> KnownSize(sends[k].1) }

  ghost predicate AllSized<V, E>(slots: seq<Slot<V, E>>) { forall k :: 0 <= k < |slots| ==> SlotSize(slots[k]) >= 0 }

  lemma {:induction false} SizeSnoc<V, E>(slots: seq<Slot<V, E>>, s: Slot<V, E>, q: int)
    ensures TotalSize(Project(slots + [s], q)) ==
              TotalSize(Project(slots, q)) + (if s.proc == q then SlotSize(s) else 0)
  {
    if |slots| == 0 {
      assert slots + [s] == [s];
      ProjectSingle(s, q);
      assert TotalSize<V, E>([]) == 0;
    } else {
      SizeSnoc(slots[1..], s, q);
      assert (slots + [s])[1..] == slots[1..] + [s] && (slots + [s])[0] == slots[0];
      ProjectCons(slots[0], slots[1..] + [s], q);
      ProjectCons(slots[0], slots[1..], q);
      assert slots + [s] == [slots[0]] + (slots[1..] + [s]) && slots == [slots[0]] + slots[1..];
    }
  }

  lemma ProjectCons<V, E>(s: Slot<V, E>, rest: seq<Slot<V, E>>, q: int)
    ensures TotalSize(Project([s] + rest, q)) == (if s.proc == q then SlotSize(s) else 0) + TotalSize(Project(rest, q))
  {
    assert ([s] + rest)[1..] == rest && ([s] + rest)[0] == s;
    if s.proc == q {
      assert ([s] + Project(rest, q))[1..] == Project(rest, q) && ([s] + Project(rest, q))[0] == s;
    } else {
      assert Project([s] + rest, q) == Project(rest, q);
    }
  }

  /** Every out-buffer holds what was scheduled for its process, and the processes with
      something scheduled are the current targets. */
  ghost predicate Buffered<V>(bufs: map<int, seq<byte>>, procs: set<int>, sends: seq<(int, Packet<V>)>) {
    && (forall q :: Get(bufs, q) == Stream(To(sends, q)))
    && (forall q :: q in procs <==> |To(sends, q)| > 0)
  }

  lemma AppendBuffered<V>(bufs: map<int, seq<byte>>, procs: set<int>, sends: seq<(int, Packet<V>)>, target: int,
                          p: Packet<V>)
    requires Buffered(bufs, procs, sends)
    ensures Buffered(bufs[target := Get(bufs, target) + PacketBytes(p)], procs + {target}, sends + [(target, p)])
  {
    hide Stream, To, PacketBytes;
    var bufs' := bufs[target := Get(bufs, target) + PacketBytes(p)];
    var procs', sends' := procs + {target}, sends + [(target, p)];
    forall q ensures Get(bufs', q) == Stream(To(sends', q)) && (q in procs' <==> |To(sends', q)| > 0) {
      ToSnoc(sends, target, p, q);
      StreamAppend(To(sends, q), p);
    }
  }

  class InterfaceCommunicator<V(!new), E> {
    var bufMapOut: map<int, seq<byte>>
    var curOutProcs: set<int>
    var bufMapIn: map<int, seq<byte>>       // what is still to be read
    var curInProcs: set<int>
    var extractorInfos: seq<ExtractorInfo<V, E>>
    var sendBuffersFixed: bool
    var numSendRequests: nat
    var numReceiveRequests: nat
    ghost var sends: seq<(int, Packet<V>)>  // what has been scheduled since the last wait

    /** The out-buffer of every process holds what was scheduled for it. */
    ghost predicate Scheduling()
      reads this
    {
      && Buffered(bufMapOut, curOutProcs, sends)
      && (sendBuffersFixed <==> AllKnown(sends))
    }

    /** The state right after construction and after every wait. */
    ghost predicate Idle()
      reads this
    {
      && Scheduling() && sends == [] && curOutProcs == {} && extractorInfos == []
      && sendBuffersFixed && numSendRequests == 0 && numReceiveRequests == 0
    }

    constructor ()
      ensures Idle()
    {
      bufMapOut, curOutProcs, bufMapIn, curInProcs := map[], {}, map[], {};
      extractorInfos, sendBuffersFixed, numSendRequests, numReceiveRequests := [], true, 0, 0;
      sends := [];
    }

    /** Appending one packet to the buffer of its target. */
    method Append(target: int, p: Packet<V>)
      requires Scheduling()
      modifies this`bufMapOut, this`curOutProcs, this`sendBuffersFixed, this`sends
      ensures Scheduling() && sends == old(sends) + [(target, p)]
    {
      hide PacketBytes, KnownSize, AllKnown, Buffered;
      AppendBuffered(bufMapOut, curOutProcs, sends, target, p);
      KnownSnoc(sends, target, p);
      bufMapOut := bufMapOut[target := Get(bufMapOut, target) + PacketBytes(p)];
      curOutProcs := curOutProcs + {target};
      sendBuffersFixed := sendBuffersFixed && KnownSize(p);
      sends := sends + [(target, p)];
    }

    /** send_raw: the size precedes the data unless the target knows it. */
    method SendRaw(target: int, bytes: seq<byte>, sizeKnownAtTarget: bool)
      requires Scheduling()
      modifies this`bufMapOut, this`curOutProcs, this`sendBuffersFixed, this`sends
      ensures Scheduling() && sends == old(sends) + [(target, Raw(bytes, sizeKnownAtTarget))]
    { Append(target, Raw(bytes, sizeKnownAtTarget)); }

    /** send_data for one interface. */
    method SendInterface(target: int, iface: seq<V>, pol: Policy<V>)
      requires Scheduling()
      modifies this`bufMapOut, this`curOutProcs, this`sendBuffersFixed, this`sends
      ensures Scheduling() && sends == old(sends) + (if |iface| > 0 then [(target, Data(iface, pol))] else [])
    {
      if |iface| > 0 { Append(target, Data(iface, pol)); }
    }

    method SendLevel(lvl: Level<V>, pol: Policy<V>)
      requires Scheduling()
      modifies this`bufMapOut, this`curOutProcs, this`sendBuffersFixed, this`sends
      ensures Scheduling() && sends == old(sends) + LevelSends(lvl, pol)
    {
      hide Scheduling;
      for i := 0 to |lvl|
        invariant Scheduling() && sends == old(sends) + LevelSends(lvl[..i], pol)
      {
        assert lvl[..i + 1][..i] == lvl[..i];
        SendInterface(lvl[i].proc, lvl[i].iface, pol);
      }
      assert lvl[..|lvl|] == lvl;
    }

    /** send_data for a layout: level by level, in ascending process order. */
    method SendLayout(lay: Layout<V>, pol: Policy<V>)
      requires Scheduling()
      modifies this`bufMapOut, this`curOutProcs, this`sendBuffersFixed, this`sends
      ensures Scheduling() && sends == old(sends) + LayoutSends(lay, pol)
    {
      hide Scheduling;
      for l := 0 to |lay|
        invariant Scheduling() && sends == old(sends) + LayoutSends(lay[..l], pol)
      {
        assert lay[..l + 1][..l] == lay[..l];
        SendLevel(lay[l], pol);
      }
      assert lay[..|lay|] == lay;
    }

    method ReceiveRaw(src: int, size: int)
      modifies this`extractorInfos
      ensures extractorInfos == old(extractorInfos) + [RawInfo(src, size)]
    { extractorInfos := extractorInfos + [RawInfo(src, size)]; }

    /** receive_data for a layout; a layout without interfaces is not registered. */
    method ReceiveLayout(lay: Layout<E>, pol: Policy<V>)
      modifies this`extractorInfos
      ensures AllSlots(extractorInfos) == AllSlots(old(extractorInfos)) + LayoutSlots(lay, pol)
    {
      if exists l :: 0 <= l < |lay| && |lay[l]| > 0 {
        extractorInfos := extractorInfos + [LayoutInfo(lay, pol)];
        assert extractorInfos[..|extractorInfos| - 1] == old(extractorInfos);
      } else {
        NoInterfaces(lay, pol);
      }
    }

    /** collect_layout_buffer_sizes: adds up sizes per process until one is unknown. */
    method CollectLevelSizes(lvl: Level<E>, pol: Policy<V>, sizes0: map<int, int>)
        returns (ok: bool, sizes: map<int, int>)
      ensures ok <==> AllSized(LevelSlots(lvl, pol))
      ensures ok ==> SizesAdd(sizes, sizes0, LevelSlots(lvl, pol))
    {
      hide AllSized, SizesAdd;
      sizes := sizes0;
      NothingAdded<V, E>(sizes0);
      for j := 0 to |lvl|
        invariant AllSized(LevelSlots(lvl[..j], pol)) && SizesAdd(sizes, sizes0, LevelSlots(lvl[..j], pol))
      {
        assert lvl[..j + 1][..j] == lvl[..j];
        if |lvl[j].iface| > 0 {
          ghost var slot: Slot<V, E> := Into(lvl[j].proc, lvl[j].iface, pol);
          var buffSize := pol.size(|lvl[j].iface|);
          SizedConcat(LevelSlots(lvl[..j], pol), [slot]);
          SizedOne(slot);
          if buffSize < 0 {
            LevelSizedPrefix(lvl, pol, j + 1);
            return false, sizes;
          }
          AddSnoc(sizes, sizes0, LevelSlots(lvl[..j], pol), slot);
          if lvl[j].proc in sizes {
            sizes := sizes[lvl[j].proc := sizes[lvl[j].proc] + buffSize];
          } else {
            sizes := sizes[lvl[j].proc := buffSize];
          }
        } else {
          assert LevelSlots(lvl[..j + 1], pol) == LevelSlots(lvl[..j], pol);
        }
      }
      assert lvl[..|lvl|] == lvl;
      ok := true;
    }

    method CollectLayoutBufferSizes(lay: Layout<E>, pol: Policy<V>, sizes0: map<int, int>)
        returns (ok: bool, sizes: map<int, int>)
      ensures ok <==> AllSized(LayoutSlots(lay, pol))
      ensures ok ==> SizesAdd(sizes, sizes0, LayoutSlots(lay, pol))
    {
      hide AllSized, SizesAdd;
      sizes, ok := sizes0, true;
      NothingAdded<V, E>(sizes0);
      for l := 0 to |lay|
        invariant ok && AllSized(LayoutSlots(lay[..l], pol)) && SizesAdd(sizes, sizes0, LayoutSlots(lay[..l], pol))
      {
        assert lay[..l + 1][..l] == lay[..l];
        ghost var before := sizes;
        ok, sizes := CollectLevelSizes(lay[l], pol, sizes);
        SizedConcat(LayoutSlots(lay[..l], pol), LevelSlots(lay[l], pol));
        if !ok {
          LayoutSizedPrefix(lay, pol, l + 1);
          return;
        }
        AddTwice(sizes, before, sizes0, LayoutSlots(lay[..l], pol), LevelSlots(lay[l], pol));
      }
      assert lay[..|lay|] == lay;
    }

    /** The sizes of all receives, unless one of them cannot be determined. */
    method CollectAllSizes() returns (ok: bool, sizes: map<int, int>)
      ensures ok <==> AllSized(AllSlots(extractorInfos))
      ensures ok ==> SizesAdd(sizes, map[], AllSlots(extractorInfos))
    {
      hide AllSized, SizesAdd, LayoutSlots;
      var infos := extractorInfos;
      sizes, ok := map[], true;
      NothingAdded<V, E>(map[]);
      for k := 0 to |infos|
        invariant ok && AllSized(AllSlots(infos[..k])) && SizesAdd(sizes, map[], AllSlots(infos[..k]))
      {
        assert infos[..k + 1][..k] == infos[..k];
        ghost var before := sizes;
        SizedConcat(AllSlots(infos[..k]), InfoSlots(infos[k]));
        match infos[k] {
          case RawInfo(src, rawSize) =>
            SizedOne<V, E>(IntoRaw(src, rawSize));
            if rawSize < 0 {
              InfosSizedPrefix(infos, k + 1);
              return false, sizes;
            }
            AddSnoc(sizes, map[], AllSlots(infos[..k]), IntoRaw(src, rawSize));
            sizes := sizes[src := GetSize(sizes, src) + rawSize];
          case LayoutInfo(lay, pol) =>
            ok, sizes := CollectLayoutBufferSizes(lay, pol, sizes);
            if !ok {
              InfosSizedPrefix(infos, k + 1);
              return;
            }
            AddTwice(sizes, before, map[], AllSlots(infos[..k]), InfoSlots(infos[k]));
        }
      }
      assert infos[..|infos|] == infos;
    }

    /** prepare_receiver_buffer_map for all registered receives. */
    method CollectInProcs()
      modifies this`curInProcs
      ensures curInProcs == Procs(AllSlots(extractorInfos))
    {
      curInProcs := {};
      for k := 0 to |extractorInfos|
        invariant curInProcs == Procs(AllSlots(extractorInfos[..k]))
      {
        assert extractorInfos[..k + 1][..k] == extractorInfos[..k];
        ProcsConcat(AllSlots(extractorInfos[..k]), InfoSlots(extractorInfos[k]));
        match extractorInfos[k] {
          case RawInfo(src, n) =>
            ProcsOne<V, E>(IntoRaw(src, n));
            curInProcs := curInProcs + {src};
          case LayoutInfo(lay, pol) =>
            var procs := LayoutProcs(lay, pol);
            curInProcs := curInProcs + procs;
        }
      }
      assert extractorInfos[..|extractorInfos|] == extractorInfos;
    }

    method LayoutProcs(lay: Layout<E>, ghost pol: Policy<V>) returns (procs: set<int>)
      ensures procs == Procs(LayoutSlots(lay, pol))
    {
      procs := {};
      for l := 0 to |lay|
        invariant procs == Procs(LayoutSlots(lay[..l], pol))
      {
        assert lay[..l + 1][..l] == lay[..l];
        for j := 0 to |lay[l]|
          invariant procs == Procs(LayoutSlots(lay[..l], pol)) + Procs(LevelSlots(lay[l][..j], pol))
        {
          assert lay[l][..j + 1][..j] == lay[l][..j];
          if |lay[l][j].iface| > 0 {
            ghost var slot: Slot<V, E> := Into(lay[l][j].proc, lay[l][j].iface, pol);
            ProcsConcat(LevelSlots(lay[l][..j], pol), [slot]);
            ProcsOne(slot);
            procs := procs + {lay[l][j].proc};
          } else {
            assert LevelSlots(lay[l][..j + 1], pol) == LevelSlots(lay[l][..j], pol);
          }
        }
        assert lay[l][..|lay[l]|] == lay[l];
        ProcsConcat(LayoutSlots(lay[..l], pol), LevelSlots(lay[l], pol));
      }
      assert lay[..|lay|] == lay;
    }

    /** communicate_and_resume up to the exchange itself: the sources, whether sizes have to be
        exchanged, and if not, the size of every receive. */
    method CommunicateAndResume() returns (ok: bool, fixed: bool, sizes: map<int, int>)
      requires Scheduling()
      modifies this`curInProcs, this`bufMapIn, this`numSendRequests, this`numReceiveRequests, this`sendBuffersFixed
      ensures ok <==> old(numSendRequests) == 0 && old(numReceiveRequests) == 0
      ensures !ok ==> unchanged(this)
      ensures ok ==> (fixed <==> AllKnown(sends) && AllSized(AllSlots(extractorInfos)))
      ensures ok && fixed ==> forall q :: GetSize(sizes, q) == TotalSize(Project(AllSlots(extractorInfos), q))
      ensures ok ==> sendBuffersFixed && numSendRequests == |curOutProcs| && numReceiveRequests == |curInProcs|
      ensures ok ==> curInProcs == Procs(AllSlots(extractorInfos))
    {
      hide AllKnown, AllSized, Buffered, Project, TotalSize, AllSlots, Procs;
      fixed, sizes := false, map[];
      if numSendRequests > 0 || numReceiveRequests > 0 { return false, false, map[]; }
      ok := true;
      bufMapIn := map q | q in bufMapIn :: [];
      CollectInProcs();
      bufMapIn := map q | q in bufMapIn.Keys + curInProcs :: [];
      numSendRequests, numReceiveRequests := |curOutProcs|, |curInProcs|;
      fixed := sendBuffersFixed;
      if fixed { fixed, sizes := CollectAllSizes(); }
      sendBuffersFixed := true;
    }

    /** extract_data for one level, then for a layout: every non-empty interface takes its
        values from the buffer of its process. */
    method ExtractLevel(lvl: Level<E>, pol: Policy<V>, out0: seq<Outcome<V, E>>) returns (out: seq<Outcome<V, E>>)
      modifies this`bufMapIn
      ensures (out, bufMapIn) == Continue(out0, old(bufMapIn), LevelSlots(lvl, pol))
    {
      hide TakeAll, Take;
      out := out0;
      ContinueNothing(out0, bufMapIn);
      for j := 0 to |lvl|
        invariant (out, bufMapIn) == Continue(out0, old(bufMapIn), LevelSlots(lvl[..j], pol))
      {
        assert lvl[..j + 1][..j] == lvl[..j];
        if |lvl[j].iface| > 0 {
          var slot := Into(lvl[j].proc, lvl[j].iface, pol);
          ContinueSnoc(out0, old(bufMapIn), LevelSlots(lvl[..j], pol), slot);
          var (o, rest) := Take(slot, Get(bufMapIn, lvl[j].proc));
          out, bufMapIn := out + [o], bufMapIn[lvl[j].proc := rest];
        } else {
          assert LevelSlots(lvl[..j + 1], pol) == LevelSlots(lvl[..j], pol);
        }
      }
      assert lvl[..|lvl|] == lvl;
    }

    method ExtractLayout(lay: Layout<E>, pol: Policy<V>, out0: seq<Outcome<V, E>>) returns (out: seq<Outcome<V, E>>)
      modifies this`bufMapIn
      ensures (out, bufMapIn) == Continue(out0, old(bufMapIn), LayoutSlots(lay, pol))
    {
      hide TakeAll, Continue;
      out := out0;
      ContinueNothing(out0, bufMapIn);
      for l := 0 to |lay|
        invariant (out, bufMapIn) == Continue(out0, old(bufMapIn), LayoutSlots(lay[..l], pol))
      {
        assert lay[..l + 1][..l] == lay[..l];
        ContinueConcat(out0, old(bufMapIn), LayoutSlots(lay[..l], pol), LevelSlots(lay[l], pol));
        out := ExtractLevel(lay[l], pol, out);
      }
      assert lay[..|lay|] == lay;
    }

    /** wait, once the messages have arrived: the extractions in the order the receives were
        registered, then everything is reset for the next round. */
    method Wait(received: map<int, seq<byte>>) returns (out: seq<Outcome<V, E>>)
      requires sendBuffersFixed
      modifies this
      ensures (out, bufMapIn) == TakeAll(AllSlots(old(extractorInfos)), received)
      ensures Idle()
    {
      hide TakeAll, Continue, LayoutSlots, Take;
      bufMapIn, out := received, [];
      ContinueNothing<V, E>([], received);
      var infos := extractorInfos;
      for k := 0 to |infos|
        invariant (out, bufMapIn) == Continue([], received, AllSlots(infos[..k]))
        invariant sendBuffersFixed && infos == old(extractorInfos)
      {
        assert infos[..k + 1][..k] == infos[..k];
        ContinueConcat([], received, AllSlots(infos[..k]), InfoSlots(infos[k]));
        match infos[k] {
          case RawInfo(src, rawSize) =>
            ContinueOne(out, bufMapIn, IntoRaw(src, rawSize));
            var (o, rest) := Take<V, E>(IntoRaw(src, rawSize), Get(bufMapIn, src));
            out, bufMapIn := out + [o], bufMapIn[src := rest];
          case LayoutInfo(lay, pol) =>
            out := ExtractLayout(lay, pol, out);
        }
      }
      assert infos[..|infos|] == infos;
      ContinueFromStart(received, AllSlots(infos));
      bufMapOut := map q | q in bufMapOut :: [];
      curOutProcs, extractorInfos, numSendRequests, numReceiveRequests := {}, [], 0, 0;
      sends := [];
    }
  }

  // ---- facts about sizes ------------------------------------------------------------------

  lemma KnownSnoc<V>(sends: seq<(int, Packet<V>)>, t: int, p: Packet<V>)
    ensures AllKnown(sends + [(t, p)]) <==> AllKnown(sends) && KnownSize(p)
  {
    hide KnownSize;
    assert (sends + [(t, p)])[|sends|] == (t, p);
    if AllKnown(sends + [(t, p)]) {
      forall k | 0 <= k < |sends| ensures KnownSize(sends[k].1) { assert (sends + [(t, p)])[k] == sends[k]; }
    }
  }

  lemma {:induction false} NoInterfaces<V, E>(lay: Layout<E>, pol: Policy<V>)
    requires forall l :: 0 <= l < |lay| ==> |lay[l]| == 0
    ensures LayoutSlots(lay, pol) == []
  { if |lay| > 0 { NoInterfaces(lay[..|lay| - 1], pol); } }

  /** sizes holds what sizes0 held plus the sizes of the slots, per process. */
  ghost predicate SizesAdd<V, E>(sizes: map<int, int>, sizes0: map<int, int>, slots: seq<Slot<V, E>>) {
    forall q :: GetSize(sizes, q) == GetSize(sizes0, q) + TotalSize(Project(slots, q))
  }

  lemma NothingAdded<V, E>(sizes: map<int, int>)
    ensures SizesAdd<V, E>(sizes, sizes, []) && AllSized<V, E>([])
  {}

  lemma AddSnoc<V, E>(sizes: map<int, int>, sizes0: map<int, int>, slots: seq<Slot<V, E>>, slot: Slot<V, E>)
    requires SizesAdd(sizes, sizes0, slots)
    ensures SizesAdd(sizes[slot.proc := GetSize(sizes, slot.proc) + SlotSize(slot)], sizes0, slots + [slot])
  {
    hide Project, SlotSize, TotalSize;
    var sizes' := sizes[slot.proc := GetSize(sizes, slot.proc) + SlotSize(slot)];
    forall q ensures GetSize(sizes', q) == GetSize(sizes0, q) + TotalSize(Project(slots + [slot], q)) {
      SizeSnoc(slots, slot, q);
    }
  }

  lemma SizeNothing<V, E>(q: int)
    ensures TotalSize(Project<V, E>([], q)) == 0
  {}

  lemma {:induction false} SizeConcat<V, E>(a: seq<Slot<V, E>>, b: seq<Slot<V, E>>, q: int)
    ensures TotalSize(Project(a + b, q)) == TotalSize(Project(a, q)) + TotalSize(Project(b, q))
  {
    hide Project, TotalSize;
    if |b| == 0 {
      assert a + b == a;
      SizeNothing<V, E>(q);
    } else {
      var n := |b| - 1;
      SizeConcat(a, b[..n], q);
      assert a + b == (a + b[..n]) + [b[n]] && b == b[..n] + [b[n]];
      SizeSnoc(a + b[..n], b[n], q);
      SizeSnoc(b[..n], b[n], q);
    }
  }

  lemma AddTwice<V, E>(sizes: map<int, int>, between: map<int, int>, sizes0: map<int, int>, a: seq<Slot<V, E>>,
                       b: seq<Slot<V, E>>)
    requires SizesAdd(between, sizes0, a) && SizesAdd(sizes, between, b)
    ensures SizesAdd(sizes, sizes0, a + b)
  {
    hide Project, TotalSize;
    forall q ensures GetSize(sizes, q) == GetSize(sizes0, q) + TotalSize(Project(a + b, q)) { SizeConcat(a, b, q); }
  }

  lemma SizedConcat<V, E>(a: seq<Slot<V, E>>, b: seq<Slot<V, E>>)
    ensures AllSized(a + b) <==> AllSized(a) && AllSized(b)
  {
    hide SlotSize;
    if AllSized(a + b) {
      forall k | 0 <= k < |a| ensures SlotSize(a[k]) >= 0 { assert (a + b)[k] == a[k]; }
      forall k | 0 <= k < |b| ensures SlotSize(b[k]) >= 0 { assert (a + b)[|a| + k] == b[k]; }
    }
  }

  lemma SizedOne<V, E>(s: Slot<V, E>)
    ensures AllSized([s]) <==> SlotSize(s) >= 0
  { assert [s][0] == s; }

  lemma {:induction false} LevelSizedPrefix<V, E>(lvl: Level<E>, pol: Policy<V>, j: nat)
    requires j <= |lvl|
    ensures AllSized(LevelSlots(lvl, pol)) ==> AllSized(LevelSlots(lvl[..j], pol))
    decreases |lvl|
  {
    hide AllSized;
    if j == |lvl| {
      assert lvl[..j] == lvl;
    } else {
      var n := |lvl| - 1;
      var last: seq<Slot<V, E>> := if |lvl[n].iface| > 0 then [Into(lvl[n].proc, lvl[n].iface, pol)] else [];
      SizedConcat(LevelSlots(lvl[..n], pol), last);
      LevelSizedPrefix(lvl[..n], pol, j);
      assert lvl[..n][..j] == lvl[..j];
    }
  }

  lemma {:induction false} LayoutSizedPrefix<V, E>(lay: Layout<E>, pol: Policy<V>, l: nat)
    requires l <= |lay|
    ensures AllSized(LayoutSlots(lay, pol)) ==> AllSized(LayoutSlots(lay[..l], pol))
    decreases |lay|
  {
    hide AllSized;
    if l == |lay| {
      assert lay[..l] == lay;
    } else {
      var n := |lay| - 1;
      SizedConcat(LayoutSlots(lay[..n], pol), LevelSlots(lay[n], pol));
      LayoutSizedPrefix(lay[..n], pol, l);
      assert lay[..n][..l] == lay[..l];
    }
  }

  lemma {:induction false} InfosSizedPrefix<V, E>(infos: seq<ExtractorInfo<V, E>>, k: nat)
    requires k <= |infos|
    ensures AllSized(AllSlots(infos)) ==> AllSized(AllSlots(infos[..k]))
    decreases |infos|
  {
    hide AllSized;
    if k == |infos| {
      assert infos[..k] == infos;
    } else {
      var n := |infos| - 1;
      SizedConcat(AllSlots(infos[..n]), InfoSlots(infos[n]));
      InfosSizedPrefix(infos[..n], k);
      assert infos[..n][..k] == infos[..k];
    }
  }

  ghost function Procs<V, E>(slots: seq<Slot<V, E>>): set<int> { set k | 0 <= k < |slots| :: slots[k].proc }

  lemma ProcsConcat<V, E>(a: seq<Slot<V, E>>, b: seq<Slot<V, E>>)
    ensures Procs(a + b) == Procs(a) + Procs(b)
  {
    forall q | q in Procs(a) + Procs(b) ensures q in Procs(a + b) {
      if k :| 0 <= k < |a| && a[k].proc == q {
        assert (a + b)[k].proc == q;
      } else {
        var j :| 0 <= j < |b| && b[j].proc == q;
        assert (a + b)[|a| + j].proc == q;
      }
    }
  }

  lemma ProcsOne<V, E>(s: Slot<V, E>)
    ensures Procs([s]) == {s.proc}
  { assert [s][0].proc in Procs([s]); }

  // ---- facts about extraction ---------------------------------------------------------------

  /** Extraction continued after some outcomes have been collected. */
  function Continue<V, E>(out: seq<Outcome<V, E>>, bufs: map<int, seq<byte>>,
                          slots: seq<Slot<V, E>>): (seq<Outcome<V, E>>, map<int, seq<byte>>) {
    var (os, bufs') := TakeAll(slots, bufs);
    (out + os, bufs')
  }

  lemma ContinueNothing<V, E>(out: seq<Outcome<V, E>>, bufs: map<int, seq<byte>>)
    ensures Continue(out, bufs, []) == (out, bufs)
  { assert out + [] == out; }

  lemma ContinueFromStart<V, E>(bufs: map<int, seq<byte>>, slots: seq<Slot<V, E>>)
    ensures Continue([], bufs, slots) == TakeAll(slots, bufs)
  { assert [] + TakeAll(slots, bufs).0 == TakeAll(slots, bufs).0; }

  lemma TakeFront<V, E>(s: Slot<V, E>, rest: seq<Slot<V, E>>, bufs: map<int, seq<byte>>)
    ensures var (o, left) := Take(s, Get(bufs, s.proc));
            var t := TakeAll(rest, bufs[s.proc := left]);
            TakeAll([s] + rest, bufs) == ([o] + t.0, t.1)
  {
    hide Take;
    assert ([s] + rest)[1..] == rest && ([s] + rest)[0] == s;
  }

  lemma {:induction false} TakeConcat<V, E>(a: seq<Slot<V, E>>, b: seq<Slot<V, E>>, bufs: map<int, seq<byte>>)
    ensures var r := TakeAll(a, bufs); var t := TakeAll(b, r.1); TakeAll(a + b, bufs) == (r.0 + t.0, t.1)
  {
    hide Take, TakeAll;
    if |a| == 0 {
      TakeNothing<V, E>(a, bufs);
      assert a + b == b && [] + TakeAll(b, bufs).0 == TakeAll(b, bufs).0;
    } else {
      var (o, rest) := Take(a[0], Get(bufs, a[0].proc));
      var bufs' := bufs[a[0].proc := rest];
      TakeConcat(a[1..], b, bufs');
      TakeFront(a[0], a[1..], bufs);
      TakeFront(a[0], a[1..] + b, bufs);
      assert a == [a[0]] + a[1..] && a + b == [a[0]] + (a[1..] + b);
      var r := TakeAll(a[1..], bufs');
      assert [o] + (r.0 + TakeAll(b, r.1).0) == ([o] + r.0) + TakeAll(b, r.1).0;
    }
  }

  lemma TakeNothing<V, E>(slots: seq<Slot<V, E>>, bufs: map<int, seq<byte>>)
    requires |slots| == 0
    ensures TakeAll(slots, bufs) == ([], bufs)
  {
  }

  lemma ContinueConcat<V, E>(out: seq<Outcome<V, E>>, bufs: map<int, seq<byte>>, a: seq<Slot<V, E>>, b: seq<Slot<V, E>>)
    ensures var r := Continue(out, bufs, a); Continue(out, bufs, a + b) == Continue(r.0, r.1, b)
  {
    hide TakeAll;
    TakeConcat(a, b, bufs);
    var r := TakeAll(a, bufs);
    assert out + (r.0 + TakeAll(b, r.1).0) == (out + r.0) + TakeAll(b, r.1).0;
  }

  lemma ContinueOne<V, E>(out: seq<Outcome<V, E>>, bufs: map<int, seq<byte>>, s: Slot<V, E>)
    ensures var (o, rest) := Take(s, Get(bufs, s.proc)); Continue(out, bufs, [s]) == (out + [o], bufs[s.proc := rest])
  {
    hide Take;
    assert [s][1..] == [];
    var (o, rest) := Take(s, Get(bufs, s.proc));
    assert TakeAll([s], bufs) == ([o] + [], bufs[s.proc := rest]);
    assert [o] + [] == [o];
  }

  lemma ContinueSnoc<V, E>(out: seq<Outcome<V, E>>, bufs: map<int, seq<byte>>, slots: seq<Slot<V, E>>, s: Slot<V, E>)
    ensures var r := Continue(out, bufs, slots); var (o, rest) := Take(s, Get(r.1, s.proc));
            Continue(out, bufs, slots + [s]) == (r.0 + [o], r.1[s.proc := rest])
  {
    hide Continue, Take;
    ContinueConcat(out, bufs, slots, [s]);
    var r := Continue(out, bufs, slots);
    ContinueOne(r.0, r.1, s);
  }
}
