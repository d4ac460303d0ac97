/** What travels between two processes during one communication step, independent of how the
    communicator collects and extracts it. */
module InterfaceDelivery {
  import opened ByteCodes

  /** ICommunicationPolicy: collect writes the values of an interface, extract reads as many
      values as the interface has entries, and size is get_required_buffer_size. */
  datatype Policy<!V> = Policy(
    size: nat -> int,
    collect: seq<V> -> seq<byte>,
    extract: (seq<byte>, nat) -> (seq<V>, nat))

  /** The contract of a policy: extract consumes exactly what collect wrote, and a size that
      can be determined depends on the interface length only and is exact. */
  ghost predicate WellBehaved<V(!new)>(pol: Policy<V>) {
    && (forall vs: seq<V>, rest: seq<byte> :: pol.extract(pol.collect(vs) + rest, |vs|) == (vs, |pol.collect(vs)|))
    && (forall vs: seq<V> :: pol.size(|vs|) >= 0 ==> |pol.collect(vs)| == pol.size(|vs|))
  }

  /** One scheduled send: the values of an interface, or raw data whose size the target may know. */
  datatype Packet<!V> = Data(values: seq<V>, pol: Policy<V>) | Raw(bytes: seq<byte>, known: bool)

  /** One scheduled receive: the entries of an interface, or raw data of a size, -1 if unknown. */
  datatype Slot<!V, E> = Into(proc: int, iface: seq<E>, pol: Policy<V>) | IntoRaw(proc: int, size: int)

  /** What a receive yields: values for the entries of an interface, or raw bytes. */
  datatype Outcome<V, E> = Values(iface: seq<E>, values: seq<V>) | Bytes(bytes: seq<byte>)

  /** What a send appends to the buffer of its target. */
  function PacketBytes<V>(p: Packet<V>): seq<byte> {
    match p
    case Data(vs, pol) => pol.collect(vs)
    case Raw(bytes, known) => if known then bytes else ToBytes(|bytes|, SIZEOF_INT) + bytes
  }

  /** Raw data travels as it is if the target knows its size, and behind its size in four bytes if not. */
  lemma RawBytes<V>(bytes: seq<byte>)
    ensures PacketBytes<V>(Raw(bytes, true)) == bytes
    ensures var b := PacketBytes<V>(Raw(bytes, false));
            |b| == 4 + |bytes| && b[..4] == ToBytes(|bytes|, 4) && b[4..] == bytes
  { hide ToBytes; }

  function Stream<V>(ps: seq<Packet<V>>): seq<byte> {
    if |ps| == 0 then [] else PacketBytes(ps[0]) + Stream(ps[1..])
  }

  lemma {:induction false} StreamAppend<V>(ps: seq<Packet<V>>, p: Packet<V>)
    ensures Stream(ps + [p]) == Stream(ps) + PacketBytes(p)
  {
    hide PacketBytes;
    if |ps| == 0 {
      assert ps + [p] == [p] && [p][1..] == [];
      assert Stream([p]) == PacketBytes(p) + Stream<V>([]);
    } else {
      StreamAppend(ps[1..], p);
      assert (ps + [p])[1..] == ps[1..] + [p];
    }
  }

  /** One extraction from the front of a buffer: the outcome and the bytes left. A buffer that
      is too short yields what is there. */
  function Take<V, E>(slot: Slot<V, E>, buf: seq<byte>): (Outcome<V, E>, seq<byte>) {
    match slot
    case Into(_, iface, pol) =>
      var (vs, n) := pol.extract(buf, |iface|);
      (Values(iface, vs), if n <= |buf| then buf[n..] else [])
    case IntoRaw(_, size) =>
      var head: nat := if size < 0 then SIZEOF_INT else 0;
      if head > |buf| then (Bytes([]), [])
      else
        var n: nat := if size < 0 then FromBytes(buf[..head]) else size;
        if head + n <= |buf| then (Bytes(buf[head..head + n]), buf[head + n..]) else (Bytes(buf[head..]), [])
  }

  /** A receive that fits a send: the same policy and as many entries as values, or raw data
      with the size announced the same way on both sides. */
  ghost predicate Fits<V(!new), E>(p: Packet<V>, slot: Slot<V, E>) {
    match p
    case Data(vs, pol) => slot.Into? && slot.pol == pol && |slot.iface| == |vs| && WellBehaved(pol)
    case Raw(bytes, known) =>
      slot.IntoRaw? && |bytes| < 0x8000_0000 && if known then slot.size == |bytes| else slot.size == -1
  }

  /** What the receiver should end up with. */
  function Expected<V, E>(p: Packet<V>, slot: Slot<V, E>): Outcome<V, E> {
    match p
    case Data(vs, _) => Values(if slot.Into? then slot.iface else [], vs)
    case Raw(bytes, _) => Bytes(bytes)
  }

  /** A fitting receive reads exactly the bytes of its send and nothing else. */
  lemma TakeFits<V(!new), E>(p: Packet<V>, slot: Slot<V, E>, rest: seq<byte>)
    requires Fits(p, slot)
    ensures Take(slot, PacketBytes(p) + rest) == (Expected(p, slot), rest)
  {
    var buf := PacketBytes(p) + rest;
    match p
    case Data(vs, pol) =>
      assert pol.extract(pol.collect(vs) + rest, |vs|) == (vs, |pol.collect(vs)|);
      assert buf[|pol.collect(vs)|..] == rest;
    case Raw(bytes, known) =>
      if known {
        assert buf[..|bytes|] == bytes && buf[|bytes|..] == rest;
      } else {
        RangeOfInt();
        BytesRoundTrip(|bytes|, SIZEOF_INT);
        assert buf[..SIZEOF_INT] == ToBytes(|bytes|, SIZEOF_INT);
        assert buf[SIZEOF_INT..SIZEOF_INT + |bytes|] == bytes;
        assert buf[SIZEOF_INT + |bytes|..] == rest;
      }
  }

  // ---- walking the receives -----------------------------------------------------------

  function Get(bufs: map<int, seq<byte>>, q: int): seq<byte> { if q in bufs then bufs[q] else [] }

  /** The receives in scheduling order, each from the buffer of its source. */
  function TakeAll<V, E>(slots: seq<Slot<V, E>>,
                         bufs: map<int, seq<byte>>): (r: (seq<Outcome<V, E>>, map<int, seq<byte>>))
    ensures |r.0| == |slots|
  {
    if |slots| == 0 then ([], bufs)
    else
      var (o, rest) := Take(slots[0], Get(bufs, slots[0].proc));
      var (os, bufs') := TakeAll(slots[1..], bufs[slots[0].proc := rest]);
      ([o] + os, bufs')
  }

  function Project<V, E>(slots: seq<Slot<V, E>>, q: int): seq<Slot<V, E>> {
    if |slots| == 0 then []
    else (if slots[0].proc == q then [slots[0]] else []) + Project(slots[1..], q)
  }

  ghost predicate Matches<V(!new), E>(ps: seq<Packet<V>>, slots: seq<Slot<V, E>>) {
    |ps| == |slots| && forall k :: 0 <= k < |ps| ==> Fits(ps[k], slots[k])
  }

  lemma MatchesTail<V(!new), E>(ps: seq<Packet<V>>, s: Slot<V, E>, slots: seq<Slot<V, E>>)
    requires Matches(ps, [s] + slots)
    ensures |ps| > 0 && Fits(ps[0], s) && Matches(ps[1..], slots)
  {
    assert ([s] + slots)[0] == s;
    forall k | 0 <= k < |slots| ensures Fits(ps[1..][k], slots[k]) { assert ([s] + slots)[k + 1] == slots[k]; }
  }

  /** The packets a process receives from q, in sending order. */
  ghost predicate Incoming<V(!new), E>(from: int -> seq<Packet<V>>, slots: seq<Slot<V, E>>, bufs: map<int, seq<byte>>) {
    forall q :: Matches(from(q), Project(slots, q)) && Get(bufs, q) == Stream(from(q))
  }

  ghost function Drop<V>(from: int -> seq<Packet<V>>, q: int): int -> seq<Packet<V>> {
    (x: int) => if x == q && |from(x)| > 0 then from(x)[1..] else from(x)
  }

  lemma IncomingTail<V(!new), E>(from: int -> seq<Packet<V>>, slots: seq<Slot<V, E>>, bufs: map<int, seq<byte>>)
    requires |slots| > 0 && Incoming(from, slots, bufs)
    ensures var q := slots[0].proc;
            && |from(q)| > 0 && Fits(from(q)[0], slots[0])
            && Get(bufs, q) == PacketBytes(from(q)[0]) + Stream(from(q)[1..])
            && Incoming(Drop(from, q), slots[1..], bufs[q := Stream(from(q)[1..])])
  {
    var q := slots[0].proc;
    assert Matches(from(q), Project(slots, q)) && Get(bufs, q) == Stream(from(q));
    MatchesTail(from(q), slots[0], Project(slots[1..], q));
    var bufs' := bufs[q := Stream(from(q)[1..])];
    forall x ensures Matches(Drop(from, q)(x), Project(slots[1..], x)) && Get(bufs', x) == Stream(Drop(from, q)(x)) {
      assert Matches(from(x), Project(slots, x)) && Get(bufs, x) == Stream(from(x));
      assert x != q ==> Project(slots, x) == Project(slots[1..], x);
    }
  }

  lemma TakeFirst<V(!new), E>(from: int -> seq<Packet<V>>, slots: seq<Slot<V, E>>, bufs: map<int, seq<byte>>)
    requires |slots| > 0 && Incoming(from, slots, bufs)
    ensures var q := slots[0].proc; var bufs' := bufs[q := Stream(from(q)[1..])];
            && |from(q)| > 0 && Incoming(Drop(from, q), slots[1..], bufs')
            && TakeAll(slots, bufs) ==
               ([Expected(from(q)[0], slots[0])] + TakeAll(slots[1..], bufs').0, TakeAll(slots[1..], bufs').1)
  {
    hide Incoming, Fits, Expected, Take, Stream, Drop;
    var q := slots[0].proc;
    IncomingTail(from, slots, bufs);
    TakeFits(from(q)[0], slots[0], Stream(from(q)[1..]));
  }

  /** Delivery: however the receives from different processes interleave, the k-th receive
      yields the contents of the send it belongs to (the n-th send of its source, if it is the
      n-th receive from there). */
  lemma {:induction false} AllDelivered<V(!new), E>(from: int -> seq<Packet<V>>, slots: seq<Slot<V, E>>,
                                                    bufs: map<int, seq<byte>>, k: nat)
    requires Incoming(from, slots, bufs) && k < |slots|
    ensures var q := slots[k].proc; var n := |Project(slots[..k], q)|;
            n < |from(q)| && TakeAll(slots, bufs).0[k] == Expected(from(q)[n], slots[k])
  {
    hide Incoming, Expected, Stream, TakeAll, Take;
    var q0 := slots[0].proc;
    TakeFirst(from, slots, bufs);
    if k > 0 {
      AllDelivered(Drop(from, q0), slots[1..], bufs[q0 := Stream(from(q0)[1..])], k - 1);
      assert slots[..k][1..] == slots[1..][..k - 1];
    }
  }

  /** Afterwards every buffer is consumed to its end. */
  lemma {:induction false} AllConsumed<V(!new), E>(from: int -> seq<Packet<V>>, slots: seq<Slot<V, E>>,
                                                   bufs: map<int, seq<byte>>)
    requires Incoming(from, slots, bufs)
    ensures forall q :: Get(TakeAll(slots, bufs).1, q) == []
  {
    hide Incoming, Expected, Stream, Take;
    if |slots| == 0 {
      NothingLeft(from, slots, bufs);
    } else {
      var q0 := slots[0].proc;
      TakeFirst(from, slots, bufs);
      AllConsumed(Drop(from, q0), slots[1..], bufs[q0 := Stream(from(q0)[1..])]);
    }
  }

  lemma NothingLeft<V(!new), E>(from: int -> seq<Packet<V>>, slots: seq<Slot<V, E>>, bufs: map<int, seq<byte>>)
    requires Incoming(from, slots, bufs) && |slots| == 0
    ensures forall q :: Get(bufs, q) == []
  {
    forall q ensures Get(bufs, q) == [] {
      assert Matches(from(q), Project(slots, q)) && Get(bufs, q) == Stream(from(q));
    }
  }

  // ---- sizes --------------------------------------------------------------------------

  /** The sender's share in m_bSendBuffersFixed. */
  predicate KnownSize<V>(p: Packet<V>) {
    match p case Data(vs, pol) => pol.size(|vs|) >= 0 case Raw(_, known) => known
  }

  /** What the receiver computes for one scheduled receive; negative if it cannot. */
  function SlotSize<V, E>(s: Slot<V, E>): int {
    match s case Into(_, iface, pol) => pol.size(|iface|) case IntoRaw(_, size) => size
  }

  function TotalSize<V, E>(slots: seq<Slot<V, E>>): int {
    if |slots| == 0 then 0 else SlotSize(slots[0]) + TotalSize(slots[1..])
  }

  /** Between two matching schedules either both sides know a size or neither does. */
  lemma SizesAgree<V(!new), E>(p: Packet<V>, s: Slot<V, E>)
    requires Fits(p, s)
    ensures KnownSize(p) <==> SlotSize(s) >= 0
    ensures KnownSize(p) ==> |PacketBytes(p)| == SlotSize(s)
  {}

  /** If all sizes can be determined, what the receiver sums up for a source is the write
      position of the sender's buffer. */
  lemma {:induction false} ReceiveSizeIsSendSize<V(!new), E>(ps: seq<Packet<V>>, slots: seq<Slot<V, E>>)
    requires Matches(ps, slots) && forall k :: 0 <= k < |slots| ==> SlotSize(slots[k]) >= 0
    ensures TotalSize(slots) == |Stream(ps)|
  {
    hide Fits;
    if |ps| > 0 {
      SizesAgree(ps[0], slots[0]);
      ReceiveSizeIsSendSize(ps[1..], slots[1..]);
    }
  }

  // ---- exchanging sizes -----------------------------------------------------------------

  /** What a process sends to one peer: its buffer, preceded by the size of the buffer unless
      the process decided that all sizes are fixed. Both travel under the same tag. */
  function Messages(fixed: bool, data: seq<byte>): seq<seq<byte>> {
    (if fixed then [] else [ToBytes(|data|, SIZEOF_INT)]) + [data]
  }

  /** The receiving side: a message longer than its receive is an error, a missing message
      means waiting forever. The result is the buffer and the messages left in the channel. */
  datatype Reception = Received(data: seq<byte>, left: seq<seq<byte>>) | Truncated | Hangs

  function Receive(fixed: bool, computed: nat, msgs: seq<seq<byte>>): Reception {
    if |msgs| == 0 then Hangs
    else if fixed then
      if |msgs[0]| <= computed then Received(msgs[0], msgs[1..]) else Truncated
    else if |msgs[0]| > SIZEOF_INT then Truncated
    else if |msgs| == 1 then Hangs
    else if |msgs[1]| <= FromBytes(msgs[0]) then Received(msgs[1], msgs[2..]) else Truncated
  }

  /** Each process decides by itself whether sizes are fixed. A transfer between two processes
      works, with nothing left in the channel, exactly if they decided alike. */
  lemma TransferWorksIff(senderFixed: bool, receiverFixed: bool, computed: nat, data: seq<byte>)
    requires |data| < 0x8000_0000 && (receiverFixed ==> computed == |data|)
    ensures Receive(receiverFixed, computed, Messages(senderFixed, data)) == Received(data, []) <==>
              senderFixed == receiverFixed
  {
    RangeOfInt();
    BytesRoundTrip(|data|, SIZEOF_INT);
    var msgs := Messages(senderFixed, data);
    if senderFixed {
      assert msgs == [data];
    } else {
      assert msgs == [ToBytes(|data|, SIZEOF_INT), data] && |msgs[1..]| == 1;
    }
  }
}
