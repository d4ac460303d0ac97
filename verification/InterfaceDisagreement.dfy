/** A round in which all schedules match and a transfer fails nevertheless, because two processes
    decide differently about buffer sizes. */
module InterfaceDisagreement {
  import opened ByteCodes
  import opened InterfaceDelivery
  import opened InterfaceLayouts
  import opened InterfaceCommunicatorClass
  import opened InterfaceRounds

  // ---- two policies over bytes --------------------------------------------------------------------

  /** Five bytes per value. */
  function Padded(vs: seq<byte>): (r: seq<byte>)
    ensures |r| == 5 * |vs|
  { seq(5 * |vs|, k requires 0 <= k < 5 * |vs| => if k % 5 == 0 then vs[k / 5] else 0) }

  function Unpadded(buf: seq<byte>, n: nat): (r: seq<byte>)
    ensures |r| == n
  { seq(n, i requires 0 <= i < n => if 5 * i < |buf| then buf[5 * i] else 0) }

  /** The size follows from the length of the interface. */
  function FixedPolicy(): Policy<byte> {
    Policy((n: nat) => 5 * n, (vs: seq<byte>) => Padded(vs), (buf: seq<byte>, n: nat) => (Unpadded(buf, n), 5 * n))
  }

  /** The size is not known in advance. */
  function OpenPolicy(): Policy<byte> {
    Policy((n: nat) => -1, (vs: seq<byte>) => vs, (buf: seq<byte>, n: nat) => (if n <= |buf| then buf[..n] else buf, n))
  }

  lemma PoliciesBehave()
    ensures WellBehaved(FixedPolicy()) && WellBehaved(OpenPolicy())
  {
    forall vs: seq<byte>, rest: seq<byte>
      ensures Unpadded(Padded(vs) + rest, |vs|) == vs && (vs + rest)[..|vs|] == vs
    {
      forall i | 0 <= i < |vs| ensures Unpadded(Padded(vs) + rest, |vs|)[i] == vs[i] {
        assert (5 * i) % 5 == 0 && (5 * i) / 5 == i;
      }
    }
  }

  // ---- three processes ----------------------------------------------------------------------------

  function Only(peer: int, value: byte): Layout<byte> { [[Entry(peer, [value])]] }

  /** Process src sends a value to its successor. */
  function Stage(src: nat, value: byte, pol: Policy<byte>): (ex: Exchange<byte, byte>)
    ensures ex.Exchange? && |ex.sendOver| == |ex.receiveOver| == 3 && ex.pol == pol
    ensures forall p :: 0 <= p < 3 ==> ex.sendOver[p] == if p == src then Only(src + 1, value) else []
    ensures forall q :: 0 <= q < 3 ==> ex.receiveOver[q] == if q == src + 1 then Only(src, value) else []
  {
    Exchange(seq(3, p => if p == src then Only(src + 1, value) else []),
             seq(3, q => if q == src + 1 then Only(src, value) else []), pol)
  }

  /** Process 0 sends a value of known size to process 1, process 1 one of unknown size to 2. */
  function Chain(): seq<Exchange<byte, byte>> { [Stage(0, 7, FixedPolicy()), Stage(1, 8, OpenPolicy())] }

  function Same(): byte -> byte { (x: byte) => x }

  lemma PartnersSame(s: seq<byte>)
    ensures Partners(Same(), s) == s
  {}

  lemma OnlyAt(peer: int, value: byte, l: nat, q: int)
    ensures At(Only(peer, value), l, q) == if l == 0 && q == peer then [value] else []
    ensures At<byte>([], l, q) == []
  {
    var lvl := Only(peer, value)[0];
    assert lvl[..0] == [];
    assert Find(lvl, q) == if q == peer then [value] else Find(lvl[..0], q);
  }

  lemma OnlyAligned(p: nat, q: nat, src: nat, dst: nat, value: byte)
    ensures Aligned(Same(), if p == src then Only(dst, value) else [], q, if q == dst then Only(src, value) else [], p)
  {
    var mine, theirs := if p == src then Only(dst, value) else [], if q == dst then Only(src, value) else [];
    forall l: nat ensures At(mine, l, q) == Partners(Same(), At(theirs, l, p)) {
      OnlyAt(dst, value, l, q);
      OnlyAt(src, value, l, p);
      PartnersSame([value]);
      PartnersSame([]);
    }
  }

  lemma StageOk(src: nat, value: byte, pol: Policy<byte>)
    requires src < 2 && WellBehaved(pol)
    ensures ExchangeOk(Same(), Stage(src, value, pol), 3)
  {
    hide Aligned, WellBehaved;
    var ex := Stage(src, value, pol);
    forall p: nat, q: nat | p < 3 && q < 3 ensures Aligned(Same(), ex.sendOver[p], q, ex.receiveOver[q], p) {
      OnlyAligned(p, q, src, src + 1, value);
    }
  }

  lemma ChainIsOk()
    ensures RoundOk(Same(), Chain(), 3) && Sized(Chain(), 3)
  {
    hide ExchangeOk, FixedPolicy, OpenPolicy, WellBehaved, Stage;
    PoliciesBehave();
    StageOk(0, 7, FixedPolicy());
    StageOk(1, 8, OpenPolicy());
  }

  lemma OnlySends(peer: int, value: byte, pol: Policy<byte>)
    ensures LayoutSends(Only(peer, value), pol) == [(peer, Data([value], pol))] && LayoutSends<byte>([], pol) == []
    ensures LayoutSlots<byte, byte>([], pol) == []
  {
    var lay := Only(peer, value);
    assert lay[..0] == [] && lay[0][..0] == [];
    assert LevelSends(lay[0], pol) == [(peer, Data([value], pol))];
  }

  /** The schedules of processes 0 and 1. */
  lemma ChainSchedules()
    requires Sized(Chain(), 3)
    ensures Sends(Chain(), 3, 0) == [(1, Data([7], FixedPolicy()))] && Slots(Chain(), 3, 0) == []
    ensures Sends(Chain(), 3, 1) == [(2, Data([8], OpenPolicy()))]
  {
    hide FixedPolicy, OpenPolicy, LayoutSends, LayoutSlots, Stage;
    var c := Chain();
    assert c[..1] == [c[0]] && c[..1][..0] == [];
    OnlySends(1, 7, FixedPolicy());
    OnlySends(2, 8, OpenPolicy());
    OnlySends(2, 8, FixedPolicy());
    OnlySends(1, 7, OpenPolicy());
    assert Sends(c[..1], 3, 0) == [] + LayoutSends(c[0].sendOver[0], c[0].pol);
    assert Sends(c[..1], 3, 1) == [] + LayoutSends(c[0].sendOver[1], c[0].pol);
  }

  /** Process 0 only sends a block of known size; process 1, which receives it, also sends one of
      unknown size. Everybody's schedule matches everybody else's, process 0 decides for fixed
      sizes and process 1 against, and the five bytes of process 0 are truncated where process 1
      expects a size. */
  lemma LocalDecisionsDiffer()
    ensures RoundOk(Same(), Chain(), 3) && Sized(Chain(), 3)
    ensures forall p: nat, q: nat :: p < 3 && q < 3 ==>
              MatchesBy(Same(), To(Sends(Chain(), 3, p), q), Project(Slots(Chain(), 3, q), p))
    ensures Talks(Chain(), 3, 0, 1) && Fixed(Chain(), 3, 0) && !Fixed(Chain(), 3, 1) && !Agree(Chain(), 3)
    ensures Transfer(Chain(), 3, 0, 1) ==
              Receive(false, Computed(Chain(), 3, 0, 1), Messages(true, Stream([Data([7], FixedPolicy())])))
    ensures Transfer(Chain(), 3, 0, 1) == Truncated
  {
    ChainIsOk();
    hide RoundOk, Chain, Sends, Slots, MatchesBy, Project;
    forall p: nat, q: nat | p < 3 && q < 3
      ensures MatchesBy(Same(), To(Sends(Chain(), 3, p), q), Project(Slots(Chain(), 3, q), p))
    { RoundMatches(Same(), Chain(), 3, p, q); }
    ChainSchedules();
    var one, two := Sends(Chain(), 3, 0), Sends(Chain(), 3, 1);
    assert one[..0] == [] && To(one, 1) == [Data([7], FixedPolicy())];
    assert KnownSize(one[0].1) && !KnownSize(two[0].1);
    assert Talks(Chain(), 3, 0, 1) && Fixed(Chain(), 3, 0) && !Fixed(Chain(), 3, 1);
    FiveBytes();
  }

  lemma FiveBytes()
    ensures |Stream([Data([7], FixedPolicy())])| == 5
  {
    var ps := [Data([7], FixedPolicy())];
    assert ps[1..] == [];
    assert PacketBytes(ps[0]) == Padded([7]);
  }
}
