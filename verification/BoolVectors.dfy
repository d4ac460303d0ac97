/** vector<bool> in the binary format: the writer packs eight entries into a byte; the reader
    that steps its bit counter once per entry inverts it; the reader as it is written steps
    twice. */
module BoolVectors {
  import opened ByteCodes
  import opened Serialization

  function Pow2(j: nat): (r: nat)
    ensures r > 0
  { if j == 0 then 1 else 2 * Pow2(j - 1) }

  predicate Bit(a: nat, j: nat) { if j == 0 then a % 2 == 1 else Bit(a / 2, j - 1) }

  /** a | (1 << j) */
  function SetBit(a: nat, j: nat): nat { if Bit(a, j) then a else a + Pow2(j) }

  /** Entry i at bit i. */
  function Pack(bits: seq<bool>): nat {
    if |bits| == 0 then 0 else (if bits[0] then 1 else 0) + 2 * Pack(bits[1..])
  }

  /** The bytes after the size: eight entries each, the last byte as far as entries are left. */
  function Packed(bits: seq<bool>): (r: seq<byte>)
    ensures |r| == (|bits| + 7) / 8
  {
    if |bits| == 0 then []
    else if |bits| <= 8 then PackFits(bits); [Pack(bits)]
    else PackFits(bits[..8]); [Pack(bits[..8])] + Packed(bits[8..])
  }

  lemma {:induction false} PackFits(bits: seq<bool>)
    ensures Pack(bits) < Pow2(|bits|)
    ensures |bits| <= 8 ==> Pack(bits) < 256
  {
    if |bits| > 0 { PackFits(bits[1..]); }
    if |bits| <= 8 { Pow2Grows(|bits|, 8); assert Pow2(8) == 256; }
  }

  lemma {:induction false} Pow2Grows(i: nat, j: nat)
    requires i <= j
    ensures Pow2(i) <= Pow2(j)
  { if i < j { Pow2Grows(i, j - 1); } }

  function EncodeBools(bits: seq<bool>): seq<byte> { SizeBytes(|bits|) + Packed(bits) }

  // ---- the bits of a byte -----------------------------------------------------------------------

  lemma {:induction false} PackBit(bits: seq<bool>, j: nat)
    ensures Bit(Pack(bits), j) <==> j < |bits| && bits[j]
  {
    if |bits| == 0 {
      ZeroBit(j);
    } else {
      var h := if bits[0] then 1 else 0;
      assert Pack(bits) % 2 == h && Pack(bits) / 2 == Pack(bits[1..]);
      if j > 0 { PackBit(bits[1..], j - 1); }
    }
  }

  /** Bit j is the binary digit with weight 2 to the power j. */
  lemma {:induction false} BitIsDigit(a: nat, j: nat)
    ensures Bit(a, j) <==> a / Pow2(j) % 2 == 1
  {
    if j > 0 {
      BitIsDigit(a / 2, j - 1);
      HalfTwice(a, Pow2(j - 1));
    }
  }

  lemma HalfTwice(a: nat, r: nat)
    requires r > 0
    ensures a / 2 / r == a / (2 * r)
  {
    var q, m := a / 2, a % 2;
    assert a == 2 * (r * (q / r) + q % r) + m;
    Quotient(a, 2 * r, q / r, 2 * (q % r) + m);
  }

  lemma {:induction false} ZeroBit(j: nat)
    ensures !Bit(0, j)
  { if j > 0 { ZeroBit(j - 1); } }

  /** Setting the next bit appends an entry. */
  lemma {:induction false} PackNext(bits: seq<bool>, b: bool)
    ensures Pack(bits + [b]) == Pack(bits) + (if b then Pow2(|bits|) else 0)
  {
    if |bits| == 0 {
      assert (bits + [b])[1..] == [];
    } else {
      PackNext(bits[1..], b);
      assert (bits + [b])[1..] == bits[1..] + [b];
    }
  }

  lemma SetNextBit(bits: seq<bool>)
    ensures SetBit(Pack(bits), |bits|) == Pack(bits + [true])
  {
    PackBit(bits, |bits|);
    PackNext(bits, true);
  }

  /** Entry i is bit i % 8 of byte i / 8. */
  lemma {:induction false} PackedBit(bits: seq<bool>, i: nat)
    requires i < |bits|
    ensures i / 8 < |Packed(bits)| && Bit(Packed(bits)[i / 8], i % 8) == bits[i]
  {
    hide Bit, Pack;
    if i < 8 {
      PackBit(if |bits| <= 8 then bits else bits[..8], i);
    } else {
      PackedBit(bits[8..], i - 8);
      assert (i - 8) / 8 == i / 8 - 1 && (i - 8) % 8 == i % 8;
      assert Packed(bits)[i / 8] == Packed(bits[8..])[i / 8 - 1];
    }
  }

  // ---- readers ------------------------------------------------------------------------------------

  /** The bit from which entry i is taken, by a reader that steps once or twice per entry. */
  function Position(i: nat, twice: bool): nat { if twice then 2 * i else i }

  /** The number of bytes fetched for n entries: one at every multiple of eight. */
  function BytesFor(n: nat, twice: bool): nat { (Position(n, twice) + 7) / 8 }

  function Unpacked(data: seq<byte>, n: nat, twice: bool): (r: seq<bool>)
    requires BytesFor(n, twice) <= |data|
    ensures |r| == n
    ensures forall i :: 0 <= i < n ==> r[i] == BitAt(data, Position(i, twice))
  { seq(n, i requires 0 <= i < n => BitAt(data, Position(i, twice))) }

  /** Bit k of the data, counted through its bytes. */
  predicate BitAt(data: seq<byte>, k: nat) { k / 8 < |data| && Bit(data[k / 8], k % 8) }

  function DecodeBools(s: seq<byte>, twice: bool): Read<seq<bool>> {
    match DecodeNumber(s, SIZEOF_SIZE_T)
    case Bad => Bad
    case Done(n, s') =>
      if BytesFor(n, twice) <= |s'| then Done(Unpacked(s', n, twice), s'[BytesFor(n, twice)..]) else Bad
  }

  lemma AfterSize(bits: seq<bool>, rest: seq<byte>, twice: bool)
    requires |bits| < Range(SIZEOF_SIZE_T)
    ensures var s := Packed(bits) + rest; var k := BytesFor(|bits|, twice);
            DecodeBools(EncodeBools(bits) + rest, twice) ==
            if k <= |s| then Done(Unpacked(s, |bits|, twice), s[k..]) else Bad
  {
    hide Range, DecodeNumber, Packed;
    NumberRoundTrip(|bits|, SIZEOF_SIZE_T, Packed(bits) + rest);
    assert EncodeBools(bits) + rest == SizeBytes(|bits|) + (Packed(bits) + rest);
  }

  /** Stepping once per entry inverts the writer. */
  lemma OneStepRoundTrip(bits: seq<bool>, rest: seq<byte>)
    requires |bits| < Range(SIZEOF_SIZE_T)
    ensures DecodeBools(EncodeBools(bits) + rest, false) == Done(bits, rest)
  {
    hide Range, DecodeBools, Packed, Bit;
    AfterSize(bits, rest, false);
    var s := Packed(bits) + rest;
    PackedLength(bits);
    assert s[BytesFor(|bits|, false)..] == rest;
    forall i | 0 <= i < |bits| ensures Unpacked(s, |bits|, false)[i] == bits[i] { PackedBit(bits, i); }
    assert Unpacked(s, |bits|, false) == bits;
  }

  lemma PackedLength(bits: seq<bool>)
    ensures |Packed(bits)| == (|bits| + 7) / 8
    ensures 0 < |bits| <= 8 ==> Packed(bits)[0] == Pack(bits)
  {}

  /** The reader as written, j stepping in the loop header and in the body, inverts the writer
      exactly for at most four entries of which only the first may be true; otherwise it takes
      wrong bits, or also consumes bytes of whatever follows. */
  lemma TwoStepRoundTripIff(bits: seq<bool>, rest: seq<byte>)
    requires |bits| < Range(SIZEOF_SIZE_T)
    ensures DecodeBools(EncodeBools(bits) + rest, true) == Done(bits, rest)
            <==> |bits| <= 4 && forall i :: 1 <= i < |bits| ==> !bits[i]
  {
    hide Range, DecodeBools, Packed, Bit, BitAt, Unpacked;
    AfterSize(bits, rest, true);
    PackedLength(bits);
    var n := |bits|;
    var s := Packed(bits) + rest;
    if n <= 4 {
      assert s[BytesFor(n, true)..] == rest;
      FewEntries(bits, s);
    }
  }

  /** At most four entries: all are taken from the one byte, entry i from where 2i is. */
  lemma FewEntries(bits: seq<bool>, s: seq<byte>)
    requires |bits| <= 4 && |s| >= BytesFor(|bits|, true) && (|bits| > 0 ==> s[0] == Pack(bits))
    ensures Unpacked(s, |bits|, true) == bits <==> forall i :: 1 <= i < |bits| ==> !bits[i]
  {
    hide Unpacked;
    var n := |bits|;
    var r := Unpacked(s, n, true);
    if n > 0 { EntryFrom(bits, s, 0); }
    if n > 1 { EntryFrom(bits, s, 1); }
    if n > 2 { EntryFrom(bits, s, 2); }
    if n > 3 { EntryFrom(bits, s, 3); }
    EqualBits(r, bits);
  }

  lemma EntryFrom(bits: seq<bool>, s: seq<byte>, i: nat)
    requires i < |bits| <= 4 && |s| >= BytesFor(|bits|, true) && s[0] == Pack(bits)
    ensures Unpacked(s, |bits|, true)[i] == (2 * i < |bits| && bits[2 * i])
  {
    hide Bit, Pack;
    PackBit(bits, 2 * i);
    assert BitAt(s, 2 * i) == Bit(s[0], 2 * i);
  }

  lemma EqualBits(r: seq<bool>, bits: seq<bool>)
    requires |r| == |bits| <= 4
    ensures r == bits <==> ((|bits| > 0 ==> r[0] == bits[0]) && (|bits| > 1 ==> r[1] == bits[1])
                         && (|bits| > 2 ==> r[2] == bits[2]) && (|bits| > 3 ==> r[3] == bits[3]))
  {}

  // ---- the loops ----------------------------------------------------------------------------------

  /** Serialize(buf, vector<bool>): what the loop appends after the size. */
  method PackBools(bits: seq<bool>) returns (out: seq<byte>)
    ensures out == Packed(bits)
  {
    hide Packed, Pack, SetBit, Bit;
    out := [];
    var j, a := 0, 0;
    var i := 0;
    ghost var start := 0;
    PackingStarts(bits);
    while i < |bits|
      invariant i <= |bits| && start % 8 == 0 && i == start + j && 0 <= j < 8
      invariant out == Packed(bits[..start]) && a == Pack(bits[start..i])
    {
      PackingStep(bits, start, i);
      if bits[i] { a := SetBit(a, j); }
      j := j + 1;
      i := i + 1;
      if j == 8 {
        PackedNext(bits, start);
        out := out + [a];
        a, j := 0, 0;
        start := i;
        PackEmpty(bits, start);
      }
    }
    assert bits[start..i] == bits[start..];
    PackedTail(bits[..start], bits[start..]);
    assert bits[..start] + bits[start..] == bits;
    if j != 0 { out := out + [a]; }
  }

  lemma PackingStarts(bits: seq<bool>)
    ensures Packed(bits[..0]) == [] && Pack(bits[0..0]) == 0
  {}

  lemma PackingStep(bits: seq<bool>, start: nat, i: nat)
    requires start <= i < |bits|
    ensures Pack(bits[start..i + 1]) ==
              if bits[i] then SetBit(Pack(bits[start..i]), i - start) else Pack(bits[start..i])
  {
    hide Pack, SetBit;
    assert bits[start..i + 1] == bits[start..i] + [bits[i]];
    if bits[i] { SetNextBit(bits[start..i]); } else { PackNext(bits[start..i], false); }
  }

  lemma PackEmpty(bits: seq<bool>, k: nat)
    requires k <= |bits|
    ensures Pack(bits[k..k]) == 0
  {}

  lemma {:induction false} PackedNext(bits: seq<bool>, start: nat)
    requires start + 8 <= |bits| && start % 8 == 0
    ensures Pack(bits[start..start + 8]) < 256
    ensures Packed(bits[..start + 8]) == Packed(bits[..start]) + [Pack(bits[start..start + 8])]
  {
    PackFits(bits[start..start + 8]);
    var b := bits[..start + 8];
    assert b[start..] == bits[start..start + 8] && b[..start] == bits[..start];
    PackedConcat(b[..start], b[start..]);
    assert b == b[..start] + b[start..];
  }

  lemma PackedFirst(bits: seq<bool>)
    requires |bits| >= 8
    ensures Pack(bits[..8]) < 256 && Packed(bits) == [Pack(bits[..8])] + Packed(bits[8..])
  {
    hide Pack;
    PackFits(bits[..8]);
    if |bits| == 8 { assert bits[..8] == bits; }
  }

  lemma {:induction false} PackedConcat(a: seq<bool>, b: seq<bool>)
    requires |a| % 8 == 0
    ensures Packed(a + b) == Packed(a) + Packed(b)
  {
    hide Pack, Packed;
    if |a| == 0 {
      PackingStarts(a);
      assert a[..0] == a && a + b == b;
    } else {
      PackedConcat(a[8..], b);
      PackedFirst(a);
      PackedFirst(a + b);
      assert (a + b)[..8] == a[..8] && (a + b)[8..] == a[8..] + b;
    }
  }

  lemma PackedTail(a: seq<bool>, b: seq<bool>)
    requires |a| % 8 == 0 && |b| < 8
    ensures Pack(b) < 256 && Packed(a + b) == Packed(a) + (if |b| == 0 then [] else [Pack(b)])
  {
    hide Pack, Packed;
    PackedConcat(a, b);
    PackedShort(b);
  }

  lemma PackedShort(bits: seq<bool>)
    requires |bits| <= 8
    ensures Pack(bits) < 256 && Packed(bits) == if |bits| == 0 then [] else [Pack(bits)]
  {
    hide Pack;
    PackFits(bits);
  }

  /** Deserialize(buf, vector<bool>) as written, after the size; None when the stream is
      exhausted. */
  method UnpackBools(data: seq<byte>, n: nat) returns (bits: seq<bool>, used: nat, ok: bool)
    ensures ok <==> BytesFor(n, true) <= |data|
    ensures ok ==> bits == Unpacked(data, n, true) && used == BytesFor(n, true)
  {
    hide Bit, BytesFor;
    bits, used, ok := [], 0, true;
    var j, a := 8, 0;
    var i := 0;
    NoBytes();
    while i < n
      invariant i <= n && |bits| == i && used == BytesFor(i, true) <= |data|
      invariant j == (if i % 4 == 0 then 8 else 2 * (i % 4)) && (i % 4 != 0 ==> used > 0 && a == data[used - 1])
      invariant forall k :: 0 <= k < i ==> k / 4 < |data| && bits[k] == Bit(data[k / 4], 2 * (k % 4))
    {
      NextEntry(i);
      BytesGrow(i + 1, n);
      if j == 8 {
        if used == |data| { ok := false; return; }
        a := data[used];
        used := used + 1;
        j := 0;
      }
      assert a == data[i / 4] && j == 2 * (i % 4);
      bits := bits + [Bit(a, j)];
      j := j + 1;
      i, j := i + 1, j + 1;
    }
    forall k | 0 <= k < n ensures bits[k] == Unpacked(data, n, true)[k] {
      TwoSteps(k);
    }
  }

  lemma NoBytes()
    ensures BytesFor(0, true) == 0
  {}

  /** Every fourth entry fetches a byte. */
  lemma NextEntry(i: nat)
    ensures BytesFor(i + 1, true) == BytesFor(i, true) + (if i % 4 == 0 then 1 else 0)
    ensures BytesFor(i + 1, true) == i / 4 + 1
    ensures (i + 1) % 4 == if i % 4 == 3 then 0 else i % 4 + 1
  {}

  lemma BytesGrow(i: nat, n: nat)
    requires i <= n
    ensures BytesFor(i, true) <= BytesFor(n, true)
  {}

  lemma TwoSteps(k: nat)
    ensures (k * 2) / 8 == k / 4 && (k * 2) % 8 == 2 * (k % 4)
  {}
}
