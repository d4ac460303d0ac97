/** Combined parallel files: a header with the end offsets of all segments, then the segments of
    all processes. */
module CombinedFile {
  import opened ByteCodes
  import opened Options
  import opened SubCommunicators
  import opened Gathers
  import opened FileLayout

  function HeaderSize(n: nat): nat { n * SIZEOF_LONG_LONG + SIZEOF_INT }

  /** Where the segment of rank p ends: the inclusive scan of the sizes, behind the header. */
  function NextOffset(blocks: seq<seq<byte>>, p: nat): nat
    requires p < |blocks|
  { HeaderSize(|blocks|) + Start(blocks, p + 1) }

  function OffsetBytes(blocks: seq<seq<byte>>, k: nat): (r: seq<byte>)
    requires k <= |blocks|
    ensures |r| == k * SIZEOF_LONG_LONG
  { if k == 0 then [] else OffsetBytes(blocks, k - 1) + ToBytes(NextOffset(blocks, k - 1), SIZEOF_LONG_LONG) }

  function Header(blocks: seq<seq<byte>>, numProcs: nat): (r: seq<byte>)
    ensures |r| == HeaderSize(|blocks|)
  { ToBytes(numProcs, SIZEOF_INT) + OffsetBytes(blocks, |blocks|) }

  /** The file: header and segments, without gap or overlap. */
  function Content(blocks: seq<seq<byte>>, numProcs: nat): seq<byte> { Header(blocks, numProcs) + Flatten(blocks) }

  function Segment(blocks: seq<seq<byte>>, p: nat): Write
    requires p < |blocks|
  { Write(HeaderSize(|blocks|) + Start(blocks, p), blocks[p]) }

  // ---- writing ----------------------------------------------------------------------------------

  /** What the first process has gathered when it writes the header. The root of the gather is the
      world rank of the first process, taken as a rank of the communicator: if it names another
      process the vector keeps its initial zeros, and if it is no rank at all the call fails. */
  function GatheredOffsets(members: seq<nat>, blocks: seq<seq<byte>>): Option<seq<nat>>
    requires |members| == |blocks| > 0
  {
    var root := members[0];
    if root >= |members| then None
    else if root == 0 then Some(seq(|blocks|, k requires 0 <= k < |blocks| => NextOffset(blocks, k)))
    else Some(seq(|blocks|, _ => 0))
  }

  function EntryBytes(offsets: seq<nat>, k: nat): (r: seq<byte>)
    requires k <= |offsets|
    ensures |r| == k * SIZEOF_LONG_LONG
  { if k == 0 then [] else EntryBytes(offsets, k - 1) + ToBytes(offsets[k - 1], SIZEOF_LONG_LONG) }

  /** The header that reaches the file. */
  function WrittenHeader(members: seq<nat>, blocks: seq<seq<byte>>, numProcs: nat): Option<seq<byte>>
    requires |members| == |blocks| > 0
  {
    match GatheredOffsets(members, blocks)
    case None => None
    case Some(offsets) => Some(ToBytes(numProcs, SIZEOF_INT) + EntryBytes(offsets, |offsets|))
  }

  lemma {:induction false} EntriesOfOffsets(offsets: seq<nat>, blocks: seq<seq<byte>>, k: nat)
    requires |offsets| == |blocks| && k <= |blocks|
    requires forall i :: 0 <= i < |blocks| ==> offsets[i] == NextOffset(blocks, i)
    ensures EntryBytes(offsets, k) == OffsetBytes(blocks, k)
  { if k > 0 { EntriesOfOffsets(offsets, blocks, k - 1); } }

  lemma {:induction false} FirstEntry(offsets: seq<nat>, k: nat)
    requires 0 < k <= |offsets|
    ensures EntryBytes(offsets, k)[..SIZEOF_LONG_LONG] == ToBytes(offsets[0], SIZEOF_LONG_LONG)
  {
    hide ToBytes;
    if k > 1 {
      FirstEntry(offsets, k - 1);
      assert EntryBytes(offsets, k)[..SIZEOF_LONG_LONG] == EntryBytes(offsets, k - 1)[..SIZEOF_LONG_LONG];
    }
  }

  /** The header is the right one exactly if process 0 belongs to the communicator. */
  lemma HeaderIffFirstIsZero(members: seq<nat>, world: nat, blocks: seq<seq<byte>>, numProcs: nat)
    requires MembersOk(members, world) && |members| == |blocks| > 0
    requires |Content(blocks, numProcs)| < Range(SIZEOF_LONG_LONG)
    ensures WrittenHeader(members, blocks, numProcs) == Some(Header(blocks, numProcs)) <==> 0 in members
  {
    hide Range, ToBytes, Content;
    FirstIsSmallest(members, world);
    var n := |blocks|;
    if members[0] == 0 {
      EntriesOfOffsets(GatheredOffsets(members, blocks).value, blocks, n);
    } else if members[0] < n {
      ZeroHeader(members, blocks, numProcs);
    }
  }

  lemma FirstIsSmallest(members: seq<nat>, world: nat)
    requires MembersOk(members, world) && |members| > 0
    ensures members[0] == 0 <==> 0 in members
  {}

  /** Zeros are no offsets. */
  lemma ZeroHeader(members: seq<nat>, blocks: seq<seq<byte>>, numProcs: nat)
    requires |members| == |blocks| > 0 && 0 < members[0] < |members|
    requires |Content(blocks, numProcs)| < Range(SIZEOF_LONG_LONG)
    ensures WrittenHeader(members, blocks, numProcs).Some?
    ensures WrittenHeader(members, blocks, numProcs).value != Header(blocks, numProcs)
  {
    var n := |blocks|;
    var zeros := GatheredOffsets(members, blocks).value;
    NextOffsetFits(blocks, numProcs, 0);
    hide Range, ToBytes, Content;
    FirstEntry(zeros, n);
    OffsetEntry(blocks, n, 0);
    BytesDiffer(NextOffset(blocks, 0));
    var int', w, r := SIZEOF_INT, WrittenHeader(members, blocks, numProcs).value, Header(blocks, numProcs);
    assert w[int'..][..SIZEOF_LONG_LONG] == EntryBytes(zeros, n)[..SIZEOF_LONG_LONG];
    assert r[int'..][..SIZEOF_LONG_LONG] == OffsetBytes(blocks, n)[..SIZEOF_LONG_LONG];
  }

  lemma BytesDiffer(k: nat)
    requires 0 < k < Range(SIZEOF_LONG_LONG)
    ensures ToBytes(k, SIZEOF_LONG_LONG) != ToBytes(0, SIZEOF_LONG_LONG)
  {
    hide ToBytes, FromBytes, Range;
    BytesRoundTrip(k, SIZEOF_LONG_LONG);
    BytesRoundTrip(0, SIZEOF_LONG_LONG);
  }

  /** One process with its own buffer among n processes: scanned is the inclusive scan of the
      sizes, gathered what its vector holds after the gather; the first process writes the header
      entry by entry. */
  method WriteCombinedParallelFile(buffer: seq<byte>, n: nat, first: bool, numProcs: nat, scanned: nat,
                                   gathered: seq<nat>,
                                   ghost blocks: seq<seq<byte>>, ghost p: nat)
    returns (header: seq<byte>, segment: Write)
    requires p < |blocks| == n && buffer == blocks[p] && (first <==> p == 0) && scanned == Start(blocks, p + 1)
    requires |gathered| == n
    ensures header == if first then ToBytes(numProcs, SIZEOF_INT) + EntryBytes(gathered, n) else []
    ensures segment == Segment(blocks, p)
  {
    var mySize := |buffer|;
    var myNextOffset := scanned + (n * SIZEOF_LONG_LONG + SIZEOF_INT);
    header := [];
    if first {
      header := ToBytes(numProcs, SIZEOF_INT);
      var i := 0;
      while i < |gathered|
        invariant 0 <= i <= |gathered|
        invariant header == ToBytes(numProcs, SIZEOF_INT) + EntryBytes(gathered, i)
      {
        header := header + ToBytes(gathered[i], SIZEOF_LONG_LONG);
        i := i + 1;
      }
    }
    FlattenSlice(blocks, p);
    segment := Write(myNextOffset - mySize, buffer);
  }

  /** What reaches the file: a header and the segments of all processes, and nothing else. */
  ghost predicate AllWritten(ws: seq<Write>, blocks: seq<seq<byte>>, header: seq<byte>) {
    && (forall k :: 0 <= k < |ws| ==>
         ws[k] == Write(0, header) || exists p :: 0 <= p < |blocks| && ws[k] == Segment(blocks, p))
    && Write(0, header) in ws
    && (forall p :: 0 <= p < |blocks| ==> Segment(blocks, p) in ws)
  }

  lemma SegmentIsPart(blocks: seq<seq<byte>>, header: seq<byte>, p: nat)
    requires p < |blocks| && |header| == HeaderSize(|blocks|)
    ensures PartOf(Segment(blocks, p), header + Flatten(blocks))
  {
    FlattenSlice(blocks, p);
    var h, d, len := HeaderSize(|blocks|), Start(blocks, p), |blocks[p]|;
    assert (header + Flatten(blocks))[h + d..h + d + len] == Flatten(blocks)[d..d + len];
  }

  /** In whatever order the processes write, the file is the header followed by the segments. */
  lemma FileIsContent(f: File, ws: seq<Write>, blocks: seq<seq<byte>>, header: seq<byte>)
    requires AllWritten(ws, blocks, header) && |header| == HeaderSize(|blocks|)
    ensures var content := header + Flatten(blocks); ReadAt(ApplyAll(f, ws), 0, |content|) == content
  {
    hide Flatten, PartOf, Segment, ApplyAll;
    var content := header + Flatten(blocks);
    forall k | 0 <= k < |ws| ensures PartOf(ws[k], content) {
      if ws[k] == Write(0, header) {
        HeaderIsPart(header, Flatten(blocks));
      } else {
        var p :| 0 <= p < |blocks| && ws[k] == Segment(blocks, p);
        SegmentIsPart(blocks, header, p);
      }
    }
    forall x | 0 <= x < |content| ensures Covered(x, ws) {
      if x < HeaderSize(|blocks|) {
        assert Write(0, header) in ws;
      } else {
        var p := InSomeSegment(blocks, x - HeaderSize(|blocks|));
        SegmentCovers(blocks, p, x);
        assert Segment(blocks, p) in ws;
      }
    }
    WritesProduce(f, ws, content);
  }

  lemma HeaderIsPart(header: seq<byte>, rest: seq<byte>)
    ensures PartOf(Write(0, header), header + rest)
  {}

  lemma SegmentCovers(blocks: seq<seq<byte>>, p: nat, x: nat)
    requires p < |blocks| && Start(blocks, p) <= x - HeaderSize(|blocks|) < Start(blocks, p) + |blocks[p]|
    ensures var w := Segment(blocks, p); w.pos <= x < w.pos + |w.bytes|
  {}

  // ---- reading ----------------------------------------------------------------------------------

  /** The entry for rank k in the header. */
  lemma {:induction false} OffsetEntry(blocks: seq<seq<byte>>, n: nat, k: nat)
    requires k < n <= |blocks|
    ensures k * SIZEOF_LONG_LONG + SIZEOF_LONG_LONG <= n * SIZEOF_LONG_LONG
    ensures OffsetBytes(blocks, n)[k * SIZEOF_LONG_LONG..k * SIZEOF_LONG_LONG + SIZEOF_LONG_LONG] ==
              ToBytes(NextOffset(blocks, k), SIZEOF_LONG_LONG)
  {
    hide ToBytes, NextOffset;
    if k < n - 1 {
      OffsetEntry(blocks, n - 1, k);
      var a := k * SIZEOF_LONG_LONG;
      assert OffsetBytes(blocks, n)[a..a + SIZEOF_LONG_LONG] == OffsetBytes(blocks, n - 1)[a..a + SIZEOF_LONG_LONG];
    }
  }

  lemma HeaderEntries(f: File, blocks: seq<seq<byte>>, numProcs: nat, k: nat)
    requires ReadAt(f, 0, |Content(blocks, numProcs)|) == Content(blocks, numProcs)
    ensures ReadAt(f, 0, SIZEOF_INT) == ToBytes(numProcs, SIZEOF_INT)
    ensures k < |blocks| ==>
      ReadAt(f, SIZEOF_INT + k * SIZEOF_LONG_LONG, SIZEOF_LONG_LONG) == ToBytes(NextOffset(blocks, k), SIZEOF_LONG_LONG)
  {
    hide ToBytes, NextOffset, Flatten, ReadAt;
    var content := Content(blocks, numProcs);
    ReadPart(f, content, 0, SIZEOF_INT);
    assert content[0..SIZEOF_INT] == ToBytes(numProcs, SIZEOF_INT);
    if k < |blocks| {
      OffsetEntry(blocks, |blocks|, k);
      var a := k * SIZEOF_LONG_LONG;
      ReadPart(f, content, SIZEOF_INT + a, SIZEOF_LONG_LONG);
      assert content[SIZEOF_INT + a..SIZEOF_INT + a + SIZEOF_LONG_LONG] ==
        OffsetBytes(blocks, |blocks|)[a..a + SIZEOF_LONG_LONG];
    }
  }

  /** The entry for rank p as a file gives it: what follows the header size of this communicator. */
  function FileOffset(f: File, n: nat, p: nat): nat {
    if p == 0 then HeaderSize(n) else FromBytes(ReadAt(f, SIZEOF_INT + (p - 1) * SIZEOF_LONG_LONG, SIZEOF_LONG_LONG))
  }

  function FileOffsets(f: File, n: nat): (r: seq<nat>)
    ensures |r| == n + 1 && forall p :: 0 <= p <= n ==> r[p] == FileOffset(f, n, p)
  { seq(n + 1, p requires 0 <= p < n + 1 => FileOffset(f, n, p)) }

  /** What the first process reads; None if the file was written in a world of another size. */
  method ReadOffsets(f: File, n: nat, numProcs: nat) returns (offsets: Option<seq<nat>>)
    ensures offsets == if FromBytes(ReadAt(f, 0, SIZEOF_INT)) == numProcs then Some(FileOffsets(f, n)) else None
  {
    hide ReadAt, FromBytes;
    if FromBytes(ReadAt(f, 0, SIZEOF_INT)) != numProcs { return None; }
    var all: seq<nat> := [n * SIZEOF_LONG_LONG + SIZEOF_INT];
    var i := 1;
    while i < n + 1
      invariant 1 <= i <= n + 1 && |all| == i
      invariant forall p :: 0 <= p < i ==> all[p] == FileOffset(f, n, p)
    {
      all := all + [FromBytes(ReadAt(f, SIZEOF_INT + (i - 1) * SIZEOF_LONG_LONG, SIZEOF_LONG_LONG))];
      i := i + 1;
    }
    assert all == FileOffsets(f, n);
    offsets := Some(all);
  }

  /** The vector that is scattered: that of the process with rank members[0]. Only the first
      process has read the file; the others hold the header size and zeros. */
  function Scattered(f: File, members: seq<nat>): Option<seq<nat>>
    requires |members| > 0
  {
    var n := |members|;
    if members[0] >= n then None
    else if members[0] == 0 then Some(FileOffsets(f, n))
    else Some([HeaderSize(n)] + seq(n, _ => 0))
  }

  /** What the process with rank p gets: None if the first process throws, the root is no rank, or
      the size comes out negative. */
  function ReadBack(f: File, members: seq<nat>, numProcs: nat, p: nat): Option<seq<byte>>
    requires p < |members|
  {
    if FromBytes(ReadAt(f, 0, SIZEOF_INT)) != numProcs then None
    else
      match Scattered(f, members)
      case None => None
      case Some(offsets) =>
        if |offsets| == |members| + 1 && offsets[p] <= offsets[p + 1]
        then Some(ReadAt(f, offsets[p], offsets[p + 1] - offsets[p]))
        else None
  }

  method ReadCombinedParallelFile(f: File, members: seq<nat>, p: nat, numProcs: nat) returns (buffer: Option<seq<byte>>)
    requires p < |members|
    ensures buffer == ReadBack(f, members, numProcs, p)
  {
    hide ReadAt, FromBytes;
    var n := |members|;
    var fromFile := ReadOffsets(f, n, numProcs);
    if fromFile.None? { return None; }
    var root := members[0];
    if root >= n { return None; }
    var allNextOffsets := fromFile.value;
    if root != 0 { allNextOffsets := [n * SIZEOF_LONG_LONG + SIZEOF_INT] + seq(n, _ => 0); }
    var myNextOffset, myNextOffset2 := allNextOffsets[p], allNextOffsets[p + 1];
    var mySize := myNextOffset2 - myNextOffset;
    if mySize < 0 { return None; }
    buffer := Some(ReadAt(f, myNextOffset, mySize));
  }

  /** The file as it was written with the right header, in a world of this size. */
  ghost predicate Holds(f: File, blocks: seq<seq<byte>>, written: nat) {
    && ReadAt(f, 0, |Content(blocks, written)|) == Content(blocks, written)
    && written < Range(SIZEOF_INT) && |Content(blocks, written)| < Range(SIZEOF_LONG_LONG)
  }

  lemma NextOffsetFits(blocks: seq<seq<byte>>, numProcs: nat, p: nat)
    requires p < |blocks| && |Content(blocks, numProcs)| < Range(SIZEOF_LONG_LONG)
    ensures NextOffset(blocks, p) < Range(SIZEOF_LONG_LONG)
  {
    hide Range, Flatten;
    StartBound(blocks, p + 1);
  }

  lemma OffsetFromFile(f: File, blocks: seq<seq<byte>>, written: nat, n: nat, p: nat)
    requires Holds(f, blocks, written) && 0 < p <= |blocks|
    ensures FileOffset(f, n, p) == HeaderSize(|blocks|) + Start(blocks, p)
  {
    hide ReadAt, Content, Range, FromBytes, ToBytes;
    HeaderEntries(f, blocks, written, p - 1);
    NextOffsetFits(blocks, written, p - 1);
    BytesRoundTrip(NextOffset(blocks, p - 1), SIZEOF_LONG_LONG);
  }

  lemma WorldFromFile(f: File, blocks: seq<seq<byte>>, written: nat)
    requires Holds(f, blocks, written)
    ensures FromBytes(ReadAt(f, 0, SIZEOF_INT)) == written
  {
    hide ReadAt, Content, Range, FromBytes, ToBytes;
    HeaderEntries(f, blocks, written, 0);
    BytesRoundTrip(written, SIZEOF_INT);
  }

  /** Every rank but the first gets its block, from a communicator that contains process 0 and is
      not larger than the one that wrote. */
  lemma LaterRanksRead(f: File, blocks: seq<seq<byte>>, written: nat, members: seq<nat>, p: nat)
    requires Holds(f, blocks, written) && 0 < p < |members| <= |blocks| && members[0] == 0
    ensures ReadBack(f, members, written, p) == Some(blocks[p])
  {
    hide ReadAt, Content, Range, FromBytes, ToBytes, Flatten, HeaderSize;
    WorldFromFile(f, blocks, written);
    OffsetFromFile(f, blocks, written, |members|, p);
    OffsetFromFile(f, blocks, written, |members|, p + 1);
    BlockInFile(f, blocks, written, p);
  }

  lemma BlockInFile(f: File, blocks: seq<seq<byte>>, written: nat, p: nat)
    requires Holds(f, blocks, written) && p < |blocks|
    ensures Start(blocks, p + 1) == Start(blocks, p) + |blocks[p]|
    ensures ReadAt(f, HeaderSize(|blocks|) + Start(blocks, p), |blocks[p]|) == blocks[p]
  {
    hide ReadAt, Range, FromBytes, ToBytes, Flatten, Header;
    FlattenSlice(blocks, p);
    SegmentIsPart(blocks, Header(blocks, written), p);
    ReadPart(f, Content(blocks, written), HeaderSize(|blocks|) + Start(blocks, p), |blocks[p]|);
  }

  /** The first rank gets its block exactly if process 0 belongs to the communicator that reads
      and that communicator has as many processes as the one that wrote: the size of the header
      is taken from the reading communicator, while only the world sizes are compared. */
  lemma FirstRankReadsIff(f: File, blocks: seq<seq<byte>>, written: nat, members: seq<nat>, world: nat)
    requires Holds(f, blocks, written) && MembersOk(members, world) && |members| > 0 && |blocks| > 0
    ensures ReadBack(f, members, written, 0) == Some(blocks[0]) <==> 0 in members && |members| == |blocks|
  {
    hide ReadAt, Content, Range, FromBytes, ToBytes, Flatten;
    FirstIsSmallest(members, world);
    WorldFromFile(f, blocks, written);
    if members[0] == 0 {
      OffsetFromFile(f, blocks, written, |members|, 1);
      BlockInFile(f, blocks, written, 0);
      StartNothing(blocks);
    }
  }

  /** The bytes of a combined file: the size of the world, for every process the position where its
      segment ends, and there the segments, each one behind the previous. */
  ghost predicate LaidOut(f: File, blocks: seq<seq<byte>>, written: nat, ends: seq<nat>) {
    && |ends| == |blocks| && ReadAt(f, 0, SIZEOF_INT) == ToBytes(written, SIZEOF_INT)
    && forall p :: 0 <= p < |blocks| ==> SegmentAt(f, blocks, ends, p)
  }

  ghost predicate SegmentAt(f: File, blocks: seq<seq<byte>>, ends: seq<nat>, p: nat)
    requires p < |blocks| == |ends|
  {
    var begin := if p == 0 then SIZEOF_INT + |blocks| * SIZEOF_LONG_LONG else ends[p - 1];
    && ends[p] == begin + |blocks[p]|
    && ReadAt(f, SIZEOF_INT + p * SIZEOF_LONG_LONG, SIZEOF_LONG_LONG) == ToBytes(ends[p], SIZEOF_LONG_LONG)
    && ReadAt(f, begin, |blocks[p]|) == blocks[p]
  }

  lemma FileIsLaidOut(f: File, blocks: seq<seq<byte>>, written: nat) returns (ends: seq<nat>)
    requires Holds(f, blocks, written)
    ensures LaidOut(f, blocks, written, ends)
  {
    hide ReadAt, Content, Range, FromBytes, ToBytes, Flatten;
    ends := seq(|blocks|, p requires 0 <= p < |blocks| => NextOffset(blocks, p));
    HeaderEntries(f, blocks, written, 0);
    StartNothing(blocks);
    forall p | 0 <= p < |blocks| ensures SegmentAt(f, blocks, ends, p) {
      HeaderEntries(f, blocks, written, p);
      BlockInFile(f, blocks, written, p);
    }
  }

  lemma StartNothing(blocks: seq<seq<byte>>)
    ensures Start(blocks, 0) == 0
  {}

  /** Everyone reads back its own block exactly if as many processes run as when the file was
      written, the communicator has the same size, and process 0 belongs to it. */
  lemma EveryoneReadsBackIff(f: File, blocks: seq<seq<byte>>, written: nat, members: seq<nat>, world: nat,
                             numProcs: nat)
    requires Holds(f, blocks, written) && MembersOk(members, world) && |members| > 0 && |blocks| > 0
    ensures (forall p :: 0 <= p < |members| && p < |blocks| ==> ReadBack(f, members, numProcs, p) == Some(blocks[p]))
            <==> (numProcs == written && 0 in members && |members| == |blocks|)
  {
    hide Holds, ReadBack;
    FirstIsSmallest(members, world);
    if numProcs == written {
      FirstRankReadsIff(f, blocks, written, members, world);
      if 0 in members && |members| == |blocks| {
        forall p | 0 < p < |members| ensures ReadBack(f, members, numProcs, p) == Some(blocks[p]) {
          LaterRanksRead(f, blocks, written, members, p);
        }
      }
    } else {
      OtherWorld(f, blocks, written, members, numProcs);
    }
  }

  lemma OtherWorld(f: File, blocks: seq<seq<byte>>, written: nat, members: seq<nat>, numProcs: nat)
    requires Holds(f, blocks, written) && |members| > 0 && numProcs != written
    ensures ReadBack(f, members, numProcs, 0) == None
  { WorldFromFile(f, blocks, written); }

  /** Writing and reading on one communicator: whatever the file held before and in whatever order
      the processes write, everyone reads back its block exactly if process 0 belongs to the
      communicator. */
  lemma WriteThenReadIff(f: File, ws: seq<Write>, blocks: seq<seq<byte>>, members: seq<nat>, world: nat,
                         header: seq<byte>)
    requires MembersOk(members, world) && |members| == |blocks| > 0
    requires world < Range(SIZEOF_INT) && |Content(blocks, world)| < Range(SIZEOF_LONG_LONG)
    requires WrittenHeader(members, blocks, world).Some? ==>
               header == WrittenHeader(members, blocks, world).value && AllWritten(ws, blocks, header)
    ensures (WrittenHeader(members, blocks, world).Some?
             && forall p :: 0 <= p < |members| ==> ReadBack(ApplyAll(f, ws), members, world, p) == Some(blocks[p]))
            <==> 0 in members
  {
    hide ReadAt, Range, FromBytes, ToBytes, Flatten, ApplyAll, Header, AllWritten, Content;
    HeaderIffFirstIsZero(members, world, blocks, world);
    FirstIsSmallest(members, world);
    if 0 in members {
      FileIsContent(f, ws, blocks, header);
      ContentIs(blocks, world);
      EveryoneReadsBackIff(ApplyAll(f, ws), blocks, world, members, world, world);
    } else if members[0] < |members| {
      FirstGetsNothing(ApplyAll(f, ws), members, world);
      assert ReadBack(ApplyAll(f, ws), members, world, 0) != Some(blocks[0]);
    }
  }

  lemma ContentIs(blocks: seq<seq<byte>>, numProcs: nat)
    ensures Content(blocks, numProcs) == Header(blocks, numProcs) + Flatten(blocks)
    ensures |Header(blocks, numProcs)| == HeaderSize(|blocks|)
  {}

  /** With another root the first process computes a negative size. */
  lemma FirstGetsNothing(f: File, members: seq<nat>, numProcs: nat)
    requires |members| > 0 && members[0] != 0
    ensures ReadBack(f, members, numProcs, 0) == None
  { hide ReadAt, FromBytes; }

  /** The later processes get empty buffers then, since the root scatters zeros. */
  lemma LaterGetNothing(f: File, members: seq<nat>, numProcs: nat, p: nat)
    requires 0 < p < |members| && 0 < members[0] < |members| && FromBytes(ReadAt(f, 0, SIZEOF_INT)) == numProcs
    ensures ReadBack(f, members, numProcs, p) == Some([])
  { hide FromBytes; }

  /** World ranks 1 and 2: the header that is written holds zeros for offsets, and the first
      process gets nothing back. */
  lemma WithoutProcessZero(f: File)
    ensures var blocks: seq<seq<byte>> := [[7], [9]];
            WrittenHeader([1, 2], blocks, 3) == Some(ToBytes(3, SIZEOF_INT) + EntryBytes([0, 0], 2))
    ensures ReadBack(f, [1, 2], 3, 0) == None
  {
    hide ReadAt, FromBytes, ToBytes;
    var blocks: seq<seq<byte>> := [[7], [9]];
    assert GatheredOffsets([1, 2], blocks).value == [0, 0];
    FirstGetsNothing(f, [1, 2], 3);
  }
}
