/** Parallel archives in the ustar interchange format: the records of all processes, one behind
    the other in blocks of 512 bytes. */
module ParallelArchive {
  import opened ByteCodes
  import opened Options
  import opened SubCommunicators
  import opened Gathers
  import opened FileLayout

  const BLOCK: nat := 512

  function Get512Padding(s: nat): (r: nat)
    ensures r < BLOCK && (s + r) % BLOCK == 0
  { if s % BLOCK == 0 then 0 else BLOCK - s % BLOCK }

  function Zeros(n: nat): (r: seq<byte>)
    ensures |r| == n && forall i :: 0 <= i < n ==> r[i] == 0
  { seq(n, _ => 0) }

  datatype Entry = Entry(name: string, data: seq<byte>)

  /** The header block of an entry; its fields are not modelled. */
  type Headers = (string, nat) -> seq<byte>

  ghost predicate HeadersOk(h: Headers) { forall name, size :: |h(name, size)| == BLOCK }

  function Record(h: Headers, e: Entry): seq<byte> {
    h(e.name, |e.data|) + e.data + Zeros(Get512Padding(|e.data|))
  }

  function Records(h: Headers, es: seq<Entry>): seq<byte> {
    if |es| == 0 then [] else Records(h, es[..|es| - 1]) + Record(h, es[|es| - 1])
  }

  /** The lookup table comes first in the archive, two zero blocks last. */
  function Contribution(h: Headers, table: seq<byte>, n: nat, p: nat, files: seq<Entry>): seq<byte> {
    (if p == 0 then Record(h, Entry(".tar_lookup_table", table)) else [])
    + Records(h, files) + (if p + 1 == n then Zeros(2 * BLOCK) else [])
  }

  function Contributions(h: Headers, table: seq<byte>, files: seq<seq<Entry>>): (r: seq<seq<byte>>)
    ensures |r| == |files| && forall p :: 0 <= p < |r| ==> r[p] == Contribution(h, table, |files|, p, files[p])
  { seq(|files|, p requires 0 <= p < |files| => Contribution(h, table, |files|, p, files[p])) }

  // ---- sizes and positions ------------------------------------------------------------------------

  lemma RecordAligned(h: Headers, e: Entry)
    requires HeadersOk(h)
    ensures |Record(h, e)| == BLOCK + |e.data| + Get512Padding(|e.data|)
    ensures |Record(h, e)| % BLOCK == 0
  {}

  lemma {:induction false} RecordsAligned(h: Headers, es: seq<Entry>)
    requires HeadersOk(h)
    ensures |Records(h, es)| % BLOCK == 0
  {
    if |es| > 0 {
      RecordsAligned(h, es[..|es| - 1]);
      RecordAligned(h, es[|es| - 1]);
    }
  }

  lemma {:induction false} RecordsConcat(h: Headers, a: seq<Entry>, b: seq<Entry>)
    ensures Records(h, a + b) == Records(h, a) + Records(h, b)
  {
    hide Record;
    if |b| == 0 {
      assert a + b == a;
    } else {
      var n := |b| - 1;
      RecordsConcat(h, a, b[..n]);
      assert (a + b)[..|a| + n] == a + b[..n] && (a + b)[|a| + n] == b[n];
    }
  }

  lemma RecordsOne(h: Headers, e: Entry)
    ensures Records(h, [e]) == Record(h, e)
  {
    hide Record;
    assert [e][..0] == [];
  }

  /** What the archive holds: the lookup table, then the files of all processes by rank. */
  function AllEntries(table: seq<byte>, files: seq<seq<Entry>>): seq<Entry> {
    [Entry(".tar_lookup_table", table)] + Flatten(files)
  }

  lemma EntriesStep(table: seq<byte>, files: seq<seq<Entry>>, k: nat)
    requires k < |files|
    ensures AllEntries(table, files[..k + 1]) == AllEntries(table, files[..k]) + files[k]
  { assert files[..k + 1][..k] == files[..k]; }

  /** What the first k processes write are the records of the table and of their files. */
  lemma {:induction false} FirstContributions(h: Headers, table: seq<byte>, files: seq<seq<Entry>>, k: nat)
    requires 0 < k <= |files|
    ensures Flatten(Contributions(h, table, files)[..k]) ==
              Records(h, AllEntries(table, files[..k])) + (if k == |files| then Zeros(2 * BLOCK) else [])
  {
    hide Record, Records, AllEntries, Flatten, Contribution, Zeros;
    var cs := Contributions(h, table, files);
    var p := k - 1;
    FlattenNext(cs, k);
    EntriesStep(table, files, p);
    RecordsConcat(h, AllEntries(table, files[..p]), files[p]);
    ContributionIs(h, table, |files|, p, files[p]);
    var end := if k == |files| then Zeros(2 * BLOCK) else [];
    if p == 0 {
      NoContributions(h, table, files);
      assert [] + cs[0] == cs[0];
    } else {
      FirstContributions(h, table, files, p);
      var front := Records(h, AllEntries(table, files[..p]));
      assert front + [] == front;
      assert front + (Records(h, files[p]) + end) == (front + Records(h, files[p])) + end;
    }
  }

  lemma ContributionIs(h: Headers, table: seq<byte>, n: nat, p: nat, files: seq<Entry>)
    ensures var end := if p + 1 == n then Zeros(2 * BLOCK) else [];
            Contribution(h, table, n, p, files) ==
              if p == 0 then Record(h, Entry(".tar_lookup_table", table)) + Records(h, files) + end
              else Records(h, files) + end
  { hide Record, Records; }

  lemma NoContributions(h: Headers, table: seq<byte>, files: seq<seq<Entry>>)
    ensures Flatten(Contributions(h, table, files)[..0]) == []
    ensures Records(h, AllEntries(table, files[..0])) == Record(h, Entry(".tar_lookup_table", table))
  {
    hide Record;
    RecordsOne(h, Entry(".tar_lookup_table", table));
    assert AllEntries(table, files[..0]) == [Entry(".tar_lookup_table", table)];
  }

  // ---- the bytes of an archive ------------------------------------------------------------------------

  /** At a multiple of 512 lies the header of the entry, behind it the data, and zeros up to the next
      multiple. */
  ghost predicate RecordAt(f: File, h: Headers, e: Entry, at: nat) {
    && at % BLOCK == 0
    && ReadAt(f, at, BLOCK) == h(e.name, |e.data|)
    && ReadAt(f, at + BLOCK, |e.data|) == e.data
    && ZerosAt(f, at + BLOCK + |e.data|, Get512Padding(|e.data|))
  }

  ghost predicate ZerosAt(f: File, at: nat, n: nat) { forall x: nat :: at <= x < at + n ==> f(x) == 0 }

  function RecordEnd(e: Entry, at: nat): nat { at + BLOCK + |e.data| + Get512Padding(|e.data|) }

  /** The records of the entries, the first one at the start and each one where the previous one ends. */
  ghost predicate RecordsAt(f: File, h: Headers, es: seq<Entry>, at: seq<nat>) {
    && |at| == |es| + 1 && at[0] == 0
    && (forall i :: 0 <= i < |es| ==> RecordAt(f, h, es[i], at[i]))
    && (forall i :: 0 <= i < |es| ==> Follows(es, at, i))
  }

  ghost predicate Follows(es: seq<Entry>, at: seq<nat>, i: nat)
    requires i < |es| && |at| == |es| + 1
  { at[i + 1] == RecordEnd(es[i], at[i]) }

  /** The records so far, and one more behind them. */
  lemma RecordAppended(f: File, h: Headers, es: seq<Entry>, at: seq<nat>)
    requires |es| > 0 && RecordsAt(f, h, es[..|es| - 1], at) && RecordAt(f, h, es[|es| - 1], at[|es| - 1])
    ensures RecordsAt(f, h, es, at + [RecordEnd(es[|es| - 1], at[|es| - 1])])
  {
    hide RecordAt, RecordEnd;
    var n := |es| - 1;
    var longer := at + [RecordEnd(es[n], at[n])];
    forall i | 0 <= i <= n ensures RecordAt(f, h, es[i], longer[i]) && Follows(es, longer, i) {
      if i < n { assert RecordAt(f, h, es[..n][i], at[i]) && Follows(es[..n], at, i); }
    }
  }

  /** The bytes of the last record of a file that starts with the bytes of some records. */
  lemma LastRecord(f: File, h: Headers, es: seq<Entry>)
    requires |es| > 0 && ReadAt(f, 0, |Records(h, es)|) == Records(h, es)
    ensures var before := Records(h, es[..|es| - 1]); var last := Record(h, es[|es| - 1]);
            && ReadAt(f, 0, |before|) == before && ReadAt(f, |before|, |last|) == last
            && |Records(h, es)| == |before| + |last|
  {
    hide Record, ReadAt;
    var before, last := Records(h, es[..|es| - 1]), Record(h, es[|es| - 1]);
    assert Records(h, es)[0..|before|] == before;
    ReadPart(f, Records(h, es), 0, |before|);
    assert Records(h, es)[|before|..|before| + |last|] == last;
    ReadPart(f, Records(h, es), |before|, |last|);
  }

  /** A file that starts with the bytes of some records holds these records. */
  lemma {:induction false} RecordsFound(f: File, h: Headers, es: seq<Entry>) returns (at: seq<nat>)
    requires HeadersOk(h) && ReadAt(f, 0, |Records(h, es)|) == Records(h, es)
    ensures RecordsAt(f, h, es, at)
    ensures forall i :: 0 <= i <= |es| ==> at[i] == |Records(h, es[..i])|
  {
    hide Record, ReadAt, RecordAt, RecordEnd, Records, Follows, HeadersOk;
    if |es| == 0 {
      at := [0];
      assert es[..0] == es;
      NoRecords(h, es);
    } else {
      var n := |es| - 1;
      LastRecord(f, h, es);
      var before := RecordsFound(f, h, es[..n]);
      assert es[..n][..n] == es[..n];
      RecordsAligned(h, es[..n]);
      RecordFound(f, h, es[n], before[n]);
      RecordAppended(f, h, es, before);
      at := before + [RecordEnd(es[n], before[n])];
      forall i | 0 <= i <= n + 1 ensures at[i] == |Records(h, es[..i])| {
        if i <= n { assert es[..n][..i] == es[..i]; } else { assert es[..i] == es; }
      }
    }
  }

  lemma NoRecords(h: Headers, es: seq<Entry>)
    ensures |es| == 0 ==> Records(h, es) == []
  {}

  lemma RecordFound(f: File, h: Headers, e: Entry, at: nat)
    requires HeadersOk(h) && at % BLOCK == 0 && ReadAt(f, at, |Record(h, e)|) == Record(h, e)
    ensures RecordAt(f, h, e, at) && at + |Record(h, e)| == RecordEnd(e, at)
  {
    hide ReadAt;
    var rec, n := Record(h, e), |e.data|;
    ReadInside(f, at, rec, 0, BLOCK);
    assert rec[..BLOCK] == h(e.name, n);
    ReadInside(f, at, rec, BLOCK, n);
    assert rec[BLOCK..BLOCK + n] == e.data;
    ReadInside(f, at, rec, BLOCK + n, Get512Padding(n));
    assert rec[BLOCK + n..] == Zeros(Get512Padding(n));
    assert rec[BLOCK + n..] == rec[BLOCK + n..BLOCK + n + Get512Padding(n)];
    ReadZeros(f, at + BLOCK + n, Get512Padding(n));
  }

  lemma ReadInside(f: File, at: nat, bytes: seq<byte>, d: nat, len: nat)
    requires d + len <= |bytes| && ReadAt(f, at, |bytes|) == bytes
    ensures ReadAt(f, at + d, len) == bytes[d..d + len]
  {
    var part, got := bytes[d..d + len], ReadAt(f, at + d, len);
    forall i | 0 <= i < len ensures got[i] == part[i] {
      assert ReadAt(f, at, |bytes|)[d + i] == f(at + (d + i));
    }
  }

  lemma ReadZeros(f: File, at: nat, n: nat)
    requires ReadAt(f, at, n) == Zeros(n)
    ensures ZerosAt(f, at, n)
  {
    forall x: nat | at <= x < at + n ensures f(x) == 0 { assert ReadAt(f, at, n)[x - at] == f(at + (x - at)); }
  }

  /** An archive: the lookup table, the files of all processes by rank, and two zero blocks. */
  ghost predicate IsArchive(f: File, h: Headers, table: seq<byte>, files: seq<seq<Entry>>, at: seq<nat>) {
    var es := AllEntries(table, files);
    RecordsAt(f, h, es, at) && at[|es|] % BLOCK == 0 && ZerosAt(f, at[|es|], 2 * BLOCK)
  }

  /** In whatever order the processes write, the file is what they write, one behind the other. */
  lemma ContentWritten(f: File, ws: seq<Write>, cs: seq<seq<byte>>)
    requires AllWritten(ws, cs)
    ensures ReadAt(ApplyAll(f, ws), 0, |Flatten(cs)|) == Flatten(cs)
  {
    hide ApplyAll, ReadAt, Flatten, Start;
    forall k | 0 <= k < |ws| ensures PartOf(ws[k], Flatten(cs)) {
      var q: nat :| WroteAs(cs, ws[k], q);
      FlattenSlice(cs, q);
    }
    forall x | 0 <= x < |Flatten(cs)| ensures Covered(x, ws) {
      var p := InSomeSegment(cs, x);
      assert Write(Start(cs, p), cs[p]) in ws;
    }
    WritesProduce(f, ws, Flatten(cs));
  }

  /** Once all processes have written, in whatever order, the file is an archive. */
  lemma ArchiveIsWritten(f: File, ws: seq<Write>, h: Headers, table: seq<byte>, files: seq<seq<Entry>>)
      returns (at: seq<nat>)
    requires HeadersOk(h) && AllWritten(ws, Contributions(h, table, files)) && |files| > 0
    ensures IsArchive(ApplyAll(f, ws), h, table, files, at)
    ensures forall i :: 0 <= i <= |AllEntries(table, files)| ==> at[i] == |Records(h, AllEntries(table, files)[..i])|
  {
    hide Record, Records, AllWritten, ApplyAll, ReadAt, Flatten, AllEntries, RecordAt, HeadersOk;
    var cs, es := Contributions(h, table, files), AllEntries(table, files);
    var end := Records(h, es);
    FirstContributions(h, table, files, |files|);
    assert cs[..|files|] == cs && files[..|files|] == files;
    ContentWritten(f, ws, cs);
    assert Flatten(cs)[0..|end|] == end;
    ReadPart(ApplyAll(f, ws), Flatten(cs), 0, |end|);
    at := RecordsFound(ApplyAll(f, ws), h, es);
    assert es[..|es|] == es;
    RecordsAligned(h, es);
    EndIsZero(ApplyAll(f, ws), end);
  }

  lemma EndIsZero(f: File, front: seq<byte>)
    requires ReadAt(f, 0, |front + Zeros(2 * BLOCK)|) == front + Zeros(2 * BLOCK)
    ensures ZerosAt(f, |front|, 2 * BLOCK)
  {
    hide ReadAt, Zeros;
    ReadInside(f, 0, front + Zeros(2 * BLOCK), |front|, 2 * BLOCK);
    ReadZeros(f, |front|, 2 * BLOCK);
  }

  /** Every file of every process is found at a multiple of 512, and the next one of the process
      where it ends. */
  lemma EveryRecordIsAligned(f: File, ws: seq<Write>, h: Headers, table: seq<byte>, files: seq<seq<Entry>>, p: nat,
                             j: nat) returns (at: nat)
    requires HeadersOk(h) && AllWritten(ws, Contributions(h, table, files)) && p < |files| && j < |files[p]|
    ensures RecordAt(ApplyAll(f, ws), h, files[p][j], at)
    ensures j + 1 < |files[p]| ==> RecordAt(ApplyAll(f, ws), h, files[p][j + 1], RecordEnd(files[p][j], at))
  {
    hide Record, Records, AllWritten, ApplyAll, ReadAt, Flatten, RecordAt, HeadersOk, Contributions;
    var es := AllEntries(table, files);
    var all := ArchiveIsWritten(f, ws, h, table, files);
    FlattenSlice(files, p);
    var i := 1 + Start(files, p) + j;
    assert Flatten(files)[Start(files, p)..Start(files, p) + |files[p]|][j] == es[i];
    at := all[i];
    if j + 1 < |files[p]| {
      assert Flatten(files)[Start(files, p)..Start(files, p) + |files[p]|][j + 1] == es[i + 1];
      assert Follows(es, all, i);
    }
  }

  /** The offset of a process is where its first file begins, and that of the first process where
      the lookup table does. */
  lemma OffsetsPointToRecords(f: File, ws: seq<Write>, h: Headers, table: seq<byte>, files: seq<seq<Entry>>, p: nat)
    requires HeadersOk(h) && AllWritten(ws, Contributions(h, table, files)) && p < |files|
    ensures p == 0 ==>
              RecordAt(ApplyAll(f, ws), h, Entry(".tar_lookup_table", table), Offsets(h, table, files)[p])
    ensures p > 0 && |files[p]| > 0 ==> RecordAt(ApplyAll(f, ws), h, files[p][0], Offsets(h, table, files)[p])
  {
    hide Record, Records, AllWritten, ApplyAll, ReadAt, Flatten, RecordAt, HeadersOk, Contributions;
    var es := AllEntries(table, files);
    var all := ArchiveIsWritten(f, ws, h, table, files);
    if p == 0 {
      NoContributions(h, table, files);
      assert RecordAt(ApplyAll(f, ws), h, es[0], all[0]);
    } else if |files[p]| > 0 {
      FirstContributions(h, table, files, p);
      FlattenSlice(files, p);
      var i := 1 + Start(files, p);
      assert Flatten(files)[Start(files, p)..Start(files, p) + |files[p]|][0] == es[i];
      FilesBefore(table, files, p);
      assert RecordAt(ApplyAll(f, ws), h, es[i], all[i]);
    }
  }

  lemma FilesBefore(table: seq<byte>, files: seq<seq<Entry>>, p: nat)
    requires p <= |files|
    ensures Start(files, p) <= |Flatten(files)|
    ensures AllEntries(table, files)[..1 + Start(files, p)] == AllEntries(table, files[..p])
  {
    StartBound(files, p);
    FlattenPrefix(files, p);
  }

  lemma {:induction false} FlattenPrefix<T>(lists: seq<seq<T>>, p: nat)
    requires p <= |lists|
    ensures Flatten(lists[..p]) <= Flatten(lists)
    decreases |lists|
  {
    if p == |lists| {
      assert lists[..p] == lists;
    } else {
      var n := |lists| - 1;
      FlattenPrefix(lists[..n], p);
      assert lists[..n][..p] == lists[..p];
    }
  }

  // ---- the gather in front of the writes ----------------------------------------------------------

  /** Where every process starts to write. */
  function Offsets(h: Headers, table: seq<byte>, files: seq<seq<Entry>>): (r: seq<nat>)
    ensures |r| == |files| && forall p :: 0 <= p < |r| ==> r[p] == Start(Contributions(h, table, files), p)
  { seq(|files|, p requires 0 <= p < |files| => Start(Contributions(h, table, files), p)) }

  /** Entries a process with this rank can receive: only the first one makes room for all. */
  function RecvSize(n: nat, rank: nat): nat { if rank == 0 then n else 1 }

  datatype Gather = AllOffsets(offsets: seq<nat>) | NoRank | Overrun

  /** Before any process writes, the offsets are gathered on the rank that equals the world rank of
      the first process. It may be no rank at all, or one that has room for a single entry. */
  function OffsetGather(members: seq<nat>, offsets: seq<nat>): Gather
    requires |members| == |offsets| > 0
  {
    var n, root := |members|, members[0];
    if root >= n then NoRank else if RecvSize(n, root) < n then Overrun else AllOffsets(offsets)
  }

  lemma GatherIffFirstIsZero(members: seq<nat>, world: nat, offsets: seq<nat>)
    requires MembersOk(members, world) && |members| == |offsets| > 0
    ensures OffsetGather(members, offsets) == AllOffsets(offsets) <==> 0 in members
    ensures OffsetGather(members, offsets).AllOffsets? ==> OffsetGather(members, offsets) == AllOffsets(offsets)
  { assert members[0] == 0 <==> 0 in members; }

  /** An archive gets written exactly if process 0 belongs to the communicator: with any other
      first process the gather fails before a byte is written. */
  lemma ArchiveIffFirstIsZero(f: File, ws: seq<Write>, h: Headers, members: seq<nat>, world: nat, table: seq<byte>,
                              files: seq<seq<Entry>>)
    requires HeadersOk(h) && MembersOk(members, world) && |members| == |files| > 0
    requires OffsetGather(members, Offsets(h, table, files)).AllOffsets? ==>
               AllWritten(ws, Contributions(h, table, files))
    ensures (OffsetGather(members, Offsets(h, table, files)).AllOffsets?
             && exists at :: IsArchive(ApplyAll(f, ws), h, table, files, at))
            <==> 0 in members
  {
    hide Record, AllWritten, ApplyAll, ReadAt, Flatten, OffsetGather, HeadersOk, Start, IsArchive;
    GatherIffFirstIsZero(members, world, Offsets(h, table, files));
    if 0 in members { var at := ArchiveIsWritten(f, ws, h, table, files); }
  }

  /** World ranks 5 and 6: the root is no rank. World ranks 1 and 2: it is the rank of the second
      process, which has room for one entry. */
  lemma ArchiveWithoutProcessZero(a: nat, b: nat)
    ensures OffsetGather([5, 6], [a, b]) == NoRank && OffsetGather([1, 2], [a, b]) == Overrun
  {}

  // ---- the lookup table ---------------------------------------------------------------------------

  /** The table has a slot of the width of size_t for every process, and is written from a vector of
      ints: the offsets fill its first half, and what follows lies behind the vector. */
  ghost predicate TableOk(table: seq<byte>, offsets: seq<nat>) {
    && |table| == SIZEOF_SIZE_T * |offsets|
    && forall p :: 0 <= p < |offsets| ==> HoldsInt(table, p, offsets[p])
  }

  ghost predicate HoldsInt(table: seq<byte>, p: nat, x: nat) {
    (p + 1) * SIZEOF_INT <= |table| && table[p * SIZEOF_INT..(p + 1) * SIZEOF_INT] == ToBytes(x, SIZEOF_INT)
  }

  /** Read as ints, the first entries are the offsets. */
  lemma TableHoldsInts(table: seq<byte>, offsets: seq<nat>, p: nat)
    requires TableOk(table, offsets) && p < |offsets| && offsets[p] < Range(SIZEOF_INT)
    ensures (p + 1) * SIZEOF_INT <= |table|
    ensures FromBytes(table[p * SIZEOF_INT..(p + 1) * SIZEOF_INT]) == offsets[p]
  {
    hide FromBytes, ToBytes, Range;
    assert HoldsInt(table, p, offsets[p]);
    BytesRoundTrip(offsets[p], SIZEOF_INT);
  }

  lemma {:induction false} FromBytesConcat(a: seq<byte>, b: seq<byte>)
    ensures FromBytes(a + b) == FromBytes(a) + Range(|a|) * FromBytes(b)
  {
    if |a| == 0 {
      assert a + b == b;
    } else {
      FromBytesConcat(a[1..], b);
      assert (a + b)[1..] == a[1..] + b;
      Factor(Range(|a| - 1), FromBytes(b));
    }
  }

  lemma Factor(r: nat, x: nat)
    ensures 256 * r * x == 256 * (r * x)
  {}

  /** Read as its slots, the table is wrong with two or more processes: the first slot holds the
      offset of the second process in its upper half. */
  lemma FirstSlotIsWrong(h: Headers, table: seq<byte>, files: seq<seq<Entry>>)
    requires HeadersOk(h) && |files| > 1 && TableOk(table, Offsets(h, table, files))
    requires Offsets(h, table, files)[1] < Range(SIZEOF_INT)
    ensures FromBytes(table[..SIZEOF_SIZE_T]) != Offsets(h, table, files)[0]
  {
    var offsets := Offsets(h, table, files);
    FirstOffsets(h, table, files);
    hide Range, ToBytes, FromBytes, Offsets;
    assert Range(SIZEOF_INT) > 0 by { RangeOfInt(); }
    TableHoldsInts(table, offsets, 0);
    TableHoldsInts(table, offsets, 1);
    var a, b := table[0 * SIZEOF_INT..1 * SIZEOF_INT], table[1 * SIZEOF_INT..2 * SIZEOF_INT];
    assert table[..SIZEOF_SIZE_T] == a + b;
    FromBytesConcat(a, b);
    Positive(Range(SIZEOF_INT), offsets[1]);
  }

  lemma Positive(a: nat, b: nat)
    requires a > 0 && b > 0
    ensures a * b > 0
  {}

  lemma FirstOffsets(h: Headers, table: seq<byte>, files: seq<seq<Entry>>)
    requires HeadersOk(h) && |files| > 1
    ensures Offsets(h, table, files)[0] == 0 < Offsets(h, table, files)[1]
  {
    hide Record, Records;
    var cs := Contributions(h, table, files);
    assert cs[..0] == [];
    FlattenSlice(cs, 0);
    RecordAligned(h, Entry(".tar_lookup_table", table));
  }

  // ---- writing ----------------------------------------------------------------------------------

  ghost predicate AllWritten(ws: seq<Write>, cs: seq<seq<byte>>) {
    && (forall k :: 0 <= k < |ws| ==> exists p: nat :: WroteAs(cs, ws[k], p))
    && (forall p :: 0 <= p < |cs| ==> Write(Start(cs, p), cs[p]) in ws)
  }

  /** The write is that of the process with rank p. */
  ghost predicate WroteAs(cs: seq<seq<byte>>, w: Write, p: nat) { p < |cs| && w == Write(Start(cs, p), cs[p]) }

  lemma RecordsNext(h: Headers, es: seq<Entry>, i: nat)
    requires i < |es|
    ensures Records(h, es[..i + 1]) == Records(h, es[..i]) + Record(h, es[i])
  { assert es[..i + 1][..i] == es[..i]; }

  /** One process: scanned is the inclusive scan of the sizes it computes first, gathered what the
      gather of offsets comes to. Without it nothing is written. */
  method WriteParallelArchive(h: Headers, table: seq<byte>, n: nat, p: nat, files: seq<Entry>, scanned: nat,
                              gathered: Gather)
    returns (mySize: nat, w: Option<Write>)
    requires HeadersOk(h) && scanned >= |Contribution(h, table, n, p, files)|
    ensures mySize == |Contribution(h, table, n, p, files)|
    ensures w == if gathered.AllOffsets? then Some(Write(scanned - mySize, Contribution(h, table, n, p, files)))
                 else None
  {
    mySize := SizeOf(h, table, n, p, files);
    if !gathered.AllOffsets? { return mySize, None; }
    var out := BytesOf(h, table, n, p, files);
    w := Some(Write(scanned - mySize, out));
  }

  method SizeOf(h: Headers, table: seq<byte>, n: nat, p: nat, files: seq<Entry>) returns (mySize: nat)
    requires HeadersOk(h)
    ensures mySize == |Contribution(h, table, n, p, files)|
  {
    hide Record, Records, HeadersOk, Get512Padding;
    mySize := 0;
    if p + 1 == n { mySize := mySize + 1024; }
    RecordAligned(h, Entry(".tar_lookup_table", table));
    if p == 0 { mySize := mySize + BLOCK + |table| + Get512Padding(|table|); }
    ghost var fixed := mySize;
    var i := 0;
    RecordsNone(h, files);
    while i < |files|
      invariant 0 <= i <= |files| && mySize == fixed + |Records(h, files[..i])|
    {
      RecordsNext(h, files, i);
      RecordAligned(h, files[i]);
      var s := |files[i].data|;
      mySize := mySize + BLOCK + s + Get512Padding(s);
      i := i + 1;
    }
    assert files[..i] == files;
  }

  method BytesOf(h: Headers, table: seq<byte>, n: nat, p: nat, files: seq<Entry>) returns (out: seq<byte>)
    ensures out == Contribution(h, table, n, p, files)
  {
    hide Record, Records;
    out := [];
    if p == 0 { out := Record(h, Entry(".tar_lookup_table", table)); }
    ghost var first := out;
    var i := 0;
    RecordsNone(h, files);
    while i < |files|
      invariant 0 <= i <= |files| && out == first + Records(h, files[..i])
    {
      RecordsNext(h, files, i);
      out := out + Record(h, files[i]);
      i := i + 1;
    }
    assert files[..i] == files;
    if p + 1 == n { out := out + Zeros(2 * BLOCK); }
  }

  lemma RecordsNone(h: Headers, es: seq<Entry>)
    ensures Records(h, es[..0]) == []
  {}
}
