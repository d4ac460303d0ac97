/** Variable-size gathers: sizes, prefix-sum displacements and the placement of the blocks. */
module Gathers {
  import opened SubCommunicators

  /** The rank-order concatenation. */
  function Flatten<T>(lists: seq<seq<T>>): seq<T> {
    if |lists| == 0 then [] else Flatten(lists[..|lists| - 1]) + lists[|lists| - 1]
  }

  /** Where the list of process p starts in the concatenation. */
  function Start<T>(lists: seq<seq<T>>, p: nat): nat
    requires p <= |lists|
  { |Flatten(lists[..p])| }

  lemma {:induction false} FlattenSlice<T>(lists: seq<seq<T>>, p: nat)
    requires p < |lists|
    ensures Start(lists, p) + |lists[p]| <= |Flatten(lists)|
    ensures Flatten(lists)[Start(lists, p)..Start(lists, p) + |lists[p]|] == lists[p]
    ensures Start(lists, p) + |lists[p]| == Start(lists, p + 1)
  {
    var n := |lists| - 1;
    assert lists[..p + 1][..p] == lists[..p];
    if p < n {
      FlattenSlice(lists[..n], p);
      assert lists[..n][..p] == lists[..p];
      var flat, s := Flatten(lists[..n]), Start(lists, p);
      assert Flatten(lists)[s..s + |lists[p]|] == flat[s..s + |lists[p]|];
    }
  }

  function WriteAt<T>(buf: seq<T>, d: nat, block: seq<T>): (r: seq<T>)
    requires d + |block| <= |buf|
    ensures |r| == |buf|
  { buf[..d] + block + buf[d + |block|..] }

  ghost predicate InBounds<T>(buf: seq<T>, blocks: seq<seq<T>>, displs: seq<nat>) {
    |displs| == |blocks| && forall p :: 0 <= p < |blocks| ==> displs[p] + |blocks[p]| <= |buf|
  }

  /** What a variable-size gather does to the receive buffer: the block of every rank before n,
      except the rank that contributes in place, is written at its displacement. */
  ghost function Placed<T>(buf: seq<T>, blocks: seq<seq<T>>, displs: seq<nat>, inPlace: int, n: nat): (r: seq<T>)
    requires InBounds(buf, blocks, displs) && n <= |blocks|
    ensures |r| == |buf|
  {
    if n == 0 then buf
    else
      var r := Placed(buf, blocks, displs, inPlace, n - 1);
      if n - 1 == inPlace then r else WriteAt(r, displs[n - 1], blocks[n - 1])
  }

  function Starts<T>(blocks: seq<seq<T>>): (r: seq<nat>)
    ensures |r| == |blocks| && forall p :: 0 <= p < |r| ==> r[p] == Start(blocks, p)
  { seq(|blocks|, p requires 0 <= p < |blocks| => Start(blocks, p)) }

  lemma StartsInBounds<T>(buf: seq<T>, blocks: seq<seq<T>>)
    requires |buf| == |Flatten(blocks)|
    ensures InBounds(buf, blocks, Starts(blocks))
  {
    forall p | 0 <= p < |blocks| ensures Starts(blocks)[p] + |blocks[p]| <= |buf| { FlattenSlice(blocks, p); }
  }

  lemma StartBound<T>(blocks: seq<seq<T>>, n: nat)
    requires n <= |blocks|
    ensures Start(blocks, n) <= |Flatten(blocks)|
  { if n < |blocks| { FlattenSlice(blocks, n); } else { assert blocks[..n] == blocks; } }

  /** Displacements that are prefix sums tile the buffer: the result is the concatenation, if a
      block contributed in place already lies at its displacement. */
  lemma {:induction false} PlacedIsFlatten<T>(buf: seq<T>, blocks: seq<seq<T>>, inPlace: int, n: nat)
    requires |buf| == |Flatten(blocks)| && InBounds(buf, blocks, Starts(blocks)) && n <= |blocks|
    requires 0 <= inPlace < |blocks| ==>
               var d := Start(blocks, inPlace); buf[d..d + |blocks[inPlace]|] == blocks[inPlace]
    ensures Start(blocks, n) <= |buf|
    ensures var r := Placed(buf, blocks, Starts(blocks), inPlace, n);
            r[..Start(blocks, n)] == Flatten(blocks[..n]) && r[Start(blocks, n)..] == buf[Start(blocks, n)..]
  {
    hide Flatten, WriteAt, InBounds;
    StartBound(blocks, n);
    FlattenNext(blocks, n);
    if n > 0 {
      var k := n - 1;
      PlacedIsFlatten(buf, blocks, inPlace, k);
      FlattenSlice(blocks, k);
      PlaceNext(buf, Placed(buf, blocks, Starts(blocks), inPlace, k), Flatten(blocks[..k]), blocks[k], k == inPlace);
    }
  }

  lemma FlattenNext<T>(blocks: seq<seq<T>>, n: nat)
    requires n <= |blocks|
    ensures Flatten(blocks[..n]) == if n == 0 then [] else Flatten(blocks[..n - 1]) + blocks[n - 1]
  { if n > 0 { assert blocks[..n][..n - 1] == blocks[..n - 1]; } }

  /** The next block extends the finished front. */
  lemma PlaceNext<T>(buf: seq<T>, r: seq<T>, front: seq<T>, block: seq<T>, present: bool)
    requires var d := |front|; d + |block| <= |r| == |buf| && r[..d] == front && r[d..] == buf[d..]
    requires present ==> buf[|front|..|front| + |block|] == block
    ensures var d := |front|; var e := d + |block|; var r' := if present then r else WriteAt(r, d, block);
            r'[..e] == front + block && r'[e..] == buf[e..]
  {
    var d, e := |front|, |front| + |block|;
    assert r[e..] == r[d..][|block|..] && buf[e..] == buf[d..][|block|..];
    if present {
      assert r[d..e] == r[d..][..|block|] && buf[d..e] == buf[d..][..|block|];
      assert r[..e] == r[..d] + r[d..e];
    }
  }

  /** Byte offsets are the prefix sums of the byte sizes. */
  method ByteOffsets<T>(sendBufs: seq<seq<T>>, byteSizes: seq<nat>, sizeOf: nat)
      returns (byteOffsets: seq<nat>, totalSize: nat)
    requires |byteSizes| == |sendBufs| && forall p :: 0 <= p < |sendBufs| ==> byteSizes[p] == |sendBufs[p]| * sizeOf
    ensures |byteOffsets| == |sendBufs| && totalSize == |Flatten(sendBufs)| * sizeOf
    ensures forall p :: 0 <= p < |sendBufs| ==> byteOffsets[p] == Start(sendBufs, p) * sizeOf
  {
    NoStart(sendBufs, sizeOf);
    hide Flatten, Start;
    byteOffsets, totalSize := [], 0;
    for i := 0 to |byteSizes|
      invariant |byteOffsets| == i && totalSize == Start(sendBufs, i) * sizeOf
      invariant forall p :: 0 <= p < i ==> byteOffsets[p] == Start(sendBufs, p) * sizeOf
    {
      byteOffsets := byteOffsets + [totalSize];
      NextStart(sendBufs, i, sizeOf);
      totalSize := totalSize + byteSizes[i];
    }
    StartOfAll(sendBufs);
  }

  /** Back to element counts. */
  method ElementCounts<T>(ghost sendBufs: seq<seq<T>>, byteSizes: seq<nat>, byteOffsets: seq<nat>, sizeOf: nat)
    returns (sizes: seq<nat>, offsets: seq<nat>)
    requires sizeOf > 0 && |byteSizes| == |byteOffsets| == |sendBufs|
    requires forall p :: 0 <= p < |sendBufs| ==>
               byteSizes[p] == |sendBufs[p]| * sizeOf && byteOffsets[p] == Start(sendBufs, p) * sizeOf
    ensures |sizes| == |offsets| == |sendBufs|
    ensures forall p :: 0 <= p < |sendBufs| ==> sizes[p] == |sendBufs[p]| && offsets[p] == Start(sendBufs, p)
  {
    hide Flatten, Start;
    sizes, offsets := [], [];
    for i := 0 to |byteSizes|
      invariant |sizes| == |offsets| == i
      invariant forall p :: 0 <= p < i ==> sizes[p] == |sendBufs[p]| && offsets[p] == Start(sendBufs, p)
    {
      Quotient(|sendBufs[i]|, sizeOf);
      Quotient(Start(sendBufs, i), sizeOf);
      sizes := sizes + [byteSizes[i] / sizeOf];
      offsets := offsets + [byteOffsets[i] / sizeOf];
    }
  }

  lemma NoStart<T>(blocks: seq<seq<T>>, c: nat)
    ensures Start(blocks, 0) * c == 0
  { assert Start(blocks, 0) == 0; }

  lemma NextStart<T>(blocks: seq<seq<T>>, i: nat, c: nat)
    requires i < |blocks|
    ensures Start(blocks, i + 1) * c == Start(blocks, i) * c + |blocks[i]| * c
  {
    FlattenSlice(blocks, i);
    Distribute(Start(blocks, i), |blocks[i]|, c);
  }

  lemma StartOfAll<T>(blocks: seq<seq<T>>)
    ensures Start(blocks, |blocks|) == |Flatten(blocks)|
  { assert blocks[..|blocks|] == blocks; }

  /** The typed allgatherv: byte sizes are exchanged, byte offsets are prefix sums, and both
      are turned back into element counts. Without any data the size and offset lists come
      back empty. */
  method AllGatherV<T>(sendBufs: seq<seq<T>>, sizeOf: nat, fill: T)
      returns (recBuf: seq<T>, sizes: seq<nat>, offsets: seq<nat>)
    requires sizeOf > 0
    ensures recBuf == Flatten(sendBufs)
    ensures recBuf == [] ==> sizes == [] && offsets == []
    ensures recBuf != [] ==> |sizes| == |offsets| == |sendBufs|
    ensures forall p :: 0 <= p < |sizes| && p < |offsets| && p < |sendBufs| ==>
              sizes[p] == |sendBufs[p]| && offsets[p] == Start(sendBufs, p)
  {
    hide Flatten, Start;
    var byteSizes := seq(|sendBufs|, p requires 0 <= p < |sendBufs| => |sendBufs[p]| * sizeOf);
    var byteOffsets, totalSize := ByteOffsets(sendBufs, byteSizes, sizeOf);
    recBuf, sizes, offsets := [], [], [];
    Quotient(|Flatten(sendBufs)|, sizeOf);
    if totalSize == 0 {
      ZeroProduct(|Flatten(sendBufs)|, sizeOf);
      return;
    }
    sizes, offsets := ElementCounts(sendBufs, byteSizes, byteOffsets, sizeOf);
    recBuf := Collective(sendBufs, offsets, totalSize / sizeOf, fill);
    NotEmptyIfBytes(recBuf, sizeOf, totalSize);
  }

  lemma NotEmptyIfBytes<T>(buf: seq<T>, c: nat, total: nat)
    requires total == |buf| * c && total > 0
    ensures buf != []
  {}

  lemma Distribute(a: nat, b: nat, c: nat)
    ensures a * c + b * c == (a + b) * c
  {}

  lemma ZeroProduct(a: nat, c: nat)
    requires c > 0 && a * c == 0
    ensures a == 0
  {}

  lemma Quotient(a: nat, c: nat)
    requires c > 0
    ensures a * c / c == a
  {
    var q := a * c / c;
    assert q * c <= a * c < q * c + c;
    if q < a { MulMonotone(q + 1, a, c); }
  }

  lemma MulMonotone(x: nat, y: nat, c: nat)
    requires x <= y
    ensures x * c <= y * c
  {}

  /** The library's allgatherv on a buffer of the given size. */
  method Collective<T>(sendBufs: seq<seq<T>>, displs: seq<nat>, total: nat, fill: T) returns (recBuf: seq<T>)
    requires displs == Starts(sendBufs) && total == |Flatten(sendBufs)|
    ensures recBuf == Flatten(sendBufs)
  {
    recBuf := seq(total, _ => fill);
    ghost var buf := recBuf;
    StartsInBounds(buf, sendBufs);
    for i := 0 to |sendBufs|
      invariant recBuf == Placed(buf, sendBufs, displs, -1, i)
    { recBuf := WriteAt(recBuf, displs[i], sendBufs[i]); }
    PlacedIsFlatten(buf, sendBufs, -1, |sendBufs|);
    assert sendBufs[..|sendBufs|] == sendBufs;
    StartBound(sendBufs, |sendBufs|);
    assert recBuf[..|Flatten(sendBufs)|] == recBuf;
  }

  // ---- gathering binary buffers -----------------------------------------------------------------

  /** The root's buffer after gather(buf, root): enlarged to the total size, its own bytes still
      at the front, the other blocks at their displacements. What lies behind its own bytes
      before is left from earlier use. */
  ghost function GatheredOnRoot<T>(blocks: seq<seq<T>>, root: nat, tail: seq<T>): (r: seq<T>)
    requires root < |blocks| && |blocks[root]| + |tail| == |Flatten(blocks)|
  {
    StartsInBounds(blocks[root] + tail, blocks);
    Placed(blocks[root] + tail, blocks, Starts(blocks), root, |blocks|)
  }

  /** Nothing is written where the block that stays in place belongs. */
  lemma {:induction false} PlacedKeeps<T>(buf: seq<T>, blocks: seq<seq<T>>, inPlace: nat, n: nat)
    requires |buf| == |Flatten(blocks)| && InBounds(buf, blocks, Starts(blocks)) && n <= |blocks| && inPlace < |blocks|
    requires var d := Start(blocks, inPlace); d + |blocks[inPlace]| <= |buf|
    ensures var d := Start(blocks, inPlace); var e := d + |blocks[inPlace]|;
            Placed(buf, blocks, Starts(blocks), inPlace, n)[d..e] == buf[d..e]
  {
    hide Flatten, WriteAt, InBounds, Start;
    if n > 0 {
      var k := n - 1;
      PlacedKeeps(buf, blocks, inPlace, k);
      if k != inPlace {
        Disjoint(blocks, k, inPlace);
        FlattenSlice(blocks, k);
        WriteElsewhere(Placed(buf, blocks, Starts(blocks), inPlace, k), Start(blocks, k), blocks[k],
          Start(blocks, inPlace), |blocks[inPlace]|);
      }
    }
  }

  lemma WriteElsewhere<T>(r: seq<T>, at: nat, block: seq<T>, d: nat, len: nat)
    requires at + |block| <= |r| && d + len <= |r| && (at + |block| <= d || d + len <= at)
    ensures WriteAt(r, at, block)[d..d + len] == r[d..d + len]
  {}

  lemma Disjoint<T>(blocks: seq<seq<T>>, a: nat, b: nat)
    requires a < |blocks| && b < |blocks| && a != b
    ensures Start(blocks, a) + |blocks[a]| <= Start(blocks, b) || Start(blocks, b) + |blocks[b]| <= Start(blocks, a)
  {
    FlattenSlice(blocks, a);
    FlattenSlice(blocks, b);
    if a < b { StartGrows(blocks, a + 1, b); } else { StartGrows(blocks, b + 1, a); }
  }

  /** Every element of a concatenation belongs to one of the lists. */
  lemma {:induction false} InSomeSegment<T>(blocks: seq<seq<T>>, x: nat) returns (p: nat)
    requires x < |Flatten(blocks)|
    ensures p < |blocks| && Start(blocks, p) <= x < Start(blocks, p) + |blocks[p]|
  {
    var n := |blocks| - 1;
    FlattenSlice(blocks, n);
    if x < |Flatten(blocks[..n])| {
      p := InSomeSegment(blocks[..n], x);
      assert blocks[..n][..p] == blocks[..p];
    } else {
      p := n;
    }
  }

  lemma {:induction false} StartGrows<T>(blocks: seq<seq<T>>, a: nat, b: nat)
    requires a <= b <= |blocks|
    ensures Start(blocks, a) <= Start(blocks, b)
  {
    if a < b {
      StartGrows(blocks, a, b - 1);
      FlattenSlice(blocks, b - 1);
    }
  }

  /** In place is right when nothing precedes the root: gathering on rank 0 always delivers the
      concatenation. */
  lemma GatherOnFirst<T>(blocks: seq<seq<T>>, root: nat, tail: seq<T>)
    requires root < |blocks| && |blocks[root]| + |tail| == |Flatten(blocks)|
    requires Start(blocks, root) == 0 || |blocks[root]| == 0
    ensures GatheredOnRoot(blocks, root, tail) == Flatten(blocks)
  {
    var buf := blocks[root] + tail;
    StartsInBounds(buf, blocks);
    FlattenSlice(blocks, root);
    PlacedIsFlatten(buf, blocks, root, |blocks|);
    StartBound(blocks, |blocks|);
    assert blocks[..|blocks|] == blocks;
    assert GatheredOnRoot(blocks, root, tail)[..|buf|] == GatheredOnRoot(blocks, root, tail);
  }

  /** In general the result is the concatenation exactly if the root's buffer, before the
      gather, already holds the root's block at its displacement. */
  lemma GatherIffInPlace<T>(blocks: seq<seq<T>>, root: nat, tail: seq<T>)
    requires root < |blocks| && |blocks[root]| + |tail| == |Flatten(blocks)|
    ensures var d := Start(blocks, root); var buf := blocks[root] + tail;
            d + |blocks[root]| <= |buf|
            && (GatheredOnRoot(blocks, root, tail) == Flatten(blocks) <==> buf[d..d + |blocks[root]|] == blocks[root])
  {
    hide Flatten, WriteAt, InBounds, Placed;
    var buf := blocks[root] + tail;
    StartsInBounds(buf, blocks);
    FlattenSlice(blocks, root);
    PlacedKeeps(buf, blocks, root, |blocks|);
    var d := Start(blocks, root);
    if buf[d..d + |blocks[root]|] == blocks[root] {
      PlacedIsFlatten(buf, blocks, root, |blocks|);
      StartBound(blocks, |blocks|);
      assert blocks[..|blocks|] == blocks;
      assert GatheredOnRoot(blocks, root, tail)[..|buf|] == GatheredOnRoot(blocks, root, tail);
    }
  }

  /** A root behind a non-empty block goes wrong: two bytes are enough. */
  lemma GatherOnSecondFails()
    ensures GatheredOnRoot([[7], [9]], 1, [0]) == [7, 0]
    ensures Flatten([[7], [9]]) == [7, 9]
  {
    var blocks: seq<seq<int>> := [[7], [9]];
    FlattenSlice(blocks, 0);
    FlattenSlice(blocks, 1);
    assert blocks[..1] == [[7]] && Start(blocks, 1) == 1 && Start(blocks, 0) == 0;
    assert [9] + [0] == [9, 0];
    StartsInBounds([9, 0], blocks);
    assert Placed([9, 0], blocks, Starts(blocks), 1, 1) == WriteAt([9, 0], 0, [7]) == [7, 0];
  }

  /** gather and broadcast decide by the world rank who is the root, the library by the rank in
      the communicator: on each of its processes both agree exactly if process root has rank
      root, that is if all processes up to root belong to the communicator. */
  lemma RootBranchIff(members: seq<nat>, n: nat, root: nat)
    requires MembersOk(members, n) && root < |members|
    ensures (forall i :: 0 <= i < |members| ==> (members[i] == root <==> i == root)) <==>
              forall k :: 0 <= k <= root ==> members[k] == k
  {
    if forall i :: 0 <= i < |members| ==> (members[i] == root <==> i == root) {
      forall k | 0 <= k <= root ensures members[k] == k {
        assert members[root] == root;
        RankAtLeast(members, k);
        RankAtMost(members[..root + 1], root + 1, k);
      }
    }
    if forall k :: 0 <= k <= root ==> members[k] == k {
      assert members[root] == root;
      forall i | 0 <= i < |members| ensures members[i] == root <==> i == root {
        if i < root { assert members[i] < members[root]; } else if root < i { assert members[root] < members[i]; }
      }
    }
  }

  /** gather(buf, root) on a communicator: what the process with rank root ends up with. It has a
      buffer to receive into only if it took the root's branch, which it does by its world rank. */
  datatype Gathering<T> = Gathered(buf: seq<T>) | NoReceiveBuffer | NoSuchRoot

  ghost function GatherOnGroup<T>(members: seq<nat>, blocks: seq<seq<T>>, root: nat, tail: seq<T>): Gathering<T>
    requires |members| == |blocks| && (root < |blocks| ==> |blocks[root]| + |tail| == |Flatten(blocks)|)
  {
    if root >= |members| then NoSuchRoot
    else if members[root] != root then NoReceiveBuffer
    else Gathered(GatheredOnRoot(blocks, root, tail))
  }

  /** A gather delivers the concatenation exactly if the root is a rank, all processes up to the
      root belong to the communicator, and the root's buffer already holds its block at its
      displacement. */
  lemma GatherDeliversIff<T>(members: seq<nat>, n: nat, blocks: seq<seq<T>>, root: nat, tail: seq<T>)
    requires MembersOk(members, n) && |members| == |blocks|
    requires root < |blocks| ==> |blocks[root]| + |tail| == |Flatten(blocks)|
    ensures GatherOnGroup(members, blocks, root, tail) == Gathered(Flatten(blocks)) <==>
              (root < |members| && (forall k :: 0 <= k <= root ==> members[k] == k) && InPlace(blocks, root, tail))
  {
    hide Flatten, GatheredOnRoot;
    if root < |members| {
      RootBranchIff(members, n, root);
      GatherIffInPlace(blocks, root, tail);
    }
  }

  ghost predicate InPlace<T>(blocks: seq<seq<T>>, root: nat, tail: seq<T>)
    requires root < |blocks|
  {
    var buf, d, len := blocks[root] + tail, Start(blocks, root), |blocks[root]|;
    d + len <= |buf| && buf[d..d + len] == blocks[root]
  }

  /** allgather(buf): a gather on rank 0 and a broadcast from there. The broadcast takes size and
      contents from the process with rank 0, whichever branch it is in. */
  ghost function AllGathered<T>(members: seq<nat>, blocks: seq<seq<T>>, tail: seq<T>): Gathering<T>
    requires |members| == |blocks| > 0 && |blocks[0]| + |tail| == |Flatten(blocks)|
  { GatherOnGroup(members, blocks, 0, tail) }

  /** Every process ends up with the concatenation exactly if process 0 belongs to the communicator. */
  lemma AllGatheredIff<T>(members: seq<nat>, n: nat, blocks: seq<seq<T>>, tail: seq<T>)
    requires MembersOk(members, n) && |members| == |blocks| > 0 && |blocks[0]| + |tail| == |Flatten(blocks)|
    ensures AllGathered(members, blocks, tail) == Gathered(Flatten(blocks)) <==> 0 in members
  {
    hide Flatten, GatheredOnRoot, Placed;
    assert Start(blocks, 0) == 0 by { NothingBefore(blocks); }
    GatherOnFirst(blocks, 0, tail);
    assert members[0] == 0 <==> 0 in members;
  }

  lemma NothingBefore<T>(blocks: seq<seq<T>>)
    ensures Start(blocks, 0) == 0
  {}

  /** World ranks 1 and 2, root 0: no process takes the root's branch. */
  lemma NobodyIsRoot(blocks: seq<seq<int>>, tail: seq<int>)
    requires |blocks| == 2 && |blocks[0]| + |tail| == |Flatten(blocks)|
    ensures forall i :: 0 <= i < 2 ==> [1, 2][i] != 0
    ensures GatherOnGroup([1, 2], blocks, 0, tail) == NoReceiveBuffer
  {}
}
