/** Phase 2 of allreduce: the in-place reduction over the flat buffers of one process. */
module AllreduceReduce {
  import opened AllreduceModel
  import opened AllreduceLocal

  /** Two blocks combined entry by entry. */
  function Combine<T>(op: (T, T) -> T, a: seq<T>, b: seq<T>): (r: seq<T>)
    ensures |r| == |a|
  { seq(|a|, k requires 0 <= k < |a| => if k < |b| then op(a[k], b[k]) else a[k]) }

  function Lift<T>(op: (T, T) -> T): (seq<T>, seq<T>) -> seq<T> { (a, b) => Combine(op, a, b) }

  /** Entry k of a fold over blocks is the fold of the k-th entries. */
  lemma {:induction false} FoldEntry<T>(op: (T, T) -> T, init: seq<T>, rest: seq<seq<T>>, k: nat)
    requires k < |init| && forall i :: 0 <= i < |rest| ==> |rest[i]| == |init|
    ensures |Fold(Lift(op), init, rest)| == |init|
    ensures Fold(Lift(op), init, rest)[k] ==
            Fold(op, init[k], seq(|rest|, i requires 0 <= i < |rest| => rest[i][k]))
  {
    var n := |rest|;
    if n > 0 {
      FoldEntry(op, init, rest[..n - 1], k);
      var col := seq(n, i requires 0 <= i < n => rest[i][k]);
      assert col[..n - 1] == seq(n - 1, i requires 0 <= i < n - 1 => rest[..n - 1][i][k]);
    }
  }

  /** Block b of a flat buffer. */
  function BlockOf<T>(s: seq<T>, b: nat, count: nat): seq<T>
    requires (b + 1) * count <= |s|
  { BlockBounds(b, count); s[b * count..(b + 1) * count] }

  lemma BlockBounds(b: nat, count: nat)
    ensures 0 <= b * count <= (b + 1) * count && (b + 1) * count == b * count + count
  {}

  lemma BlockInside(b: nat, n: nat, count: nat)
    requires b < n
    ensures (b + 1) * count <= n * count
  {}

  /** The blocks first .. first+n-1. */
  function BlocksOf<T>(s: seq<T>, first: nat, n: nat, count: nat): (r: seq<seq<T>>)
    requires (first + n) * count <= |s|
    ensures |r| == n
  {
    seq(n, i requires 0 <= i < n => BlockInside(first + i, first + n, count); BlockOf(s, first + i, count))
  }

  lemma BlocksAt<T>(s: seq<T>, first: nat, n: nat, count: nat, i: nat)
    requires (first + n) * count <= |s| && i < n
    ensures (first + i + 1) * count <= |s| && BlocksOf(s, first, n, count)[i] == BlockOf(s, first + i, count)
  { BlockInside(first + i, first + n, count); }

  method CopyBlock<T>(src: array<T>, dst: array<T>, base: nat, count: nat)
    requires src != dst && base + count <= src.Length && base + count <= dst.Length
    modifies dst
    ensures dst[..] == old(dst[..base]) + src[base..base + count] + old(dst[base + count..])
  {
    for i := 0 to count
      invariant dst[..base] == old(dst[..base]) && dst[base + i..] == old(dst[base + i..])
      invariant dst[base..base + i] == src[base..base + i]
    {
      dst[base + i] := src[base + i];
    }
    assert dst[..] == dst[..base] + dst[base..base + count] + dst[base + count..];
  }

  /** The innermost loop: one received block is folded into the target block. */
  method CombineBlock<T>(op: (T, T) -> T, buf: array<T>, target: nat, vals: array<T>, src: nat, count: nat)
    requires buf != vals && target + count <= buf.Length && src + count <= vals.Length
    modifies buf
    ensures buf[..] == old(buf[..target]) + Combine(op, old(buf[target..target + count]), vals[src..src + count])
                       + old(buf[target + count..])
  {
    for i := 0 to count
      invariant forall k :: 0 <= k < target ==> buf[k] == old(buf[k])
      invariant forall k :: target + i <= k < buf.Length ==> buf[k] == old(buf[k])
      invariant forall k :: target <= k < target + i ==> buf[k] == op(old(buf[k]), vals[src + (k - target)])
    {
      buf[target + i] := op(buf[target + i], vals[src + i]);
    }
    assert buf[target..target + count] == Combine(op, old(buf[target..target + count]), vals[src..src + count]);
    assert buf[..] == buf[..target] + buf[target..target + count] + buf[target + count..];
  }

  /** What the reduction leaves in the block of membership i. */
  ghost function Wanted<T>(ix: Index, rank: nat, op: (T, T) -> T, sent: seq<T>, vals: seq<T>, i: nat,
                           count: nat): seq<T>
    requires ix.Valid() && i < |ix.memberships| && (i + 1) * count <= |sent|
    requires ix.Rooted(i, rank) ==> (ix.Handled(i, rank) + |ix.Group(i)| - 1) * count <= |vals|
    requires ix.Rooted(i, rank)
  {
    assert ix.Ok(i);
    Fold(Lift(op), BlockOf(sent, i, count), BlocksOf(vals, ix.Handled(i, rank), |ix.Group(i)| - 1, count))
  }

  /** The blocks of one group: own block first, then every received one in order. */
  method ReduceGroup<T>(op: (T, T) -> T, sendBuf: array<T>, recvBuf: array<T>, receivedVals: array<T>,
                        imem: nat, first: nat, n: nat, count: nat)
    requires recvBuf != sendBuf && recvBuf != receivedVals
    requires (imem + 1) * count <= sendBuf.Length && (imem + 1) * count <= recvBuf.Length
    requires (first + n) * count <= receivedVals.Length
    modifies recvBuf
    ensures imem * count <= (imem + 1) * count
    ensures recvBuf[..] == old(recvBuf[..imem * count])
              + Fold(Lift(op), BlockOf(sendBuf[..], imem, count), BlocksOf(receivedVals[..], first, n, count))
              + old(recvBuf[(imem + 1) * count..])
    ensures exists acc :: Accumulates(Lift(op), BlockOf(sendBuf[..], imem, count),
                                      BlocksOf(receivedVals[..], first, n, count), acc)
                          && recvBuf[imem * count..(imem + 1) * count] == acc[n]
  {
    hide BlocksOf, Combine;
    BlockBounds(imem, count);
    var targetBase := imem * count;
    ghost var head, tail := recvBuf[..targetBase], recvBuf[targetBase + count..];
    ghost var blocks := BlocksOf(receivedVals[..], first, n, count);
    ghost var own := BlockOf(sendBuf[..], imem, count);
    CopyBlock(sendBuf, recvBuf, targetBase, count);
    assert own == sendBuf[targetBase..targetBase + count] && blocks[..0] == [];
    ghost var acc := own;
    for iblock := 0 to n
      invariant acc == Fold(Lift(op), own, blocks[..iblock]) && |acc| == count
      invariant recvBuf[..] == head + acc + tail
    {
      BlockInside(first + iblock, first + n, count);
      BlockBounds(first + iblock, count);
      BlocksAt(receivedVals[..], first, n, count, iblock);
      Parts(recvBuf[..], head, acc, tail);
      CombineBlock(op, recvBuf, targetBase, receivedVals, (first + iblock) * count, count);
      FoldStep(op, own, blocks, iblock);
      assert blocks[iblock] == receivedVals[(first + iblock) * count..(first + iblock) * count + count];
      acc := Combine(op, acc, blocks[iblock]);
    }
    assert blocks[..n] == blocks;
    var partial := FoldAccumulates(Lift(op), own, blocks);
    Parts(recvBuf[..], head, acc, tail);
  }

  lemma Parts<T>(s: seq<T>, a: seq<T>, b: seq<T>, c: seq<T>)
    requires s == a + b + c
    ensures s[..|a|] == a && s[|a|..|a| + |b|] == b && s[|a| + |b|..] == c
  {}

  lemma FoldStep<T>(op: (T, T) -> T, own: seq<T>, blocks: seq<seq<T>>, i: nat)
    requires i < |blocks|
    ensures Fold(Lift(op), own, blocks[..i + 1]) == Combine(op, Fold(Lift(op), own, blocks[..i]), blocks[i])
  { assert blocks[..i + 1][..i] == blocks[..i]; }

  /** The received blocks of the memberships before i precede those of i. */
  lemma {:induction false} HandledMonotone(ix: Index, rank: nat, i: nat, j: nat)
    requires ix.Valid() && i <= j <= |ix.memberships|
    ensures ix.Handled(i, rank) <= ix.Handled(j, rank)
    ensures i < j && ix.Rooted(i, rank) ==> ix.Handled(i, rank) + |ix.Group(i)| - 1 <= ix.Handled(j, rank)
  {
    if i < j {
      HandledMonotone(ix, rank, i, j - 1);
      assert ix.Ok(j - 1);
    }
  }

  /** Receives for different members or groups never share a block of receivedVals. */
  lemma ReceiveBlocksDistinct(ix: Index, rank: nat, i: nat, pos: nat, j: nat, pos': nat)
    requires ix.Valid() && i < |ix.memberships| && j < |ix.memberships|
    requires ix.Rooted(i, rank) && ix.Rooted(j, rank)
    requires 0 < pos < |ix.Group(i)| && 0 < pos' < |ix.Group(j)|
    ensures ix.Handled(i, rank) + pos - 1 < ix.Handled(|ix.memberships|, rank)
    ensures ix.Handled(i, rank) + pos - 1 == ix.Handled(j, rank) + pos' - 1 ==> i == j && pos == pos'
  {
    hide ix.Handled, ix.Rooted;
    HandledMonotone(ix, rank, i, |ix.memberships|);
    if i < j {
      HandledMonotone(ix, rank, i, j);
    } else if j < i {
      HandledMonotone(ix, rank, j, i);
    }
  }

  ghost predicate BuffersFit<T>(ix: Index, rank: nat, sent: seq<T>, vals: seq<T>, buf: seq<T>, count: nat)
    requires ix.Valid()
  {
    && |sent| == |buf| == |ix.memberships| * count
    && |vals| == ix.Handled(|ix.memberships|, rank) * count
  }

  /** Memberships before k are reduced if rooted here and untouched otherwise. */
  ghost predicate ReducedUpTo<T>(ix: Index, rank: nat, op: (T, T) -> T, sent: seq<T>, vals: seq<T>,
                                 buf0: seq<T>, buf: seq<T>, count: nat, k: nat)
    requires ix.Valid() && k <= |ix.memberships|
  {
    && BuffersFit(ix, rank, sent, vals, buf, count) && |buf0| == |buf|
    && (forall i :: 0 <= i < k ==> GroupReduced(ix, rank, op, sent, vals, buf0, buf, count, i))
    && k * count <= |buf| && buf[k * count..] == buf0[k * count..]
  }

  ghost predicate GroupReduced<T>(ix: Index, rank: nat, op: (T, T) -> T, sent: seq<T>, vals: seq<T>,
                                  buf0: seq<T>, buf: seq<T>, count: nat, i: nat)
    requires ix.Valid() && i < |ix.memberships|
  {
    && (i + 1) * count <= |sent| && (i + 1) * count <= |buf| && |buf| == |buf0|
    && if ix.Rooted(i, rank) then
         && (ix.Handled(i, rank) + |ix.Group(i)| - 1) * count <= |vals|
         && BlockOf(buf, i, count) == Wanted(ix, rank, op, sent, vals, i, count)
       else BlockOf(buf, i, count) == BlockOf(buf0, i, count)
  }

  /** The block of a rooted membership is the last of the results that accumulate from the own block
      and the received ones, in their order. */
  ghost predicate BlockAccumulates<T(!new)>(ix: Index, rank: nat, op: (T, T) -> T, sent: seq<T>, vals: seq<T>,
                                            buf: seq<T>, count: nat, i: nat)
    requires ix.Valid() && i < |ix.memberships|
  {
    var n := |ix.Group(i)| - 1;
    assert ix.Ok(i);
    && (i + 1) * count <= |sent| && (i + 1) * count <= |buf| && (ix.Handled(i, rank) + n) * count <= |vals|
    && exists acc :: Accumulates(Lift(op), BlockOf(sent, i, count), BlocksOf(vals, ix.Handled(i, rank), n, count), acc)
                     && BlockOf(buf, i, count) == acc[n]
  }

  lemma ReducedAccumulates<T(!new)>(ix: Index, rank: nat, op: (T, T) -> T, sent: seq<T>, vals: seq<T>, buf0: seq<T>,
                              buf: seq<T>, count: nat, i: nat)
    requires ix.Valid() && i < |ix.memberships| && ix.Rooted(i, rank)
    requires GroupReduced(ix, rank, op, sent, vals, buf0, buf, count, i)
    ensures BlockAccumulates(ix, rank, op, sent, vals, buf, count, i)
  {
    hide Fold, BlockOf, Index.Handled;
    assert ix.Ok(i);
    var blocks := BlocksOf(vals, ix.Handled(i, rank), |ix.Group(i)| - 1, count);
    var acc := FoldAccumulates(Lift(op), BlockOf(sent, i, count), blocks);
  }

  /** Phase 2: for every group rooted here the block of recvBuf becomes the left fold of the own
      block and the received ones; the blocks of all other groups keep their contents. */
  method ReduceLocal<T(!new)>(op: (T, T) -> T, ix: Index, rank: nat, sendBuf: array<T>, recvBuf: array<T>,
                        receivedVals: array<T>, count: nat)
    requires ix.Valid() && recvBuf != sendBuf && recvBuf != receivedVals
    requires BuffersFit(ix, rank, sendBuf[..], receivedVals[..], recvBuf[..], count)
    modifies recvBuf
    ensures forall i :: 0 <= i < |ix.memberships| ==>
              GroupReduced(ix, rank, op, sendBuf[..], receivedVals[..], old(recvBuf[..]), recvBuf[..], count, i)
    ensures forall i :: 0 <= i < |ix.memberships| && ix.Rooted(i, rank) ==>
              BlockAccumulates(ix, rank, op, sendBuf[..], receivedVals[..], recvBuf[..], count, i)
  {
    hide GroupReduced, ix.Group, Fold;
    ghost var sent, vals, buf0 := sendBuf[..], receivedVals[..], recvBuf[..];
    var recvHandled := 0;
    for imem := 0 to |ix.memberships|
      invariant recvHandled == ix.Handled(imem, rank)
      invariant ReducedUpTo(ix, rank, op, sent, vals, buf0, recvBuf[..], count, imem)
    {
      GroupSize(ix, imem, rank);
      var o := ix.offsets[imem];
      var s := ix.offsets[imem + 1] - o;
      RoomForGroup(ix, rank, imem, count);
      ghost var before := recvBuf[..];
      if ix.members[o] == rank {
        ReduceGroup(op, sendBuf, recvBuf, receivedVals, imem, recvHandled, s - 1, count);
        recvHandled := recvHandled + (s - 1);
        RootedAdvances(ix, rank, op, sent, vals, buf0, before, recvBuf[..], count, imem);
      } else {
        UnrootedAdvances(ix, rank, op, sent, vals, buf0, before, count, imem);
      }
    }
    forall i | 0 <= i < |ix.memberships| && ix.Rooted(i, rank)
      ensures BlockAccumulates(ix, rank, op, sent, vals, recvBuf[..], count, i)
    { ReducedAccumulates(ix, rank, op, sent, vals, buf0, recvBuf[..], count, i); }
  }

  lemma GroupSize(ix: Index, imem: nat, rank: nat)
    requires ix.Valid() && imem < |ix.memberships|
    ensures ix.offsets[imem] < ix.offsets[imem + 1] <= |ix.members|
    ensures |ix.Group(imem)| == ix.offsets[imem + 1] - ix.offsets[imem]
    ensures ix.Rooted(imem, rank) <==> ix.members[ix.offsets[imem]] == rank
  { assert ix.Ok(imem); }

  lemma RoomForGroup(ix: Index, rank: nat, imem: nat, count: nat)
    requires ix.Valid() && imem < |ix.memberships|
    ensures (imem + 1) * count <= |ix.memberships| * count
    ensures ix.Rooted(imem, rank) ==>
              (ix.Handled(imem, rank) + |ix.Group(imem)| - 1) * count <= ix.Handled(|ix.memberships|, rank) * count
  {
    hide ix.Handled;
    BlockInside(imem, |ix.memberships|, count);
    HandledMonotone(ix, rank, imem, |ix.memberships|);
    assert ix.Ok(imem);
    if ix.Rooted(imem, rank) {
      Product(ix.Handled(imem, rank) + |ix.Group(imem)| - 1, ix.Handled(|ix.memberships|, rank), count);
    }
  }

  lemma Product(a: nat, b: nat, c: nat)
    requires a <= b
    ensures a * c <= b * c
  {}

  lemma RootedAdvances<T>(ix: Index, rank: nat, op: (T, T) -> T, sent: seq<T>, vals: seq<T>, buf0: seq<T>,
                          before: seq<T>, after: seq<T>, count: nat, k: nat)
    requires ix.Valid() && k < |ix.memberships| && ix.Rooted(k, rank)
    requires ReducedUpTo(ix, rank, op, sent, vals, buf0, before, count, k)
    requires (k + 1) * count <= |sent| && (ix.Handled(k, rank) + |ix.Group(k)| - 1) * count <= |vals|
    requires k * count <= (k + 1) * count <= |before|
    requires after == before[..k * count] + Wanted(ix, rank, op, sent, vals, k, count) + before[(k + 1) * count..]
    requires |after| == |before|
    ensures ReducedUpTo(ix, rank, op, sent, vals, buf0, after, count, k + 1)
  {
    hide Wanted, ix.Handled, ix.Group, ix.Rooted;
    BlockBounds(k, count);
    forall i | 0 <= i < k ensures GroupReduced(ix, rank, op, sent, vals, buf0, after, count, i) {
      BlockInside(i, k, count);
      BlockBounds(i, count);
      assert GroupReduced(ix, rank, op, sent, vals, buf0, before, count, i);
      assert BlockOf(after, i, count) == BlockOf(before, i, count);
    }
    assert BlockOf(after, k, count) == Wanted(ix, rank, op, sent, vals, k, count);
    assert after[(k + 1) * count..] == before[k * count..][count..] == buf0[(k + 1) * count..];
  }

  lemma UnrootedAdvances<T>(ix: Index, rank: nat, op: (T, T) -> T, sent: seq<T>, vals: seq<T>, buf0: seq<T>,
                            buf: seq<T>, count: nat, k: nat)
    requires ix.Valid() && k < |ix.memberships| && !ix.Rooted(k, rank)
    requires ReducedUpTo(ix, rank, op, sent, vals, buf0, buf, count, k)
    requires (k + 1) * count <= |buf|
    ensures ReducedUpTo(ix, rank, op, sent, vals, buf0, buf, count, k + 1)
  {
    hide Wanted, ix.Handled, ix.Group, ix.Rooted;
    BlockBounds(k, count);
    assert BlockOf(buf, k, count) == buf[k * count..][..count] == BlockOf(buf0, k, count);
    assert buf[(k + 1) * count..] == buf[k * count..][count..];
    assert buf0[(k + 1) * count..] == buf0[k * count..][count..];
  }
}
