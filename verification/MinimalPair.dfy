/** MinimalKeyValuePairAcrossAllProcs: gather on process 0, search, broadcast. */
module MinimalPair {
  import opened ByteCodes
  import opened Options
  import opened Gathers
  import opened StableSort

  /** How a key and its value are written to and read from a buffer. */
  datatype Codec<!T> = Codec(enc: T -> seq<byte>, dec: seq<byte> -> Option<(T, seq<byte>)>)

  /** A pair is read back as written, and nothing behind it. */
  ghost predicate Faithful<T(!new)>(c: Codec<T>) {
    forall x, rest :: c.dec(c.enc(x) + rest) == Some((x, rest))
  }

  function Encoded<K, V>(c: Codec<(K, V)>, pairs: seq<(K, V)>): (r: seq<seq<byte>>)
    ensures |r| == |pairs| && forall i :: 0 <= i < |r| ==> r[i] == c.enc(pairs[i])
  { seq(|pairs|, i requires 0 <= i < |pairs| => c.enc(pairs[i])) }

  /** The pair of the lowest rank that holds a minimal key. */
  ghost predicate IsFirstMinimum<K, V>(less: (K, K) -> bool, pairs: seq<(K, V)>, m: nat) {
    && m < |pairs|
    && (forall j :: 0 <= j < |pairs| ==> !less(pairs[j].0, pairs[m].0))
    && (forall j :: 0 <= j < m ==> less(pairs[m].0, pairs[j].0))
  }

  /** There is only one such rank. */
  lemma FirstMinimumUnique<K(!new), V>(less: (K, K) -> bool, pairs: seq<(K, V)>, m: nat, m': nat)
    requires IsFirstMinimum(less, pairs, m) && IsFirstMinimum(less, pairs, m')
    ensures m == m'
  {
    var up, down := less(pairs[m].0, pairs[m'].0), less(pairs[m'].0, pairs[m].0);
  }

  lemma {:induction false} FlattenFront<T>(lists: seq<seq<T>>)
    requires |lists| > 0
    ensures Flatten(lists) == lists[0] + Flatten(lists[1..])
  {
    var n := |lists| - 1;
    if n > 0 {
      FlattenFront(lists[..n]);
      assert lists[..n][1..] == lists[1..][..n - 1];
      assert lists[..n][0] == lists[0];
    } else {
      assert lists[..0] == [] && lists[1..] == [];
    }
  }

  /** One more candidate: it replaces the best so far only if its key is strictly less. */
  lemma MinimumStep<K(!new), V>(less: (K, K) -> bool, pairs: seq<(K, V)>, n: nat, m: nat)
    requires StrictWeakOrder(less) && n < |pairs| && IsFirstMinimum(less, pairs[..n], m)
    ensures IsFirstMinimum(less, pairs[..n + 1], if less(pairs[n].0, pairs[m].0) then n else m)
  {
    if less(pairs[n].0, pairs[m].0) {
      forall j | 0 <= j < n ensures less(pairs[n].0, pairs[j].0) {
        assert !less(pairs[..n][j].0, pairs[..n][m].0);
        LessThanNotLess(less, pairs[n].0, pairs[j].0, pairs[m].0);
      }
    }
  }

  /** The best of the first i pairs, the own one included from the start. */
  ghost predicate BestSoFar<K, V>(less: (K, K) -> bool, pairs: seq<(K, V)>, i: nat, m: nat)
    requires i <= |pairs| && |pairs| > 0
  { m < |pairs| && IsFirstMinimum(less, pairs[..if i == 0 then 1 else i], m) }

  lemma BestStarts<K(!new), V>(less: (K, K) -> bool, pairs: seq<(K, V)>)
    requires StrictWeakOrder(less) && |pairs| > 0
    ensures BestSoFar(less, pairs, 0, 0)
  { OwnIsFirst(less, pairs); }

  lemma BestStep<K(!new), V>(less: (K, K) -> bool, pairs: seq<(K, V)>, i: nat, m: nat)
    requires StrictWeakOrder(less) && i < |pairs| && BestSoFar(less, pairs, i, m)
    ensures BestSoFar(less, pairs, i + 1, if less(pairs[i].0, pairs[m].0) then i else m)
  { if i > 0 { MinimumStep(less, pairs, i, m); } }

  lemma BestEnds<K(!new), V>(less: (K, K) -> bool, pairs: seq<(K, V)>, m: nat)
    requires |pairs| > 0 && BestSoFar(less, pairs, |pairs|, m)
    ensures IsFirstMinimum(less, pairs, m)
  { assert pairs[..|pairs|] == pairs; }

  lemma LessThanNotLess<K(!new)>(less: (K, K) -> bool, x: K, y: K, z: K)
    requires StrictWeakOrder(less) && less(x, z) && !less(y, z)
    ensures less(x, y)
  {}

  /** The search on process 0, which starts with its own pair and reads all of them. */
  method FindMinimum<K(!new), V(!new)>(c: Codec<(K, V)>, less: (K, K) -> bool, gathered: seq<byte>, nProc: nat,
                                       own: (K, V),
                                       ghost pairs: seq<(K, V)>)
    returns (best: (K, V))
    requires Faithful(c) && StrictWeakOrder(less) && nProc == |pairs| > 0 && own == pairs[0]
    requires gathered == Flatten(Encoded(c, pairs))
    ensures exists m: nat :: IsFirstMinimum(less, pairs, m) && best == pairs[m]
  {
    hide StrictWeakOrder, Flatten, IsFirstMinimum, BestSoFar;
    var minimum, buf := own, gathered;
    ghost var m := 0;
    var i := 0;
    assert pairs[0..] == pairs;
    BestStarts(less, pairs);
    while i < nProc
      invariant 0 <= i <= nProc && m < |pairs| && minimum == pairs[m]
      invariant buf == Flatten(Encoded(c, pairs[i..]))
      invariant BestSoFar(less, pairs, i, m)
    {
      FlattenFront(Encoded(c, pairs[i..]));
      assert Encoded(c, pairs[i..])[1..] == Encoded(c, pairs[i + 1..]);
      var next := c.dec(buf);
      assert next == c.dec(c.enc(pairs[i]) + Flatten(Encoded(c, pairs[i + 1..])));
      buf := next.value.1;
      BestStep(less, pairs, i, m);
      if less(next.value.0.0, minimum.0) { minimum, m := next.value.0, i; }
      i := i + 1;
    }
    BestEnds(less, pairs, m);
    best := minimum;
  }

  lemma OwnIsFirst<K(!new), V>(less: (K, K) -> bool, pairs: seq<(K, V)>)
    requires StrictWeakOrder(less) && |pairs| > 0
    ensures IsFirstMinimum(less, pairs[..1], 0)
  {}

  /** The whole exchange, as every process sees it: rank me contributes pairs[me], and every
      rank ends up with the pair of the lowest rank with a minimal key. Nothing is exchanged
      when there is only one process. */
  method MinimalKeyValuePairAcrossAllProcs<K(!new), V(!new)>(c: Codec<(K, V)>, less: (K, K) -> bool,
                                                             pairs: seq<(K, V)>, me: nat,
                                                             ghost tail: seq<byte>)
    returns (r: (K, V))
    requires Faithful(c) && StrictWeakOrder(less) && me < |pairs|
    requires |Encoded(c, pairs)[0]| + |tail| == |Flatten(Encoded(c, pairs))|
    ensures exists m: nat :: IsFirstMinimum(less, pairs, m) && r == pairs[m]
    ensures GatheredOnRoot(Encoded(c, pairs), 0, tail) == Flatten(Encoded(c, pairs))
  {
    hide StrictWeakOrder, Flatten, IsFirstMinimum, GatheredOnRoot;
    StartOfFirst(Encoded(c, pairs));
    GatherOnFirst(Encoded(c, pairs), 0, tail);
    if |pairs| == 1 {
      OwnIsFirst(less, pairs);
      assert pairs[..1] == pairs;
      return pairs[me];
    }
    var best := FindMinimum(c, less, Flatten(Encoded(c, pairs)), |pairs|, pairs[0], pairs);
    var buf := c.enc(best);
    assert buf + [] == buf;
    assert c.dec(buf + []) == Some((best, []));
    r := c.dec(buf).value.0;
  }

  lemma StartOfFirst<T>(blocks: seq<seq<T>>)
    ensures Start(blocks, 0) == 0
  {}
}
