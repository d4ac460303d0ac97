/** Normal values: what a round trip yields, and exactly which values survive one unchanged. */
module SerializationNormal {
  import opened ByteCodes
  import opened StableSort
  import opened Serialization

  ghost predicate Rising(lt: (Value, Value) -> bool, isMap: bool, xs: seq<Value>) {
    forall i, j :: 0 <= i < j < |xs| ==> lt(Key(xs[i], isMap), Key(xs[j], isMap))
  }

  /** No zero byte in a string, no C string, no pointer but null; sets and maps in order. */
  ghost predicate Plain(lt: (Value, Value) -> bool, v: Value) {
    match v
    case Raw(_) => true
    case Str(s) => 0 !in s
    case Var(x) => !x.CString? && (x.StdString? ==> 0 !in x.s) && (x.Pointer? ==> x.address == 0)
    case Pair(x, y) => Plain(lt, x) && Plain(lt, y)
    case Vector(xs) => forall i :: 0 <= i < |xs| ==> Plain(lt, xs[i])
    case Set(xs) => Rising(lt, false, xs) && forall i :: 0 <= i < |xs| ==> Plain(lt, xs[i])
    case Map(xs) => Rising(lt, true, xs) && forall i :: 0 <= i < |xs| ==> Plain(lt, xs[i])
  }

  // ---- sets and maps ----------------------------------------------------------------------------

  /** An entry comes from the list, or joins the key and the value of two of its pairs. */
  ghost predicate From(xs: seq<Value>, r: Value) {
    || r in xs
    || (r.Pair? && exists i, j :: 0 <= i < |xs| && 0 <= j < |xs| && xs[i].Pair? && xs[j].Pair?
                                  && xs[i].first == r.first && xs[j].second == r.second)
  }

  lemma FromLonger(xs: seq<Value>, r: Value, e: Value)
    requires From(xs, r)
    ensures From(xs + [e], r)
  {
    var ys := xs + [e];
    if r !in xs {
      var i, j :| 0 <= i < |xs| && 0 <= j < |xs| && xs[i].Pair? && xs[j].Pair?
        && xs[i].first == r.first && xs[j].second == r.second;
      assert ys[i].first == r.first && ys[j].second == r.second;
    }
  }

  lemma FromJoined(xs: seq<Value>, a: Value, e: Value)
    requires From(xs, a) && a.Pair? && e.Pair?
    ensures From(xs + [e], Pair(a.first, e.second))
  {
    var ys := xs + [e];
    assert ys[|xs|] == e;
    if a in xs {
      var i :| 0 <= i < |xs| && xs[i] == a;
      assert ys[i].first == a.first;
    } else {
      var i, j :| 0 <= i < |xs| && 0 <= j < |xs| && xs[i].Pair? && xs[j].Pair?
        && xs[i].first == a.first && xs[j].second == a.second;
      assert ys[i].first == a.first;
    }
  }

  lemma {:induction false} PutFrom(lt: (Value, Value) -> bool, isMap: bool, all: seq<Value>, xs: seq<Value>, e: Value)
    requires forall k :: 0 <= k < |xs| ==> From(all, xs[k])
    ensures forall k :: 0 <= k < |Put(lt, isMap, xs, e)| ==> From(all + [e], Put(lt, isMap, xs, e)[k])
  {
    hide From;
    NewEntry(all, e);
    forall k | 0 <= k < |xs| ensures From(all + [e], xs[k]) { FromLonger(all, xs[k], e); }
    if |xs| > 0 {
      var n := |xs| - 1;
      PutFrom(lt, isMap, all, xs[..n], e);
      if xs[n].Pair? && e.Pair? { FromJoined(all, xs[n], e); }
    }
  }

  lemma NewEntry(all: seq<Value>, e: Value)
    ensures From(all + [e], e)
  { assert (all + [e])[|all|] == e; }

  lemma {:induction false} CollectFrom(lt: (Value, Value) -> bool, isMap: bool, xs: seq<Value>)
    ensures forall k :: 0 <= k < |Collect(lt, isMap, xs)| ==> From(xs, Collect(lt, isMap, xs)[k])
  {
    hide From, Put;
    if |xs| > 0 {
      var n := |xs| - 1;
      CollectFrom(lt, isMap, xs[..n]);
      PutFrom(lt, isMap, xs[..n], Collect(lt, isMap, xs[..n]), xs[n]);
      assert xs == xs[..n] + [xs[n]];
    }
  }

  ghost predicate KeysBelow(lt: (Value, Value) -> bool, isMap: bool, xs: seq<Value>, k: Value) {
    forall i :: 0 <= i < |xs| ==> lt(Key(xs[i], isMap), k)
  }

  lemma {:induction false} PutBelow(lt: (Value, Value) -> bool, isMap: bool, xs: seq<Value>, e: Value, k: Value)
    requires KeysBelow(lt, isMap, xs, k) && lt(Key(e, isMap), k)
    ensures KeysBelow(lt, isMap, Put(lt, isMap, xs, e), k)
  { if |xs| > 0 { PutBelow(lt, isMap, xs[..|xs| - 1], e, k); } }

  lemma {:induction false} PutRising(lt: (Value, Value) -> bool, isMap: bool, xs: seq<Value>, e: Value)
    requires StrictWeakOrder(lt) && Rising(lt, isMap, xs)
    ensures Rising(lt, isMap, Put(lt, isMap, xs, e))
  {
    if |xs| > 0 {
      var n := |xs| - 1;
      if lt(Key(xs[n], isMap), Key(e, isMap)) {
        TopIsAbove(lt, isMap, xs, e);
      } else if lt(Key(e, isMap), Key(xs[n], isMap)) {
        PutRising(lt, isMap, xs[..n], e);
        PutBelow(lt, isMap, xs[..n], e, Key(xs[n], isMap));
      }
    }
  }

  lemma TopIsAbove(lt: (Value, Value) -> bool, isMap: bool, xs: seq<Value>, e: Value)
    requires StrictWeakOrder(lt) && Rising(lt, isMap, xs) && |xs| > 0 && lt(Key(xs[|xs| - 1], isMap), Key(e, isMap))
    ensures Rising(lt, isMap, xs + [e])
  {
    var n := |xs| - 1;
    forall i | 0 <= i < n ensures lt(Key(xs[i], isMap), Key(e, isMap)) {
      assert lt(Key(xs[i], isMap), Key(xs[n], isMap));
    }
  }

  lemma {:induction false} CollectRising(lt: (Value, Value) -> bool, isMap: bool, xs: seq<Value>)
    requires StrictWeakOrder(lt)
    ensures Rising(lt, isMap, Collect(lt, isMap, xs))
  {
    hide Put, StrictWeakOrder;
    if |xs| > 0 {
      var n := |xs| - 1;
      CollectRising(lt, isMap, xs[..n]);
      PutRising(lt, isMap, Collect(lt, isMap, xs[..n]), xs[n]);
    }
  }

  /** Refilling an ordered set or map changes nothing. */
  lemma {:induction false} CollectSame(lt: (Value, Value) -> bool, isMap: bool, xs: seq<Value>)
    requires Rising(lt, isMap, xs)
    ensures Collect(lt, isMap, xs) == xs
  {
    if |xs| > 0 {
      var n := |xs| - 1;
      CollectSame(lt, isMap, xs[..n]);
      assert xs == xs[..n] + [xs[n]];
      if n > 0 { assert lt(Key(xs[n - 1], isMap), Key(xs[n], isMap)); }
    }
  }

  // ---- normal values ----------------------------------------------------------------------------

  lemma {:induction false} NormIsPlain(lt: (Value, Value) -> bool, v: Value)
    requires StrictWeakOrder(lt)
    ensures Plain(lt, Norm(lt, v))
    decreases v
  {
    hide Collect, From, StrictWeakOrder, Cut, Rising;
    match v {
      case Raw(_) =>
      case Str(s) => CutTwice(s);
      case Var(x) => VariantNorm(x);
      case Pair(x, y) => NormIsPlain(lt, x); NormIsPlain(lt, y);
      case Vector(xs) => NormAllPlain(lt, xs);
      case Set(xs) => CollectedPlain(lt, false, xs);
      case Map(xs) => CollectedPlain(lt, true, xs);
    }
  }

  lemma VariantNorm(v: Variant)
    ensures var x := NormVariant(v); !x.CString? && (x.StdString? ==> 0 !in x.s) && (x.Pointer? ==> x.address == 0)
  {}

  lemma {:induction false} NormAllPlain(lt: (Value, Value) -> bool, xs: seq<Value>)
    requires StrictWeakOrder(lt)
    ensures forall i :: 0 <= i < |xs| ==> Plain(lt, Norm(lt, xs[i]))
    ensures forall i :: 0 <= i < |xs| ==> Plain(lt, NormAll(lt, xs)[i])
    decreases xs, 0
  {
    hide StrictWeakOrder, Plain, Norm;
    forall i | 0 <= i < |xs| ensures Plain(lt, Norm(lt, xs[i])) { NormIsPlain(lt, xs[i]); }
  }

  lemma {:induction false} CollectedPlain(lt: (Value, Value) -> bool, isMap: bool, xs: seq<Value>)
    requires StrictWeakOrder(lt)
    ensures var r := Collect(lt, isMap, NormAll(lt, xs));
            Rising(lt, isMap, r) && forall i :: 0 <= i < |r| ==> Plain(lt, r[i])
    decreases xs, 1
  {
    hide StrictWeakOrder, Plain, Norm, NormAll, From, Collect;
    NormAllPlain(lt, xs);
    var ys := NormAll(lt, xs);
    CollectRising(lt, isMap, ys);
    CollectFrom(lt, isMap, ys);
    var r := Collect(lt, isMap, ys);
    forall i | 0 <= i < |r| ensures Plain(lt, r[i]) { FromPlain(lt, ys, r[i]); }
  }

  lemma FromPlain(lt: (Value, Value) -> bool, xs: seq<Value>, r: Value)
    requires From(xs, r) && forall i :: 0 <= i < |xs| ==> Plain(lt, xs[i])
    ensures Plain(lt, r)
  {
    if r !in xs {
      var i, j :| 0 <= i < |xs| && 0 <= j < |xs| && xs[i].Pair? && xs[j].Pair?
        && xs[i].first == r.first && xs[j].second == r.second;
    }
  }

  lemma {:induction false} PlainIsFixed(lt: (Value, Value) -> bool, v: Value)
    requires Plain(lt, v)
    ensures Norm(lt, v) == v
    decreases v
  {
    hide Collect, Cut, Rising;
    match v {
      case Raw(_) =>
      case Str(s) => CutTwice(s);
      case Var(x) => if x.StdString? { CutTwice(x.s); }
      case Pair(x, y) => PlainIsFixed(lt, x); PlainIsFixed(lt, y);
      case Vector(xs) => PlainAllFixed(lt, xs);
      case Set(xs) => PlainAllFixed(lt, xs); CollectSame(lt, false, xs);
      case Map(xs) => PlainAllFixed(lt, xs); CollectSame(lt, true, xs);
    }
  }

  lemma {:induction false} PlainAllFixed(lt: (Value, Value) -> bool, xs: seq<Value>)
    requires forall i :: 0 <= i < |xs| ==> Plain(lt, xs[i])
    ensures NormAll(lt, xs) == xs
    decreases xs, 0
  {
    hide Plain, Norm;
    forall i | 0 <= i < |xs| ensures Norm(lt, xs[i]) == xs[i] { PlainIsFixed(lt, xs[i]); }
  }

  /** A value survives a round trip unchanged exactly if it is plain; and every result of a
      round trip is. */
  lemma LosslessIff(lt: (Value, Value) -> bool, v: Value)
    requires StrictWeakOrder(lt)
    ensures Norm(lt, v) == v <==> Plain(lt, v)
    ensures Norm(lt, Norm(lt, v)) == Norm(lt, v)
  {
    hide Norm, Plain;
    NormIsPlain(lt, v);
    PlainIsFixed(lt, Norm(lt, v));
    if Plain(lt, v) { PlainIsFixed(lt, v); }
  }

  // ---- the second round trip ----------------------------------------------------------------------

  lemma {:induction false} NormTyped(lt: (Value, Value) -> bool, v: Value, ty: Ty)
    requires HasType(v, ty) && Storable(v)
    ensures HasType(Norm(lt, v), ty) && Storable(Norm(lt, v))
    decreases v
  {
    hide Collect, Cut, Range, From;
    match v {
      case Pair(x, y) => NormTyped(lt, x, ty.a); NormTyped(lt, y, ty.b);
      case Vector(xs) => NormAllTyped(lt, xs, ty.of); assert Norm(lt, v) == Vector(NormAll(lt, xs));
      case Set(xs) =>
        CollectedTyped(lt, false, xs, ty.of);
        assert Norm(lt, v) == Set(Collect(lt, false, NormAll(lt, xs)));
      case Map(xs) =>
        CollectedTyped(lt, true, xs, ty.of);
        assert Norm(lt, v) == Map(Collect(lt, true, NormAll(lt, xs)));
      case _ =>
    }
  }

  lemma {:induction false} NormAllTyped(lt: (Value, Value) -> bool, xs: seq<Value>, t: Ty)
    requires forall i :: 0 <= i < |xs| ==> HasType(xs[i], t) && Storable(xs[i])
    ensures forall i :: 0 <= i < |xs| ==> HasType(NormAll(lt, xs)[i], t) && Storable(NormAll(lt, xs)[i])
    decreases xs, 0
  {
    hide HasType, Storable, Norm;
    forall i | 0 <= i < |xs|
      ensures HasType(Norm(lt, xs[i]), t) && Storable(Norm(lt, xs[i]))
    {
      NormTyped(lt, xs[i], t);
    }
  }

  lemma {:induction false} CollectedTyped(lt: (Value, Value) -> bool, isMap: bool, xs: seq<Value>, t: Ty)
    requires forall i :: 0 <= i < |xs| ==> HasType(xs[i], t) && Storable(xs[i])
    ensures var r := Collect(lt, isMap, NormAll(lt, xs));
            |r| <= |xs| && forall i :: 0 <= i < |r| ==> HasType(r[i], t) && Storable(r[i])
    decreases xs, 1
  {
    hide HasType, Storable, From;
    NormAllTyped(lt, xs, t);
    var ys := NormAll(lt, xs);
    CollectFrom(lt, isMap, ys);
    var r := Collect(lt, isMap, ys);
    forall i | 0 <= i < |r| ensures HasType(r[i], t) && Storable(r[i]) { FromTyped(ys, t, r[i]); }
  }

  lemma FromTyped(xs: seq<Value>, t: Ty, r: Value)
    requires From(xs, r) && forall i :: 0 <= i < |xs| ==> HasType(xs[i], t) && Storable(xs[i])
    ensures HasType(r, t) && Storable(r)
  {
    if r !in xs {
      var i, j :| 0 <= i < |xs| && 0 <= j < |xs| && xs[i].Pair? && xs[j].Pair?
        && xs[i].first == r.first && xs[j].second == r.second;
      assert HasType(xs[i], t) && HasType(xs[j], t);
    }
  }

  /** What has been read once is written and read back without any further loss. */
  lemma SecondTripIsLossless(lt: (Value, Value) -> bool, ty: Ty, v: Value, rest: seq<byte>)
    requires StrictWeakOrder(lt) && HasType(v, ty) && Encode(v).ok
    ensures Decode(lt, ty, Encode(v).bytes + rest) == Done(Norm(lt, v), rest)
    ensures Encode(Norm(lt, v)).ok
    ensures Decode(lt, ty, Encode(Norm(lt, v)).bytes + rest) == Done(Norm(lt, v), rest)
  {
    hide Norm, HasType, Encode, Decode, Storable;
    EncodesIffStorable(v);
    RoundTrip(lt, ty, v, rest);
    NormTyped(lt, v, ty);
    EncodesIffStorable(Norm(lt, v));
    RoundTrip(lt, ty, Norm(lt, v), rest);
    LosslessIff(lt, v);
  }
}
