/** The binary format described on its bytes, and what a reader makes of them, apart from how the
    writers and readers go about it. */
module SerializationFormat {
  import opened ByteCodes
  import opened StableSort
  import opened Serialization
  import opened SerializationNormal

  // ---- the bytes ------------------------------------------------------------------------------------

  /** A number of so many bytes, the least significant first. */
  ghost predicate IsNumber(b: seq<byte>, n: nat, width: nat) { b == ToBytes(n, width) }

  /** The length in eight bytes, then the characters. */
  ghost predicate StringFormat(s: seq<byte>, b: seq<byte>) {
    |b| == 8 + |s| && IsNumber(b[..8], |s|, 8) && b[8..] == s
  }

  /** The type in four bytes, then the value: as it is, as a string, or nothing. */
  ghost predicate VariantFormat(v: Variant, b: seq<byte>) {
    && |b| >= 4
    && match v
       case Invalid => b == ToBytes(0, 4)
       case Scalar(k, raw) => IsNumber(b[..4], k, 4) && b[4..] == raw
       case CString(s) => IsNumber(b[..4], 6, 4) && exists c :: IsCut(s, c) && StringFormat(c, b[4..])
       case StdString(s) => IsNumber(b[..4], 7, 4) && StringFormat(s, b[4..])
       case Pointer(_) => b == ToBytes(8, 4)
       case Unsupported(_) => false
  }

  /** Plain variants: bool has type 1 and one byte, int and float have 2 and 4 and four bytes, double
      has 5 and eight bytes. */
  lemma ScalarTypes(k: nat, raw: seq<byte>)
    ensures VariantOk(Scalar(k, raw)) <==>
              (|raw| == 1 && k == 1) || (|raw| == 4 && (k == 2 || k == 4)) || (|raw| == 8 && k == 5)
  {}

  /** c is s up to its first zero byte, or all of it. */
  ghost predicate IsCut(s: seq<byte>, c: seq<byte>) {
    c <= s && 0 !in c && (|c| < |s| ==> s[|c|] == 0)
  }

  /** The parts of b between consecutive cuts, from the eighth byte to the end. */
  ghost predicate Cuts(b: seq<byte>, cuts: seq<nat>, n: nat) {
    && |cuts| == n + 1 && cuts[0] == 8 && cuts[n] == |b|
    && forall i, j :: 0 <= i <= j <= n ==> cuts[i] <= cuts[j]
  }

  ghost predicate Format(v: Value, b: seq<byte>)
    decreases v, 1
  {
    match v
    case Raw(raw) => b == raw
    case Str(s) => StringFormat(s, b)
    case Var(x) => VariantFormat(x, b)
    case Pair(x, y) => exists cut: nat :: PairFormat(x, y, b, cut)
    case Vector(xs) => ListFormat(xs, b)
    case Set(xs) => ListFormat(xs, b)
    case Map(xs) => ListFormat(xs, b)
  }

  /** The first component, and behind it the second. */
  ghost predicate PairFormat(x: Value, y: Value, b: seq<byte>, cut: nat)
    decreases Pair(x, y), 0
  { cut <= |b| && Format(x, b[..cut]) && Format(y, b[cut..]) }

  /** The number of entries in eight bytes, then the entries one behind the other. */
  ghost predicate ListFormat(xs: seq<Value>, b: seq<byte>)
    decreases xs, 0
  {
    && |b| >= 8 && IsNumber(b[..8], |xs|, 8)
    && exists cuts :: Cuts(b, cuts, |xs|)
                      && forall i :: 0 <= i < |xs| ==> Format(xs[i], b[cuts[i]..cuts[i + 1]])
  }

  // ---- the writer keeps to the format ---------------------------------------------------------------

  lemma CutIsCut(s: seq<byte>, c: seq<byte>)
    ensures IsCut(s, c) <==> c == Cut(s)
  {
    var r := Cut(s);
    if IsCut(s, c) {
      assert forall i :: 0 <= i < |r| ==> s[i] == r[i] && r[i] in r;
      assert forall i :: 0 <= i < |c| ==> s[i] == c[i] && c[i] in c;
    }
  }

  lemma StringIsFormatted(s: seq<byte>, b: seq<byte>)
    ensures StringFormat(s, b) <==> b == EncodeString(s)
  {
    hide ToBytes;
    if StringFormat(s, b) { assert b == b[..8] + b[8..]; }
    var e := EncodeString(s);
    assert e[..8] == ToBytes(|s|, 8) && e[8..] == s;
  }

  lemma VariantIsFormatted(v: Variant, b: seq<byte>)
    requires !v.Unsupported?
    ensures VariantFormat(v, b) <==> b == EncodeVariant(v).bytes
  {
    hide ToBytes, Cut, EncodeString, StringFormat, IsCut;
    var e := EncodeVariant(v).bytes;
    assert e == ToBytes(TypeOf(v), 4) + VariantBody(v);
    assert e[..4] == ToBytes(TypeOf(v), 4) && e[4..] == VariantBody(v);
    if |b| >= 4 {
      assert b == b[..4] + b[4..];
      match v {
        case CString(s) =>
          CutIsCut(s, Cut(s));
          StringIsFormatted(Cut(s), b[4..]);
          if c :| IsCut(s, c) && StringFormat(c, b[4..]) { CutIsCut(s, c); }
        case StdString(s) => StringIsFormatted(s, b[4..]);
        case Invalid => assert ToBytes(0, 4) + [] == ToBytes(0, 4);
        case Pointer(_) => assert ToBytes(8, 4) + [] == ToBytes(8, 4);
        case Scalar(_, _) =>
      }
    }
  }

  /** The bytes that are written are those of the format, and no others are. */
  lemma {:induction false} FormatIsEncoding(v: Value, b: seq<byte>)
    requires Storable(v)
    ensures Format(v, b) <==> b == Encode(v).bytes
    decreases v, 2, 0
  {
    EncodesIffStorable(v);
    match v
    case Raw(raw) =>
    case Str(s) => StringIsFormatted(s, b);
    case Var(x) => VariantIsFormatted(x, b);
    case Pair(x, y) => PairIsFormatted(x, y, b);
    case Vector(xs) => ListIsFormatted(xs, b); ListBytes(v, xs);
    case Set(xs) => ListIsFormatted(xs, b); ListBytes(v, xs);
    case Map(xs) => ListIsFormatted(xs, b); ListBytes(v, xs);
  }

  lemma ListBytes(v: Value, xs: seq<Value>)
    requires Storable(v) && (v == Vector(xs) || v == Set(xs) || v == Map(xs))
    ensures Encode(v).bytes == ToBytes(|xs|, 8) + EncodeAll(xs).bytes
  { hide EncodeAll, ToBytes; }

  lemma PairBytes(x: Value, y: Value)
    requires Storable(Pair(x, y))
    ensures Storable(x) && Storable(y) && Encode(Pair(x, y)).bytes == Encode(x).bytes + Encode(y).bytes
  {
    EncodesIffStorable(x);
    EncodesIffStorable(y);
  }

  lemma {:induction false} PairIsFormatted(x: Value, y: Value, b: seq<byte>)
    requires Storable(Pair(x, y))
    ensures Format(Pair(x, y), b) <==> b == Encode(Pair(x, y)).bytes
    decreases Pair(x, y), 1, 0
  {
    PairBytes(x, y);
    var ex, ey := Encode(x).bytes, Encode(y).bytes;
    hide Encode, Storable, PairFormat;
    if cut: nat :| PairFormat(x, y, b, cut) { PairIsEncoding(x, y, b, cut); }
    FormatIsEncoding(x, ex);
    FormatIsEncoding(y, ey);
    if b == ex + ey { TwoParts(x, y, ex, ey); }
  }

  lemma TwoParts(x: Value, y: Value, ex: seq<byte>, ey: seq<byte>)
    requires Format(x, ex) && Format(y, ey)
    ensures PairFormat(x, y, ex + ey, |ex|)
  {
    hide Format;
    assert (ex + ey)[..|ex|] == ex && (ex + ey)[|ex|..] == ey;
  }

  lemma {:induction false} PairIsEncoding(x: Value, y: Value, b: seq<byte>, cut: nat)
    requires Storable(x) && Storable(y) && PairFormat(x, y, b, cut)
    ensures b == Encode(x).bytes + Encode(y).bytes
    decreases Pair(x, y), 0, 0
  {
    hide Format, Encode, Storable;
    FormatIsEncoding(x, b[..cut]);
    FormatIsEncoding(y, b[cut..]);
    assert b == b[..cut] + b[cut..];
  }

  lemma {:induction false} ListIsFormatted(xs: seq<Value>, b: seq<byte>)
    requires forall i :: 0 <= i < |xs| ==> Storable(xs[i])
    ensures ListFormat(xs, b) <==> b == ToBytes(|xs|, 8) + EncodeAll(xs).bytes
    decreases xs, 2
  {
    hide ToBytes, EncodeAll, Format, Storable;
    var e := ToBytes(|xs|, 8) + EncodeAll(xs).bytes;
    if ListFormat(xs, b) {
      var cuts :| Cuts(b, cuts, |xs|) && forall i :: 0 <= i < |xs| ==> Format(xs[i], b[cuts[i]..cuts[i + 1]]);
      PartsAreEncodings(xs, b, cuts, |xs|);
      assert xs[..|xs|] == xs && b == b[..8] + b[8..] && b[8..cuts[|xs|]] == b[8..];
    }
    if b == e {
      var cuts := EncodingHasParts(xs, b);
      assert b[..8] == ToBytes(|xs|, 8);
    }
  }

  lemma {:induction false} PartsAreEncodings(xs: seq<Value>, b: seq<byte>, cuts: seq<nat>, n: nat)
    requires forall i :: 0 <= i < |xs| ==> Storable(xs[i])
    requires Cuts(b, cuts, |xs|) && n <= |xs|
    requires forall i :: 0 <= i < |xs| ==> Format(xs[i], b[cuts[i]..cuts[i + 1]])
    ensures cuts[n] >= 8 && b[8..cuts[n]] == EncodeAll(xs[..n]).bytes
    decreases xs, 1, n
  {
    hide Format, Storable, Encode, EncodeAll;
    if n == 0 {
      NothingEncoded(xs);
    } else {
      PartsAreEncodings(xs, b, cuts, n - 1);
      FormatIsEncoding(xs[n - 1], b[cuts[n - 1]..cuts[n]]);
      EncodedStep(xs, n - 1);
      assert b[8..cuts[n]] == b[8..cuts[n - 1]] + b[cuts[n - 1]..cuts[n]];
    }
  }

  lemma NothingEncoded(xs: seq<Value>)
    ensures EncodeAll(xs[..0]).bytes == []
  {}

  lemma EncodedStep(xs: seq<Value>, i: nat)
    requires i < |xs| && forall j :: 0 <= j < |xs| ==> Storable(xs[j])
    ensures EncodeAll(xs[..i + 1]).bytes == EncodeAll(xs[..i]).bytes + Encode(xs[i]).bytes
  {
    hide Encode, Storable;
    AllEncodeIffStorable(xs[..i]);
    assert xs[..i + 1][..i] == xs[..i];
  }

  lemma {:induction false} EncodingHasParts(xs: seq<Value>, b: seq<byte>) returns (cuts: seq<nat>)
    requires forall i :: 0 <= i < |xs| ==> Storable(xs[i])
    requires b == ToBytes(|xs|, 8) + EncodeAll(xs).bytes
    ensures Cuts(b, cuts, |xs|) && forall i :: 0 <= i < |xs| ==> Format(xs[i], b[cuts[i]..cuts[i + 1]])
    decreases xs, 1, |xs| + 1
  {
    hide ToBytes, Encode, EncodeAll, Format, Storable;
    cuts := seq(|xs| + 1, i requires 0 <= i < |xs| + 1 => 8 + |EncodeAll(xs[..i]).bytes|);
    NothingEncoded(xs);
    assert xs[..|xs|] == xs;
    forall i, j | 0 <= i <= j <= |xs| ensures cuts[i] <= cuts[j] { EncodedPrefix(xs, i, j); }
    assert Cuts(b, cuts, |xs|);
    forall i | 0 <= i < |xs| ensures Format(xs[i], b[cuts[i]..cuts[i + 1]]) {
      EncodedStep(xs, i);
      EncodedPrefix(xs, i + 1, |xs|);
      assert b[cuts[i]..cuts[i + 1]] == Encode(xs[i]).bytes;
      FormatIsEncoding(xs[i], Encode(xs[i]).bytes);
    }
  }

  lemma {:induction false} EncodedPrefix(xs: seq<Value>, i: nat, j: nat)
    requires i <= j <= |xs| && forall k :: 0 <= k < |xs| ==> Storable(xs[k])
    ensures EncodeAll(xs[..i]).bytes <= EncodeAll(xs[..j]).bytes
  {
    hide Encode, EncodeAll, Storable;
    if i < j {
      EncodedPrefix(xs, i, j - 1);
      EncodedStep(xs, j - 1);
    }
  }

  // ---- what is written before an unsupported variant ------------------------------------------------

  /** Of a list everything up to the first entry that cannot be stored, and of that entry what could
      be written. */
  lemma {:induction false} ListStops(xs: seq<Value>, i: nat)
    requires i < |xs| && !Storable(xs[i]) && forall j :: 0 <= j < i ==> Storable(xs[j])
    ensures !EncodeAll(xs).ok && EncodeAll(xs).bytes == EncodeAll(xs[..i]).bytes + Encode(xs[i]).bytes
  {
    hide Storable, Encode;
    var n := |xs| - 1;
    EncodesIffStorable(xs[i]);
    if i < n {
      ListStops(xs[..n], i);
      assert xs[..n][..i] == xs[..i];
    } else {
      AllEncodeIffStorable(xs[..n]);
    }
  }

  lemma WrittenBeforeFailure(v: Value)
    requires !Storable(v)
    ensures match v
            case Var(x) => Encode(v).bytes == ToBytes(TypeOf(x), 4)
            case Pair(x, y) =>
              Encode(v).bytes == if Storable(x) then Encode(x).bytes + Encode(y).bytes else Encode(x).bytes
            case Vector(xs) => Encode(v).bytes == ToBytes(|xs|, 8) + EncodeAll(xs).bytes
            case Set(xs) => Encode(v).bytes == ToBytes(|xs|, 8) + EncodeAll(xs).bytes
            case Map(xs) => Encode(v).bytes == ToBytes(|xs|, 8) + EncodeAll(xs).bytes
            case _ => false
  {
    hide ToBytes, EncodeAll;
    match v
    case Pair(x, y) => EncodesIffStorable(x);
    case _ =>
  }

  // ---- what the reader makes of it ------------------------------------------------------------------

  /** C strings come back as strings and pointers as null; strings end at their first zero byte. */
  ghost predicate VariantReturns(v: Variant, w: Variant) {
    match v
    case CString(s) => w.StdString? && IsCut(s, w.s)
    case StdString(s) => w.StdString? && IsCut(s, w.s)
    case Pointer(_) => w == Pointer(0)
    case _ => w == v
  }

  lemma VariantComesBack(v: Variant, rest: seq<byte>)
    requires VariantOk(v) && !v.Unsupported?
    ensures var r := DecodeVariant(EncodeVariant(v).bytes + rest);
            r.Done? && r.rest == rest && VariantReturns(v, r.value)
  {
    hide VariantOk, EncodeVariant, DecodeVariant, IsCut, Cut;
    VariantRoundTrip(v, rest);
    if v.CString? || v.StdString? { CutIsCut(v.s, Cut(v.s)); }
  }

  ghost predicate Equivalent(lt: (Value, Value) -> bool, isMap: bool, x: Value, y: Value) {
    !lt(Key(x, isMap), Key(y, isMap)) && !lt(Key(y, isMap), Key(x, isMap))
  }

  /** r has the key of the first of the equivalent entries i .. j of xs; in a set it is that entry, in
      a map it has the value of the last. */
  ghost predicate Stands(lt: (Value, Value) -> bool, isMap: bool, xs: seq<Value>, r: Value, i: nat, j: nat) {
    && i <= j < |xs| && Equivalent(lt, isMap, xs[i], xs[j])
    && (forall h :: 0 <= h < i ==> !Equivalent(lt, isMap, xs[h], xs[i]))
    && (forall h :: j < h < |xs| ==> !Equivalent(lt, isMap, xs[i], xs[h]))
    && r == if isMap && xs[i].Pair? && xs[j].Pair? then Pair(xs[i].first, xs[j].second) else xs[i]
  }

  ghost predicate StandsForSome(lt: (Value, Value) -> bool, isMap: bool, xs: seq<Value>, r: Value)
  { exists i: nat, j: nat :: Stands(lt, isMap, xs, r, i, j) }

  ghost predicate HasEquivalent(lt: (Value, Value) -> bool, isMap: bool, rs: seq<Value>, x: Value)
  { exists k :: 0 <= k < |rs| && Equivalent(lt, isMap, rs[k], x) }

  /** rs is an ordered container after all of xs have been put into it. */
  ghost predicate Refilled(lt: (Value, Value) -> bool, isMap: bool, xs: seq<Value>, rs: seq<Value>) {
    && Rising(lt, isMap, rs)
    && (forall k :: 0 <= k < |rs| ==> StandsForSome(lt, isMap, xs, rs[k]))
    && (forall i :: 0 <= i < |xs| ==> HasEquivalent(lt, isMap, rs, xs[i]))
  }

  ghost predicate Pairs(xs: seq<Value>) { forall i :: 0 <= i < |xs| ==> xs[i].Pair? }

  /** r is rs with e on the place of the equivalent entry k, or between its neighbours at k. */
  ghost predicate PutsAt(lt: (Value, Value) -> bool, isMap: bool, rs: seq<Value>, e: Value, k: nat, r: seq<Value>) {
    && k <= |rs|
    && if k < |rs| && Equivalent(lt, isMap, rs[k], e)
       then r == rs[k := if isMap && rs[k].Pair? && e.Pair? then Pair(rs[k].first, e.second) else rs[k]]
       else r == rs[..k] + [e] + rs[k..] && forall i :: 0 <= i < |rs| ==> !Equivalent(lt, isMap, rs[i], e)
  }

  lemma {:induction false} PutPlace(lt: (Value, Value) -> bool, isMap: bool, rs: seq<Value>, e: Value) returns (k: nat)
    requires StrictWeakOrder(lt) && Rising(lt, isMap, rs)
    ensures PutsAt(lt, isMap, rs, e, k, Put(lt, isMap, rs, e))
  {
    hide StrictWeakOrder, PutsAt;
    if |rs| == 0 {
      k := 0;
      PutFirst(lt, isMap, rs, e);
    } else {
      var n := |rs| - 1;
      if lt(Key(rs[n], isMap), Key(e, isMap)) {
        k := |rs|;
        AllLess(lt, isMap, rs, e);
        PutLast(lt, isMap, rs, e);
      } else if lt(Key(e, isMap), Key(rs[n], isMap)) {
        k := PutPlace(lt, isMap, rs[..n], e);
        PutBefore(lt, isMap, rs, e, k, Put(lt, isMap, rs[..n], e));
      } else {
        k := n;
        PutOver(lt, isMap, rs, e);
      }
    }
  }

  lemma PutFirst(lt: (Value, Value) -> bool, isMap: bool, rs: seq<Value>, e: Value)
    requires |rs| == 0
    ensures PutsAt(lt, isMap, rs, e, 0, [e])
  {}

  lemma PutLast(lt: (Value, Value) -> bool, isMap: bool, rs: seq<Value>, e: Value)
    requires forall i :: 0 <= i < |rs| ==> lt(Key(rs[i], isMap), Key(e, isMap))
    ensures PutsAt(lt, isMap, rs, e, |rs|, rs + [e])
  {
    hide Key;
    assert rs[..|rs|] + [e] + rs[|rs|..] == rs + [e];
  }

  lemma PutBefore(lt: (Value, Value) -> bool, isMap: bool, rs: seq<Value>, e: Value, k: nat, r: seq<Value>)
    requires |rs| > 0 && lt(Key(e, isMap), Key(rs[|rs| - 1], isMap)) && PutsAt(lt, isMap, rs[..|rs| - 1], e, k, r)
    ensures PutsAt(lt, isMap, rs, e, k, r + [rs[|rs| - 1]])
  {
    hide Key;
    var n := |rs| - 1;
    var front := rs[..n];
    NotEquivalent(lt, isMap, rs[n], e);
    hide Equivalent;
    if k < n && Equivalent(lt, isMap, front[k], e) {
      assert r + [rs[n]] == rs[k := r[k]];
    } else {
      assert front[..k] == rs[..k] && rs[k..] == front[k..] + [rs[n]];
      forall i | 0 <= i < |rs| ensures !Equivalent(lt, isMap, rs[i], e) {
        if i < n { assert front[i] == rs[i]; }
      }
    }
  }

  lemma NotEquivalent(lt: (Value, Value) -> bool, isMap: bool, x: Value, e: Value)
    requires lt(Key(e, isMap), Key(x, isMap))
    ensures !Equivalent(lt, isMap, x, e)
  {}

  lemma PutOver(lt: (Value, Value) -> bool, isMap: bool, rs: seq<Value>, e: Value)
    requires |rs| > 0 && Equivalent(lt, isMap, rs[|rs| - 1], e)
    ensures PutsAt(lt, isMap, rs, e, |rs| - 1, Put(lt, isMap, rs, e))
  {
    hide Key;
    var n := |rs| - 1;
    assert isMap && rs[n].Pair? && e.Pair? ==>
             rs[..n] + [Pair(rs[n].first, e.second)] == rs[n := Pair(rs[n].first, e.second)];
  }

  lemma AllLess(lt: (Value, Value) -> bool, isMap: bool, rs: seq<Value>, e: Value)
    requires StrictWeakOrder(lt) && Rising(lt, isMap, rs) && |rs| > 0 && lt(Key(rs[|rs| - 1], isMap), Key(e, isMap))
    ensures forall i :: 0 <= i < |rs| ==> lt(Key(rs[i], isMap), Key(e, isMap))
  {
    forall i | 0 <= i < |rs| - 1 ensures lt(Key(rs[i], isMap), Key(e, isMap)) {
      assert lt(Key(rs[i], isMap), Key(rs[|rs| - 1], isMap));
    }
  }

  /** What becomes of entry r when e is put: in a map it takes the value of an equivalent one. */
  ghost function Updated(lt: (Value, Value) -> bool, isMap: bool, r: Value, e: Value): Value {
    if Equivalent(lt, isMap, r, e) && isMap && r.Pair? && e.Pair? then Pair(r.first, e.second) else r
  }

  /** An entry that stood for some stands for them still, or has taken the new value. */
  lemma StandsLonger(lt: (Value, Value) -> bool, isMap: bool, xs: seq<Value>, r: Value, e: Value)
    requires StrictWeakOrder(lt) && (isMap ==> Pairs(xs) && e.Pair?) && StandsForSome(lt, isMap, xs, r)
    ensures StandsForSome(lt, isMap, xs + [e], Updated(lt, isMap, r, e))
    ensures Key(Updated(lt, isMap, r, e), isMap) == Key(r, isMap)
  {
    var i: nat, j: nat :| Stands(lt, isMap, xs, r, i, j);
    var ys := xs + [e];
    assert Key(r, isMap) == Key(xs[i], isMap);
    if Equivalent(lt, isMap, r, e) {
      assert Stands(lt, isMap, ys, Updated(lt, isMap, r, e), i, |xs|);
    } else {
      assert Stands(lt, isMap, ys, r, i, j);
    }
  }

  /** A new entry that nothing is equivalent to stands for itself. */
  lemma StandsAlone(lt: (Value, Value) -> bool, isMap: bool, xs: seq<Value>, e: Value)
    requires StrictWeakOrder(lt) && (isMap ==> e.Pair?)
    requires forall h :: 0 <= h < |xs| ==> !Equivalent(lt, isMap, xs[h], e)
    ensures StandsForSome(lt, isMap, xs + [e], e)
  { assert Stands(lt, isMap, xs + [e], e, |xs|, |xs|); }

  lemma EquivalentToo(lt: (Value, Value) -> bool, isMap: bool, x: Value, y: Value, z: Value)
    requires StrictWeakOrder(lt) && Equivalent(lt, isMap, x, y)
    ensures Equivalent(lt, isMap, y, x)
    ensures Equivalent(lt, isMap, y, z) ==> Equivalent(lt, isMap, x, z)
  {}

  lemma SameKey(lt: (Value, Value) -> bool, isMap: bool, rs: seq<Value>, rs': seq<Value>, k: nat, x: Value)
    requires k < |rs| == |rs'| && (forall l :: 0 <= l < |rs| ==> Key(rs[l], isMap) == Key(rs'[l], isMap))
    requires HasEquivalent(lt, isMap, rs, x)
    ensures HasEquivalent(lt, isMap, rs', x)
  {
    var l :| 0 <= l < |rs| && Equivalent(lt, isMap, rs[l], x);
    assert Equivalent(lt, isMap, rs'[l], x);
  }

  lemma CollectStep(lt: (Value, Value) -> bool, isMap: bool, xs: seq<Value>)
    ensures Collect(lt, isMap, xs) ==
              if |xs| == 0 then [] else Put(lt, isMap, Collect(lt, isMap, xs[..|xs| - 1]), xs[|xs| - 1])
  { hide Put; }

  /** Putting entry by entry refills the container. */
  lemma {:induction false} CollectRefills(lt: (Value, Value) -> bool, isMap: bool, xs: seq<Value>)
    requires StrictWeakOrder(lt) && (isMap ==> Pairs(xs))
    ensures Refilled(lt, isMap, xs, Collect(lt, isMap, xs))
  {
    hide StrictWeakOrder, Equivalent, Rising, Put, Key, StandsForSome, HasEquivalent, Updated, Collect;
    CollectRising(lt, isMap, xs);
    CollectStep(lt, isMap, xs);
    if |xs| > 0 {
      var n := |xs| - 1;
      CollectRefills(lt, isMap, xs[..n]);
      var rs := Collect(lt, isMap, xs[..n]);
      var k := PutPlace(lt, isMap, rs, xs[n]);
      assert xs == xs[..n] + [xs[n]];
      if k < |rs| && Equivalent(lt, isMap, rs[k], xs[n]) {
        PutOnPlace(lt, isMap, xs[..n], rs, xs[n], k);
      } else {
        PutBetween(lt, isMap, xs[..n], rs, xs[n], k);
      }
    }
  }

  lemma PutOnPlace(lt: (Value, Value) -> bool, isMap: bool, xs: seq<Value>, rs: seq<Value>, e: Value, k: nat)
    requires StrictWeakOrder(lt) && (isMap ==> Pairs(xs) && e.Pair?) && Refilled(lt, isMap, xs, rs)
    requires k < |rs| && Equivalent(lt, isMap, rs[k], e)
    ensures var rs' := rs[k := if isMap && rs[k].Pair? && e.Pair? then Pair(rs[k].first, e.second) else rs[k]];
            && (forall l :: 0 <= l < |rs'| ==> StandsForSome(lt, isMap, xs + [e], rs'[l]))
            && (forall i :: 0 <= i < |xs + [e]| ==> HasEquivalent(lt, isMap, rs', (xs + [e])[i]))
  {
    hide StrictWeakOrder, StandsForSome;
    var rs', ys := rs[k := Updated(lt, isMap, rs[k], e)], xs + [e];
    forall l | 0 <= l < |rs| ensures StandsForSome(lt, isMap, ys, rs'[l]) && Key(rs'[l], isMap) == Key(rs[l], isMap) {
      StandsLonger(lt, isMap, xs, rs[l], e);
      if l != k && Equivalent(lt, isMap, rs[l], e) { OnlyOne(lt, isMap, rs, e, k, l); }
    }
    forall i | 0 <= i < |ys| ensures HasEquivalent(lt, isMap, rs', ys[i]) {
      if i < |xs| {
        assert HasEquivalent(lt, isMap, rs, xs[i]);
        SameKey(lt, isMap, rs, rs', k, xs[i]);
      } else {
        assert Equivalent(lt, isMap, rs'[k], e);
      }
    }
  }

  /** No two entries of an ordered container are equivalent to a third. */
  lemma OnlyOne(lt: (Value, Value) -> bool, isMap: bool, rs: seq<Value>, e: Value, k: nat, l: nat)
    requires StrictWeakOrder(lt) && Rising(lt, isMap, rs) && k < |rs| && l < |rs|
    requires Equivalent(lt, isMap, rs[k], e) && Equivalent(lt, isMap, rs[l], e)
    ensures k == l
  {
    EquivalentToo(lt, isMap, e, rs[l], rs[l]);
    assert Equivalent(lt, isMap, e, rs[l]) && Equivalent(lt, isMap, rs[k], rs[l]);
  }

  lemma PutBetween(lt: (Value, Value) -> bool, isMap: bool, xs: seq<Value>, rs: seq<Value>, e: Value, k: nat)
    requires StrictWeakOrder(lt) && (isMap ==> Pairs(xs) && e.Pair?) && Refilled(lt, isMap, xs, rs)
    requires k <= |rs| && forall i :: 0 <= i < |rs| ==> !Equivalent(lt, isMap, rs[i], e)
    ensures var rs' := rs[..k] + [e] + rs[k..];
            && (forall l :: 0 <= l < |rs'| ==> StandsForSome(lt, isMap, xs + [e], rs'[l]))
            && (forall i :: 0 <= i < |xs + [e]| ==> HasEquivalent(lt, isMap, rs', (xs + [e])[i]))
  {
    hide StrictWeakOrder, StandsForSome, Equivalent;
    var rs', ys := rs[..k] + [e] + rs[k..], xs + [e];
    forall h | 0 <= h < |xs| ensures !Equivalent(lt, isMap, xs[h], e) {
      assert HasEquivalent(lt, isMap, rs, xs[h]);
      var l :| 0 <= l < |rs| && Equivalent(lt, isMap, rs[l], xs[h]);
      EquivalentToo(lt, isMap, rs[l], xs[h], e);
    }
    StandsAlone(lt, isMap, xs, e);
    forall l | 0 <= l < |rs'| ensures StandsForSome(lt, isMap, ys, rs'[l]) {
      if l != k { StandsLonger(lt, isMap, xs, rs[if l < k then l else l - 1], e); }
    }
    forall i | 0 <= i < |ys| ensures HasEquivalent(lt, isMap, rs', ys[i]) {
      if i < |xs| {
        assert HasEquivalent(lt, isMap, rs, xs[i]);
        var l :| 0 <= l < |rs| && Equivalent(lt, isMap, rs[l], xs[i]);
        assert rs'[if l < k then l else l + 1] == rs[l];
      } else {
        ItselfEquivalent(lt, isMap, e);
        assert rs'[k] == e;
      }
    }
  }

  lemma ItselfEquivalent(lt: (Value, Value) -> bool, isMap: bool, e: Value)
    requires StrictWeakOrder(lt)
    ensures Equivalent(lt, isMap, e, e)
  {}

  /** w is what v comes back as: plain data unchanged, strings cut, entries of vectors one by one, sets
      and maps refilled with what their entries come back as. */
  ghost predicate Returns(lt: (Value, Value) -> bool, v: Value, w: Value)
    decreases v
  {
    match v
    case Raw(_) => w == v
    case Str(s) => w.Str? && IsCut(s, w.s)
    case Var(x) => w.Var? && VariantReturns(x, w.v)
    case Pair(x, y) => w.Pair? && Returns(lt, x, w.first) && Returns(lt, y, w.second)
    case Vector(xs) => w.Vector? && |w.items| == |xs| && forall i :: 0 <= i < |xs| ==> Returns(lt, xs[i], w.items[i])
    case Set(xs) =>
      w.Set? && exists ns: seq<Value> :: |ns| == |xs| && Refilled(lt, false, ns, w.items)
                                         && forall i :: 0 <= i < |xs| ==> Returns(lt, xs[i], ns[i])
    case Map(xs) =>
      w.Map? && exists ns: seq<Value> :: |ns| == |xs| && Refilled(lt, true, ns, w.items)
                                         && forall i :: 0 <= i < |xs| ==> Returns(lt, xs[i], ns[i])
  }

  /** What has been written is read back as that, and the rest of the stream is left. */
  lemma ComesBackAs(lt: (Value, Value) -> bool, ty: Ty, v: Value, rest: seq<byte>)
    requires StrictWeakOrder(lt) && HasType(v, ty) && Storable(v)
    ensures var r := Decode(lt, ty, Encode(v).bytes + rest); r.Done? && r.rest == rest && Returns(lt, v, r.value)
  {
    hide StrictWeakOrder, HasType, Returns, Decode, Encode, Storable;
    EncodesIffStorable(v);
    RoundTrip(lt, ty, v, rest);
    NormReturns(lt, ty, v);
  }

  lemma {:induction false} NormReturns(lt: (Value, Value) -> bool, ty: Ty, v: Value)
    requires StrictWeakOrder(lt) && HasType(v, ty)
    ensures Returns(lt, v, Norm(lt, v))
    decreases v
  {
    hide StrictWeakOrder, Refilled, Collect, IsCut, Cut, VariantOk, NormVariant;
    match v
    case Raw(_) =>
    case Str(s) => CutIsCut(s, Cut(s));
    case Var(x) => NormVariantReturns(x);
    case Pair(x, y) => NormReturns(lt, ty.a, x); NormReturns(lt, ty.b, y);
    case Vector(xs) => AllReturn(lt, ty.of, xs);
    case Set(xs) =>
      AllReturn(lt, ty.of, xs);
      CollectRefills(lt, false, NormAll(lt, xs));
      assert Norm(lt, v) == Set(Collect(lt, false, NormAll(lt, xs)));
    case Map(xs) =>
      AllReturn(lt, ty.of, xs);
      PairsStay(lt, ty.of, xs);
      CollectRefills(lt, true, NormAll(lt, xs));
      assert Norm(lt, v) == Map(Collect(lt, true, NormAll(lt, xs)));
  }

  lemma NormVariantReturns(v: Variant)
    ensures VariantReturns(v, NormVariant(v))
  {
    hide Cut, IsCut;
    if v.CString? || v.StdString? { CutIsCut(v.s, Cut(v.s)); }
  }

  lemma PairsStay(lt: (Value, Value) -> bool, t: Ty, xs: seq<Value>)
    requires t.TPair? && forall i :: 0 <= i < |xs| ==> HasType(xs[i], t)
    ensures Pairs(NormAll(lt, xs))
  { forall i | 0 <= i < |xs| ensures NormAll(lt, xs)[i].Pair? { assert xs[i].Pair?; } }

  lemma {:induction false} AllReturn(lt: (Value, Value) -> bool, t: Ty, xs: seq<Value>)
    requires StrictWeakOrder(lt) && forall i :: 0 <= i < |xs| ==> HasType(xs[i], t)
    ensures forall i :: 0 <= i < |xs| ==> Returns(lt, xs[i], NormAll(lt, xs)[i])
    decreases xs
  {
    hide StrictWeakOrder, HasType, Returns, Norm;
    forall i | 0 <= i < |xs| ensures Returns(lt, xs[i], NormAll(lt, xs)[i]) { NormReturns(lt, t, xs[i]); }
  }

  // ---- streams that end too early -------------------------------------------------------------------

  /** What has been read does not depend on what follows in the stream. */
  ghost predicate Extends<T>(r: Read<T>, longer: Read<T>, t: seq<byte>) {
    r.Done? ==> longer == Done(r.value, r.rest + t)
  }

  lemma TakeExtends(s: seq<byte>, n: nat, t: seq<byte>)
    ensures Extends(Take(s, n), Take(s + t, n), t)
  {
    if n <= |s| { assert (s + t)[..n] == s[..n] && (s + t)[n..] == s[n..] + t; }
  }

  lemma NumberExtends(s: seq<byte>, width: nat, t: seq<byte>)
    ensures Extends(DecodeNumber(s, width), DecodeNumber(s + t, width), t)
  {
    hide Take, FromBytes;
    TakeExtends(s, width, t);
  }

  lemma StringExtends(s: seq<byte>, t: seq<byte>)
    ensures Extends(DecodeString(s), DecodeString(s + t), t)
  {
    hide Take, DecodeNumber, Cut;
    NumberExtends(s, SIZEOF_SIZE_T, t);
    var r := DecodeNumber(s, SIZEOF_SIZE_T);
    if r.Done? { TakeExtends(r.rest, r.value, t); }
  }

  lemma VariantExtends(s: seq<byte>, t: seq<byte>)
    ensures Extends(DecodeVariant(s), DecodeVariant(s + t), t)
  {
    hide Take, DecodeNumber, DecodeString, DecodeBody;
    NumberExtends(s, SIZEOF_INT, t);
    var r := DecodeNumber(s, SIZEOF_INT);
    if r.Done? { BodyExtends(r.value, r.rest, t); }
  }

  lemma BodyExtends(k: nat, s: seq<byte>, t: seq<byte>)
    ensures Extends(DecodeBody(k, s), DecodeBody(k, s + t), t)
  {
    hide Take, DecodeString;
    TakeExtends(s, ScalarWidth(k), t);
    StringExtends(s, t);
  }

  lemma {:induction false} DecodeExtends(lt: (Value, Value) -> bool, ty: Ty, s: seq<byte>, t: seq<byte>)
    ensures Extends(Decode(lt, ty, s), Decode(lt, ty, s + t), t)
    decreases ty, 0
  {
    hide Take, DecodeString, DecodeVariant, DecodeList, Collect;
    match ty
    case TRaw(n) => TakeExtends(s, n, t);
    case TString => StringExtends(s, t);
    case TVariant => VariantExtends(s, t);
    case TPair(a, b) =>
      DecodeExtends(lt, a, s, t);
      var r := Decode(lt, a, s);
      if r.Done? { DecodeExtends(lt, b, r.rest, t); }
    case TVector(of) => ListExtends(lt, of, s, t);
    case TSet(of) => ListExtends(lt, of, s, t);
    case TMap(of) => ListExtends(lt, of, s, t);
  }

  lemma {:induction false} ListExtends(lt: (Value, Value) -> bool, ty: Ty, s: seq<byte>, t: seq<byte>)
    ensures Extends(DecodeList(lt, ty, s), DecodeList(lt, ty, s + t), t)
    decreases ty, 2, 0
  {
    hide DecodeNumber, DecodeMany;
    NumberExtends(s, SIZEOF_SIZE_T, t);
    var r := DecodeNumber(s, SIZEOF_SIZE_T);
    if r.Done? { ManyExtends(lt, ty, r.value, r.rest, t); }
  }

  lemma {:induction false} ManyExtends(lt: (Value, Value) -> bool, ty: Ty, n: nat, s: seq<byte>, t: seq<byte>)
    ensures Extends(DecodeMany(lt, ty, n, s), DecodeMany(lt, ty, n, s + t), t)
    decreases ty, 1, n
  {
    hide Decode;
    if n > 0 {
      ManyExtends(lt, ty, n - 1, s, t);
      var r := DecodeMany(lt, ty, n - 1, s);
      if r.Done? { DecodeExtends(lt, ty, r.rest, t); }
    }
  }

  /** Whatever is missing at the end of what was written, reading it fails. */
  lemma ShortStreamFails(lt: (Value, Value) -> bool, ty: Ty, v: Value, n: nat)
    requires HasType(v, ty) && Storable(v) && n < |Encode(v).bytes|
    ensures Decode(lt, ty, Encode(v).bytes[..n]) == Bad
  {
    hide HasType, Storable, Decode, Encode, Norm;
    EncodesIffStorable(v);
    var all := Encode(v).bytes;
    RoundTrip(lt, ty, v, []);
    DecodeExtends(lt, ty, all[..n], all[n..]);
    assert all[..n] + all[n..] == all == all + [];
  }
}
