/** Serialize and Deserialize on a stream: the loops over the entries of vectors, sets and maps
    against the functions on byte sequences. */
module SerializationStream {
  import opened ByteCodes
  import opened Options
  import opened Serialization

  /** A buffer that is written at its end and read from a position on. */
  class BinaryStream {
    var data: seq<byte>
    var pos: nat

    ghost predicate Valid() reads this { pos <= |data| }

    function Rest(): seq<byte>
      requires Valid()
      reads this
    { data[pos..] }

    constructor ()
      ensures Valid() && data == [] && pos == 0
    { data, pos := [], 0; }

    method Write(bytes: seq<byte>)
      requires Valid()
      modifies this
      ensures Valid() && data == old(data) + bytes && pos == old(pos)
    { data := data + bytes; }

    /** Fails if the buffer holds less than n bytes. */
    method Fetch(n: nat) returns (r: Option<seq<byte>>)
      requires Valid()
      modifies this
      ensures Valid() && data == old(data)
      ensures Take(old(Rest()), n) == if r.Some? then Done(r.value, Rest()) else Bad
    {
      if n > |data| - pos { return None; }
      r := Some(data[pos..pos + n]);
      assert data[pos..][..n] == data[pos..pos + n] && data[pos..][n..] == data[pos + n..];
      pos := pos + n;
    }

    // ---- writing ----------------------------------------------------------------------------------

    /** Not ok when an unknown variant type has been met; what precedes it has been written. */
    method Serialize(v: Value) returns (ok: bool)
      requires Valid()
      modifies this
      ensures Valid() && pos == old(pos) && Output(data, ok) == Output(old(data) + Encode(v).bytes, Encode(v).ok)
      decreases v, 1
    {
      match v {
        case Raw(raw) => Write(raw); ok := true;
        case Str(s) =>
          Write(SizeBytes(|s|));
          Write(s);
          ok := true;
          assert old(data) + SizeBytes(|s|) + s == old(data) + EncodeString(s);
        case Var(x) => ok := SerializeVariant(x);
        case Pair(x, y) =>
          ok := Serialize(x);
          if ok { ok := Serialize(y); }
        case Vector(xs) => ok := SerializeEntries(xs);
        case Set(xs) => ok := SerializeEntries(xs);
        case Map(xs) => ok := SerializeEntries(xs);
      }
    }

    method SerializeVariant(v: Variant) returns (ok: bool)
      requires Valid()
      modifies this
      ensures Valid() && pos == old(pos)
      ensures Output(data, ok) == Output(old(data) + EncodeVariant(v).bytes, EncodeVariant(v).ok)
    {
      hide Cut, ToBytes, EncodeString;
      ghost var start, tag := data, ToBytes(TypeOf(v), SIZEOF_INT);
      Write(ToBytes(TypeOf(v), SIZEOF_INT));
      ok := true;
      match v {
        case Scalar(_, raw) => Write(raw);
        case CString(s) => Write(EncodeString(Cut(s)));
        case StdString(s) => Write(EncodeString(s));
        case Unsupported(_) => ok := false; Nothing(start + tag);
        case _ => Nothing(start + tag);
      }
      Associative(start, tag, VariantBody(v));
    }

    method SerializeEntries(xs: seq<Value>) returns (ok: bool)
      requires Valid()
      modifies this
      ensures Valid() && pos == old(pos)
      ensures var out := Then(Output(SizeBytes(|xs|), true), EncodeAll(xs));
              Output(data, ok) == Output(old(data) + out.bytes, out.ok)
      decreases xs, 2
    {
      hide Encode;
      Write(SizeBytes(|xs|));
      ok := true;
      var i := 0;
      while i < |xs|
        invariant 0 <= i <= |xs| && Valid() && pos == old(pos)
        invariant ok && EncodeAll(xs[..i]).ok && data == old(data) + SizeBytes(|xs|) + EncodeAll(xs[..i]).bytes
      {
        assert xs[..i + 1][..i] == xs[..i];
        ok := Serialize(xs[i]);
        assert data == old(data) + SizeBytes(|xs|) + EncodeAll(xs[..i + 1]).bytes;
        if !ok { EncodeAllStops(xs, i); return; }
        i := i + 1;
      }
      assert xs[..i] == xs;
    }

    // ---- reading ----------------------------------------------------------------------------------

    /** Reads a value of the given type; None if the stream is exhausted or holds an unknown
        variant type. */
    method Deserialize(lt: (Value, Value) -> bool, ty: Ty) returns (r: Option<Value>)
      requires Valid()
      modifies this
      ensures Valid() && data == old(data)
      ensures Decode(lt, ty, old(Rest())) == if r.Some? then Done(r.value, Rest()) else Bad
      decreases ty, 0
    {
      hide DecodeMany, DecodeNumber, DecodeString, DecodeVariant, Put;
      match ty {
        case TRaw(n) =>
          var b := Fetch(n);
          if b.None? { return None; }
          r := Some(Raw(b.value));
        case TString =>
          var b := DeserializeString();
          if b.None? { return None; }
          r := Some(Str(b.value));
        case TVariant =>
          var x := DeserializeVariant();
          if x.None? { return None; }
          r := Some(Var(x.value));
        case TPair(a, b) =>
          var x := Deserialize(lt, a);
          if x.None? { return None; }
          var y := Deserialize(lt, b);
          if y.None? { return None; }
          r := Some(Pair(x.value, y.value));
        case TVector(t) =>
          var xs := DeserializeEntries(lt, t, IntoVector);
          if xs.None? { return None; }
          r := Some(Vector(xs.value));
        case TSet(t) =>
          var xs := DeserializeEntries(lt, t, IntoSet);
          if xs.None? { return None; }
          r := Some(Set(xs.value));
        case TMap(t) =>
          var xs := DeserializeEntries(lt, t, IntoMap);
          if xs.None? { return None; }
          r := Some(Map(xs.value));
      }
    }

    method DeserializeNumber(width: nat) returns (r: Option<nat>)
      requires Valid()
      modifies this
      ensures Valid() && data == old(data)
      ensures DecodeNumber(old(Rest()), width) == if r.Some? then Done(r.value, Rest()) else Bad
    {
      var b := Fetch(width);
      if b.None? { return None; }
      r := Some(FromBytes(b.value));
    }

    method DeserializeString() returns (r: Option<seq<byte>>)
      requires Valid()
      modifies this
      ensures Valid() && data == old(data)
      ensures DecodeString(old(Rest())) == if r.Some? then Done(r.value, Rest()) else Bad
    {
      var n := DeserializeNumber(SIZEOF_SIZE_T);
      if n.None? { return None; }
      var b := Fetch(n.value);
      if b.None? { return None; }
      r := Some(Cut(b.value));
    }

    method DeserializeVariant() returns (r: Option<Variant>)
      requires Valid()
      modifies this
      ensures Valid() && data == old(data)
      ensures DecodeVariant(old(Rest())) == if r.Some? then Done(r.value, Rest()) else Bad
    {
      var k := DeserializeNumber(SIZEOF_INT);
      if k.None? { return None; }
      if k.value == VT_INVALID { return Some(Invalid); }
      if IsScalar(k.value) {
        var b := Fetch(ScalarWidth(k.value));
        if b.None? { return None; }
        return Some(Scalar(k.value, b.value));
      }
      if k.value == VT_CSTRING || k.value == VT_STDSTRING {
        var s := DeserializeString();
        if s.None? { return None; }
        return Some(StdString(s.value));
      }
      if k.value == VT_POINTER { return Some(Pointer(0)); }
      return None;
    }

    /** Reads a size and that many entries, each put into the container at once. */
    method DeserializeEntries(lt: (Value, Value) -> bool, t: Ty, into: Container) returns (r: Option<seq<Value>>)
      requires Valid()
      modifies this
      ensures Valid() && data == old(data)
      ensures match DecodeList(lt, t, old(Rest()))
              case Done(xs, rest) => r == Some(Filled(lt, into, xs)) && Rest() == rest
              case Bad => r == None
      decreases t, 1
    {
      hide Decode, DecodeNumber, Filled;
      var n := DeserializeNumber(SIZEOF_SIZE_T);
      if n.None? { return None; }
      ghost var start, read: seq<Value> := Rest(), [];
      var entries := [];
      FilledNothing(lt, into);
      var i := 0;
      while i < n.value
        invariant 0 <= i <= n.value && Valid() && data == old(data)
        invariant DecodeMany(lt, t, i, start) == Done(read, Rest()) && entries == Filled(lt, into, read)
      {
        var x := Deserialize(lt, t);
        if x.None? { DecodeManyStops(lt, t, i + 1, n.value, start); return None; }
        FilledNext(lt, into, read, x.value);
        entries := Add(lt, into, entries, x.value);
        read := read + [x.value];
        i := i + 1;
      }
      r := Some(entries);
    }
  }

  lemma Nothing(s: seq<byte>)
    ensures s == s + []
  {}

  lemma Associative(a: seq<byte>, b: seq<byte>, c: seq<byte>)
    ensures (a + b) + c == a + (b + c)
  {}

  datatype Container = IntoVector | IntoSet | IntoMap

  /** push_back, insert at the end, and operator []. */
  function Add(lt: (Value, Value) -> bool, into: Container, xs: seq<Value>, x: Value): seq<Value> {
    if into.IntoVector? then xs + [x] else Put(lt, into.IntoMap?, xs, x)
  }

  function Filled(lt: (Value, Value) -> bool, into: Container, xs: seq<Value>): seq<Value> {
    if into.IntoVector? then xs else Collect(lt, into.IntoMap?, xs)
  }

  lemma FilledNothing(lt: (Value, Value) -> bool, into: Container)
    ensures Filled(lt, into, []) == []
  {}

  lemma FilledNext(lt: (Value, Value) -> bool, into: Container, xs: seq<Value>, x: Value)
    ensures Filled(lt, into, xs + [x]) == Add(lt, into, Filled(lt, into, xs), x)
  { assert (xs + [x])[..|xs|] == xs; }

  /** After an entry that cannot be written nothing more is written. */
  lemma {:induction false} EncodeAllStops(xs: seq<Value>, i: nat)
    requires i < |xs| && !EncodeAll(xs[..i + 1]).ok
    ensures EncodeAll(xs) == EncodeAll(xs[..i + 1])
    decreases |xs|
  {
    if i + 1 == |xs| {
      assert xs[..i + 1] == xs;
    } else {
      assert xs[..|xs| - 1][..i + 1] == xs[..i + 1];
      EncodeAllStops(xs[..|xs| - 1], i);
    }
  }

  lemma {:induction false} DecodeManyStops(lt: (Value, Value) -> bool, t: Ty, i: nat, n: nat, s: seq<byte>)
    requires i <= n && DecodeMany(lt, t, i, s) == Bad
    ensures DecodeMany(lt, t, n, s) == Bad
  { if i < n { DecodeManyStops(lt, t, i, n - 1, s); } }
}
