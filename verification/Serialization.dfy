/** The recursive binary format: values written without type information and read back by
    their type. */
module Serialization {
  import opened ByteCodes

  /** Types that can be serialized. Plain types are copied byte by byte. A map reads pairs. */
  datatype Ty =
    TRaw(width: nat) | TString | TVariant | TPair(a: Ty, b: Ty) | TVector(of: Ty) | TSet(of: Ty) | TMap(of: Ty)

  /** Sets and maps hold their entries in the order of iteration. */
  datatype Value =
    | Raw(raw: seq<byte>)
    | Str(s: seq<byte>)
    | Var(v: Variant)
    | Pair(first: Value, second: Value)
    | Vector(items: seq<Value>)
    | Set(items: seq<Value>)
    | Map(items: seq<Value>)

  datatype Variant =
    | Invalid
    | Scalar(kind: nat, raw: seq<byte>)
    | CString(s: seq<byte>)
    | StdString(s: seq<byte>)
    | Pointer(address: nat)
    | Unsupported(kind: nat)

  const VT_INVALID: nat := 0
  const VT_BOOL: nat := 1
  const VT_INT: nat := 2
  const VT_FLOAT: nat := 4
  const VT_DOUBLE: nat := 5
  const VT_CSTRING: nat := 6
  const VT_STDSTRING: nat := 7
  const VT_POINTER: nat := 8

  predicate IsScalar(kind: nat) { kind == VT_BOOL || kind == VT_INT || kind == VT_FLOAT || kind == VT_DOUBLE }

  function ScalarWidth(kind: nat): nat { if kind == VT_BOOL then 1 else if kind == VT_DOUBLE then 8 else 4 }

  function TypeOf(v: Variant): nat {
    match v
    case Invalid => VT_INVALID
    case Scalar(k, _) => k
    case CString(_) => VT_CSTRING
    case StdString(_) => VT_STDSTRING
    case Pointer(_) => VT_POINTER
    case Unsupported(k) => k
  }

  ghost predicate VariantOk(v: Variant) {
    match v
    case Scalar(k, raw) => IsScalar(k) && |raw| == ScalarWidth(k)
    case CString(s) => |s| < Range(SIZEOF_SIZE_T)
    case StdString(s) => |s| < Range(SIZEOF_SIZE_T)
    case Unsupported(k) => !IsScalar(k) && k != VT_INVALID && !(VT_CSTRING <= k <= VT_POINTER) && k < Range(SIZEOF_INT)
    case _ => true
  }

  /** v is a value of type ty, with sizes that size_t can hold. */
  ghost predicate HasType(v: Value, ty: Ty) {
    match (v, ty)
    case (Raw(raw), TRaw(n)) => |raw| == n
    case (Str(s), TString) => |s| < Range(SIZEOF_SIZE_T)
    case (Var(x), TVariant) => VariantOk(x)
    case (Pair(x, y), TPair(a, b)) => HasType(x, a) && HasType(y, b)
    case (Vector(xs), TVector(t)) => |xs| < Range(SIZEOF_SIZE_T) && forall i :: 0 <= i < |xs| ==> HasType(xs[i], t)
    case (Set(xs), TSet(t)) => |xs| < Range(SIZEOF_SIZE_T) && forall i :: 0 <= i < |xs| ==> HasType(xs[i], t)
    case (Map(xs), TMap(t)) =>
      t.TPair? && |xs| < Range(SIZEOF_SIZE_T) && forall i :: 0 <= i < |xs| ==> HasType(xs[i], t)
    case _ => false
  }

  // ---- writing ----------------------------------------------------------------------------------

  /** What reaches the stream; not ok if an unknown variant type has been met there. */
  datatype Output = Output(bytes: seq<byte>, ok: bool)

  function SizeBytes(n: nat): seq<byte> { ToBytes(n, SIZEOF_SIZE_T) }

  function EncodeString(s: seq<byte>): seq<byte> { SizeBytes(|s|) + s }

  /** A C string ends at its first zero byte. */
  function Cut(s: seq<byte>): (r: seq<byte>)
    ensures |r| <= |s| && r == s[..|r|] && 0 !in r
    ensures |r| < |s| ==> s[|r|] == 0
  { if |s| == 0 || s[0] == 0 then [] else [s[0]] + Cut(s[1..]) }

  function VariantBody(v: Variant): seq<byte> {
    match v
    case Scalar(_, raw) => raw
    case CString(s) => EncodeString(Cut(s))
    case StdString(s) => EncodeString(s)
    case _ => []
  }

  /** The type is written before an unknown one is rejected. */
  function EncodeVariant(v: Variant): Output {
    Output(ToBytes(TypeOf(v), SIZEOF_INT) + VariantBody(v), !v.Unsupported?)
  }

  function Then(a: Output, b: Output): Output { if a.ok then Output(a.bytes + b.bytes, b.ok) else a }

  function Encode(v: Value): Output
    decreases v
  {
    match v
    case Raw(raw) => Output(raw, true)
    case Str(s) => Output(EncodeString(s), true)
    case Var(x) => EncodeVariant(x)
    case Pair(x, y) => Then(Encode(x), Encode(y))
    case Vector(xs) => Then(Output(SizeBytes(|xs|), true), EncodeAll(xs))
    case Set(xs) => Then(Output(SizeBytes(|xs|), true), EncodeAll(xs))
    case Map(xs) => Then(Output(SizeBytes(|xs|), true), EncodeAll(xs))
  }

  function EncodeAll(xs: seq<Value>): Output
    decreases xs
  { if |xs| == 0 then Output([], true) else Then(EncodeAll(xs[..|xs| - 1]), Encode(xs[|xs| - 1])) }

  /** No variant of a type that serialization rejects, at any depth. */
  ghost predicate Storable(v: Value) {
    match v
    case Raw(_) => true
    case Str(_) => true
    case Var(x) => !x.Unsupported?
    case Pair(x, y) => Storable(x) && Storable(y)
    case Vector(xs) => forall i :: 0 <= i < |xs| ==> Storable(xs[i])
    case Set(xs) => forall i :: 0 <= i < |xs| ==> Storable(xs[i])
    case Map(xs) => forall i :: 0 <= i < |xs| ==> Storable(xs[i])
  }

  /** Writing throws exactly on values that hold such a variant. */
  lemma {:induction false} EncodesIffStorable(v: Value)
    ensures Encode(v).ok <==> Storable(v)
    decreases v
  {
    match v
    case Pair(x, y) => EncodesIffStorable(x); EncodesIffStorable(y);
    case Vector(xs) => AllEncodeIffStorable(xs);
    case Set(xs) => AllEncodeIffStorable(xs);
    case Map(xs) => AllEncodeIffStorable(xs);
    case _ =>
  }

  lemma {:induction false} AllEncodeIffStorable(xs: seq<Value>)
    ensures EncodeAll(xs).ok <==> forall i :: 0 <= i < |xs| ==> Storable(xs[i])
    decreases xs
  {
    if |xs| > 0 {
      var n := |xs| - 1;
      AllEncodeIffStorable(xs[..n]);
      EncodesIffStorable(xs[n]);
    }
  }

  // ---- reading ----------------------------------------------------------------------------------

  datatype Read<T> = Done(value: T, rest: seq<byte>) | Bad

  function Take(s: seq<byte>, n: nat): (r: Read<seq<byte>>)
    ensures r.Done? <==> n <= |s|
  { if n <= |s| then Done(s[..n], s[n..]) else Bad }

  function DecodeNumber(s: seq<byte>, width: nat): Read<nat> {
    match Take(s, width) case Done(b, rest) => Done(FromBytes(b), rest) case Bad => Bad
  }

  /** All bytes are consumed, but the string ends at the first zero. */
  function DecodeString(s: seq<byte>): Read<seq<byte>> {
    match DecodeNumber(s, SIZEOF_SIZE_T)
    case Bad => Bad
    case Done(n, s') => match Take(s', n) case Done(b, rest) => Done(Cut(b), rest) case Bad => Bad
  }

  function DecodeVariant(s: seq<byte>): Read<Variant> {
    match DecodeNumber(s, SIZEOF_INT) case Done(k, s') => DecodeBody(k, s') case Bad => Bad
  }

  function DecodeBody(k: nat, s: seq<byte>): Read<Variant> {
    if k == VT_INVALID then Done(Invalid, s)
    else if IsScalar(k) then
      match Take(s, ScalarWidth(k)) case Done(b, rest) => Done(Scalar(k, b), rest) case Bad => Bad
    else if k == VT_CSTRING || k == VT_STDSTRING then
      match DecodeString(s) case Done(b, rest) => Done(StdString(b), rest) case Bad => Bad
    else if k == VT_POINTER then Done(Pointer(0), s)
    else Bad
  }

  /** The key of a map's entry, and the whole entry of a set. */
  function Key(v: Value, isMap: bool): Value { if isMap && v.Pair? then v.first else v }

  /** A set keeps the equivalent entry it has; a map overwrites the value behind it. */
  function Put(lt: (Value, Value) -> bool, isMap: bool, xs: seq<Value>, e: Value): (r: seq<Value>)
    ensures |r| <= |xs| + 1
  {
    if |xs| == 0 then [e]
    else
      var n := |xs| - 1;
      if lt(Key(xs[n], isMap), Key(e, isMap)) then xs + [e]
      else if lt(Key(e, isMap), Key(xs[n], isMap)) then Put(lt, isMap, xs[..n], e) + [xs[n]]
      else if isMap && xs[n].Pair? && e.Pair? then xs[..n] + [Pair(xs[n].first, e.second)]
      else xs
  }

  function Collect(lt: (Value, Value) -> bool, isMap: bool, xs: seq<Value>): (r: seq<Value>)
    ensures |r| <= |xs|
  { if |xs| == 0 then [] else Put(lt, isMap, Collect(lt, isMap, xs[..|xs| - 1]), xs[|xs| - 1]) }

  /** lt is the element order of the sets and maps involved. */
  function Decode(lt: (Value, Value) -> bool, ty: Ty, s: seq<byte>): Read<Value>
    decreases ty, 0
  {
    match ty
    case TRaw(n) => (match Take(s, n) case Done(b, rest) => Done(Raw(b), rest) case Bad => Bad)
    case TString => (match DecodeString(s) case Done(b, rest) => Done(Str(b), rest) case Bad => Bad)
    case TVariant => (match DecodeVariant(s) case Done(v, rest) => Done(Var(v), rest) case Bad => Bad)
    case TPair(a, b) =>
      (match Decode(lt, a, s)
       case Bad => Bad
       case Done(x, s') => match Decode(lt, b, s') case Done(y, rest) => Done(Pair(x, y), rest) case Bad => Bad)
    case TVector(t) =>
      (match DecodeList(lt, t, s) case Done(xs, rest) => Done(Vector(xs), rest) case Bad => Bad)
    case TSet(t) =>
      (match DecodeList(lt, t, s) case Done(xs, rest) => Done(Set(Collect(lt, false, xs)), rest) case Bad => Bad)
    case TMap(t) =>
      (match DecodeList(lt, t, s) case Done(xs, rest) => Done(Map(Collect(lt, true, xs)), rest) case Bad => Bad)
  }

  /** A size, then that many values. */
  function DecodeList(lt: (Value, Value) -> bool, t: Ty, s: seq<byte>): Read<seq<Value>>
    decreases t, 2, 0
  { match DecodeNumber(s, SIZEOF_SIZE_T) case Done(n, s') => DecodeMany(lt, t, n, s') case Bad => Bad }

  function DecodeMany(lt: (Value, Value) -> bool, t: Ty, n: nat, s: seq<byte>): Read<seq<Value>>
    decreases t, 1, n
  {
    if n == 0 then Done([], s)
    else
      match DecodeMany(lt, t, n - 1, s)
      case Bad => Bad
      case Done(xs, s') => match Decode(lt, t, s') case Done(x, rest) => Done(xs + [x], rest) case Bad => Bad
  }

  // ---- what a round trip yields -----------------------------------------------------------------

  function NormVariant(v: Variant): Variant {
    match v
    case CString(s) => StdString(Cut(s))
    case StdString(s) => StdString(Cut(s))
    case Pointer(_) => Pointer(0)
    case _ => v
  }

  /** Strings are cut at the first zero, C strings become strings, pointers become null; sets
      and maps are refilled, since cut keys may coincide. */
  function Norm(lt: (Value, Value) -> bool, v: Value): Value
    decreases v
  {
    match v
    case Raw(_) => v
    case Str(s) => Str(Cut(s))
    case Var(x) => Var(NormVariant(x))
    case Pair(x, y) => Pair(Norm(lt, x), Norm(lt, y))
    case Vector(xs) => Vector(seq(|xs|, i requires 0 <= i < |xs| => Norm(lt, xs[i])))
    case Set(xs) => Set(Collect(lt, false, seq(|xs|, i requires 0 <= i < |xs| => Norm(lt, xs[i]))))
    case Map(xs) => Map(Collect(lt, true, seq(|xs|, i requires 0 <= i < |xs| => Norm(lt, xs[i]))))
  }

  function NormAll(lt: (Value, Value) -> bool, xs: seq<Value>): (r: seq<Value>)
    ensures |r| == |xs|
  { seq(|xs|, i requires 0 <= i < |xs| => Norm(lt, xs[i])) }

  lemma NumberRoundTrip(n: nat, width: nat, rest: seq<byte>)
    requires n < Range(width)
    ensures DecodeNumber(ToBytes(n, width) + rest, width) == Done(n, rest)
  {
    BytesRoundTrip(n, width);
    assert (ToBytes(n, width) + rest)[..width] == ToBytes(n, width);
    assert (ToBytes(n, width) + rest)[width..] == rest;
  }

  lemma StringRoundTrip(s: seq<byte>, rest: seq<byte>)
    requires |s| < Range(SIZEOF_SIZE_T)
    ensures DecodeString(EncodeString(s) + rest) == Done(Cut(s), rest)
  {
    hide Cut, Range, FromBytes, ToBytes, DecodeNumber;
    NumberRoundTrip(|s|, SIZEOF_SIZE_T, s + rest);
    assert EncodeString(s) + rest == SizeBytes(|s|) + (s + rest);
    assert (s + rest)[..|s|] == s && (s + rest)[|s|..] == rest;
  }

  lemma VariantRoundTrip(v: Variant, rest: seq<byte>)
    requires VariantOk(v) && !v.Unsupported?
    ensures DecodeVariant(EncodeVariant(v).bytes + rest) == Done(NormVariant(v), rest)
  {
    hide Range, ToBytes, DecodeNumber, DecodeBody, VariantBody, NormVariant;
    TypeFits(v);
    NumberRoundTrip(TypeOf(v), SIZEOF_INT, VariantBody(v) + rest);
    assert EncodeVariant(v).bytes + rest == ToBytes(TypeOf(v), SIZEOF_INT) + (VariantBody(v) + rest);
    BodyRoundTrip(v, rest);
  }

  lemma TypeFits(v: Variant)
    requires VariantOk(v)
    ensures TypeOf(v) < Range(SIZEOF_INT)
  {
    hide Range;
    RangeOfInt();
  }

  lemma BodyRoundTrip(v: Variant, rest: seq<byte>)
    requires VariantOk(v) && !v.Unsupported?
    ensures DecodeBody(TypeOf(v), VariantBody(v) + rest) == Done(NormVariant(v), rest)
  {
    hide Range, Cut, DecodeString, EncodeString;
    match v {
      case Invalid => assert VariantBody(v) + rest == rest;
      case Pointer(_) => assert VariantBody(v) + rest == rest;
      case Scalar(_, raw) => assert (raw + rest)[..|raw|] == raw && (raw + rest)[|raw|..] == rest;
      case CString(s) => CutTwice(s); StringRoundTrip(Cut(s), rest);
      case StdString(s) => StringRoundTrip(s, rest);
    }
  }

  lemma {:induction false} CutTwice(s: seq<byte>)
    ensures Cut(Cut(s)) == Cut(s) && |Cut(s)| <= |s|
    ensures Cut(s) == s <==> 0 !in s
  {
    if |s| > 0 && s[0] != 0 {
      CutTwice(s[1..]);
      assert Cut(s)[1..] == Cut(s[1..]);
      assert s == [s[0]] + s[1..];
    }
  }

  /** Reading back what was written gives the normalised value and leaves exactly what followed
      in the stream, at any nesting. */
  lemma {:induction false} RoundTrip(lt: (Value, Value) -> bool, ty: Ty, v: Value, rest: seq<byte>)
    requires HasType(v, ty) && Encode(v).ok
    ensures Decode(lt, ty, Encode(v).bytes + rest) == Done(Norm(lt, v), rest)
    decreases v
  {
    hide Collect, Cut, EncodeVariant, DecodeVariant, NormVariant, DecodeList, EncodeAll, DecodeString, EncodeString,
      VariantOk, Range;
    match v {
      case Raw(raw) => assert (raw + rest)[..|raw|] == raw && (raw + rest)[|raw|..] == rest;
      case Str(s) => StringRoundTrip(s, rest);
      case Var(x) => SupportedVariant(x); VariantRoundTrip(x, rest);
      case Pair(x, y) =>
        assert Encode(v).bytes + rest == Encode(x).bytes + (Encode(y).bytes + rest);
        RoundTrip(lt, ty.a, x, Encode(y).bytes + rest);
        RoundTrip(lt, ty.b, y, rest);
      case Vector(xs) => ListRoundTrip(lt, ty.of, xs, rest);
      case Set(xs) => ListRoundTrip(lt, ty.of, xs, rest);
      case Map(xs) => ListRoundTrip(lt, ty.of, xs, rest);
    }
  }

  lemma SupportedVariant(v: Variant)
    ensures EncodeVariant(v).ok <==> !v.Unsupported?
  {}

  lemma {:induction false} ListRoundTrip(lt: (Value, Value) -> bool, t: Ty, xs: seq<Value>, rest: seq<byte>)
    requires |xs| < Range(SIZEOF_SIZE_T) && EncodeAll(xs).ok
    requires forall i :: 0 <= i < |xs| ==> HasType(xs[i], t)
    ensures DecodeList(lt, t, SizeBytes(|xs|) + EncodeAll(xs).bytes + rest) == Done(NormAll(lt, xs), rest)
    decreases xs, 1
  {
    hide Range, EncodeAll, DecodeMany, DecodeNumber, HasType, NormAll;
    NumberRoundTrip(|xs|, SIZEOF_SIZE_T, EncodeAll(xs).bytes + rest);
    assert SizeBytes(|xs|) + EncodeAll(xs).bytes + rest == SizeBytes(|xs|) + (EncodeAll(xs).bytes + rest);
    ManyRoundTrip(lt, t, xs, rest);
  }

  lemma {:induction false} ManyRoundTrip(lt: (Value, Value) -> bool, t: Ty, xs: seq<Value>, rest: seq<byte>)
    requires EncodeAll(xs).ok && forall i :: 0 <= i < |xs| ==> HasType(xs[i], t)
    ensures DecodeMany(lt, t, |xs|, EncodeAll(xs).bytes + rest) == Done(NormAll(lt, xs), rest)
    decreases xs, 0
  {
    hide HasType, Encode, Decode, Norm;
    if |xs| == 0 {
      assert EncodeAll(xs).bytes + rest == rest;
    } else {
      var n := |xs| - 1;
      ManyRoundTrip(lt, t, xs[..n], Encode(xs[n]).bytes + rest);
      RoundTrip(lt, t, xs[n], rest);
      assert EncodeAll(xs).bytes + rest == EncodeAll(xs[..n]).bytes + (Encode(xs[n]).bytes + rest);
      assert NormAll(lt, xs[..n]) + [Norm(lt, xs[n])] == NormAll(lt, xs);
    }
  }
}
