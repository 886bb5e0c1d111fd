/**
 The Beam coder algebra: records, the fifteen coders, the nested encoder, the two
 decoders and the key codec. An encoder's `None` is a panic of the runner.
 */
module Coders {
  import opened Bytes
  import opened Utf8
  import Varint

  const MAX_LIST: nat := TWO_31 - 1

  /** Strings are held as their UTF-8 bytes and doubles as their bit pattern. */
  datatype Primitive =
    | Str(utf8: seq<Byte>)
    | Raw(bytes: seq<Byte>)
    | Int64(i: Int64)
    | Float64(bits: UInt64)
    | Boolean(b: bool)
    | Unit

  datatype Record =
    | Prim(value: Primitive)
    | Iter(list: seq<Record>)
    | KV(key: Primitive, payload: Record)
    | GBK(key: Primitive, list: seq<Record>)
    | Tup(values: seq<Primitive>)

  datatype Coder =
    | StringUtf8
    | BytesCoder
    | JavaOpaque
    | VarInt
    | VarInt32
    | Bool
    | Double
    | Void
    | Iterable(element: Coder)
    | Nullable(inner: Coder)
    | LengthPrefix
    | Pickle
    | Tuple(components: seq<Coder>)
    | Kv(keyCoder: Coder, valueCoder: Coder)
    | Gbk(keyCoder: Coder, element: Coder)

  /** Whether decoding always yields a primitive, so a key needs no opaque form. */
  predicate IsPrimitive(c: Coder) {
    match c
    case Nullable(inner) => IsPrimitive(inner)
    case Iterable(_) => false
    case Tuple(_) => false
    case Kv(_, _) => false
    case Gbk(_, _) => false
    case _ => true
  }

  // ----- encoding -----

  function Append(a: Option<seq<Byte>>, b: Option<seq<Byte>>): Option<seq<Byte>> {
    if a.Some? && b.Some? then Some(a.value + b.value) else None
  }

  /** `encode`: the nested encoding of a record. */
  function Encode(c: Coder, r: Record): Option<seq<Byte>>
    decreases c, 2, 0
  {
    match (c, r)
    case (Iterable(e), Iter(list)) => EncodeIterable(e, list)
    case (Tuple(cs), Tup(vs)) => EncodeTuple(cs, vs)
    case (Nullable(inner), _) => EncodeNullable(inner, r)
    case (Kv(k, v), KV(key, payload)) => Append(EncodeKey(k, key), Encode(v, payload))
    case (Kv(k, v), GBK(key, list)) =>
      if v.Iterable? then Append(EncodeKey(k, key), EncodeIterable(v.element, list)) else None
    case (Gbk(k, e), GBK(key, list)) => Append(EncodeKey(k, key), EncodeIterable(e, list))
    case (_, Prim(p)) => EncodePrimitive(c, p)
    case _ => None
  }

  function EncodePrimitive(c: Coder, p: Primitive): Option<seq<Byte>>
    decreases c, 1, 0
  {
    match (c, p)
    case (Nullable(inner), _) => EncodeNullable(inner, Prim(p))
    case (StringUtf8, Str(s)) => Some(Varint.EncodeDelimited(s))
    case (BytesCoder, Raw(b)) => Some(Varint.EncodeDelimited(b))
    case (JavaOpaque, Raw(b)) => Some(b)
    case (VarInt, Int64(i)) => Some(Varint.EncodeSigned(i))
    case (VarInt32, Int64(i)) => Some(Varint.Encode32(i))
    case (Bool, Boolean(b)) => Some([if b then 1 else 0])
    case (Double, Float64(bits)) => Some(BigEndian(8, bits))
    case (Void, Unit) => Some([])
    case (Pickle, Raw(b)) => Some(Varint.EncodeDelimited(b))
    case (LengthPrefix, Raw(b)) => Some(Varint.EncodeDelimited(b))
    case _ => None
  }

  function EncodeNullable(inner: Coder, r: Record): Option<seq<Byte>>
    decreases inner, 3, 0
  {
    if r == Prim(Unit) then Some([0]) else Append(Some([1]), Encode(inner, r))
  }

  function EncodeIterable(e: Coder, list: seq<Record>): Option<seq<Byte>>
    decreases e, 4, 0
  {
    if |list| > MAX_LIST then None else Append(Some(BigEndian(4, |list|)), EncodeList(e, list))
  }

  function EncodeList(e: Coder, list: seq<Record>): Option<seq<Byte>>
    decreases e, 3, |list|
  {
    if list == [] then Some([]) else Append(Encode(e, list[0]), EncodeList(e, list[1..]))
  }

  function EncodeTuple(cs: seq<Coder>, vs: seq<Primitive>): Option<seq<Byte>>
    decreases cs, 0, 0
  {
    if |cs| != |vs| then None
    else if cs == [] then Some([])
    else Append(Encode(cs[0], Prim(vs[0])), EncodeTuple(cs[1..], vs[1..]))
  }

  /** `encode_key`: a composite key already is its own encoding. */
  function EncodeKey(k: Coder, key: Primitive): Option<seq<Byte>>
    decreases k, 3, 0
  {
    if IsPrimitive(k) then EncodePrimitive(k, key)
    else if key.Raw? then Some(key.bytes)
    else None
  }

  // ----- decoding -----

  function Lift(p: Parse<Primitive>): Parse<Record> {
    match p case Failed(why) => Failed(why) case Done(v, rest) => Done(Prim(v), rest)
  }

  /** The leaf coders; composite coders are left to `Decode`. */
  function DecodeLeaf(c: Coder, s: seq<Byte>): (p: Parse<Primitive>)
    ensures p.Done? ==> |p.rest| <= |s|
  {
    match c
    case StringUtf8 =>
      (match Varint.DecodeDelimited(s)
       case Failed(why) => Failed(why)
       case Done(b, rest) => if ValidUtf8(b) then Done(Str(b), rest) else Failed(Error))
    case JavaOpaque => Done(Raw(s), [])
    case VarInt =>
      (match Varint.DecodeSigned(s) case Failed(why) => Failed(why) case Done(i, rest) => Done(Int64(i), rest))
    case VarInt32 =>
      (match Varint.Decode32(s) case Failed(why) => Failed(why) case Done(i, rest) => Done(Int64(i), rest))
    case Bool =>
      (match TakeByte(s) case Failed(why) => Failed(why) case Done(b, rest) => Done(Boolean(b != 0), rest))
    case Double => DecodeDouble(s)
    case Void => Done(Unit, s)
    case _ =>
      (match Varint.DecodeDelimited(s) case Failed(why) => Failed(why) case Done(b, rest) => Done(Raw(b), rest))
  }

  function DecodeDouble(s: seq<Byte>): (p: Parse<Primitive>)
    ensures p.Done? ==> |p.rest| <= |s|
  {
    if |s| < 8 then Failed(Error)
    else
      FromBigEndianRoundTrip(s[..8]);
      Pow256Values();
      Done(Float64(FromBigEndian(s[..8])), s[8..])
  }

  /** `decode_nested`. */
  function Decode(c: Coder, s: seq<Byte>): (p: Parse<Record>)
    ensures p.Done? ==> |p.rest| <= |s|
    decreases c, 0, 0
  {
    match c
    case Iterable(e) =>
      (match DecodeIterable(e, s) case Failed(why) => Failed(why) case Done(list, rest) => Done(Iter(list), rest))
    case Tuple(cs) =>
      (match DecodeTuple(cs, s) case Failed(why) => Failed(why) case Done(vs, rest) => Done(Tup(vs), rest))
    case Nullable(inner) =>
      (match TakeByte(s)
       case Failed(why) => Failed(why)
       case Done(b, rest) =>
         if b == 0 then Done(Prim(Unit), rest) else if b == 1 then Decode(inner, rest) else Failed(Error))
    case Kv(k, v) =>
      (match DecodeKey(k, s)
       case Failed(why) => Failed(why)
       case Done(key, s1) =>
         match Decode(v, s1) case Failed(why) => Failed(why) case Done(payload, rest) => Done(KV(key, payload), rest))
    case Gbk(k, e) =>
      (match DecodeKey(k, s)
       case Failed(why) => Failed(why)
       case Done(key, s1) =>
         match DecodeIterable(e, s1)
         case Failed(why) => Failed(why)
         case Done(list, rest) => Done(GBK(key, list), rest))
    case _ => Lift(DecodeLeaf(c, s))
  }

  /** `decode_key`: a composite key is kept as the canonical encoding of what it decodes to. */
  function DecodeKey(k: Coder, s: seq<Byte>): (p: Parse<Primitive>)
    ensures p.Done? ==> |p.rest| <= |s|
    decreases k, 1, 0
  {
    match Decode(k, s)
    case Failed(why) => Failed(why)
    case Done(r, rest) =>
      if IsPrimitive(k) then
        (if r.Prim? then Done(r.value, rest) else Failed(Error))
      else
        match Encode(k, r) case None => Failed(Panic) case Some(raw) => Done(Raw(raw), rest)
  }

  function DecodeTuple(cs: seq<Coder>, s: seq<Byte>): (p: Parse<seq<Primitive>>)
    ensures p.Done? ==> |p.rest| <= |s|
    decreases cs, 0, 0
  {
    if cs == [] then Done([], s)
    else
      match Decode(cs[0], s)
      case Failed(why) => Failed(why)
      case Done(r, s1) =>
        if !r.Prim? then Failed(Error)
        else Prepend([r.value], DecodeTuple(cs[1..], s1))
  }

  function DecodeIterable(e: Coder, s: seq<Byte>): (p: Parse<seq<Record>>)
    ensures p.Done? ==> |p.rest| <= |s|
    decreases e, 3, 0
  {
    match TakeNumber(4, s)
    case Failed(why) => Failed(why)
    case Done(count, rest) =>
      if count < TWO_31 then DecodeMany(e, count, rest)
      else if count == TWO_32 - 1 then DecodeChunks(e, rest)
      else Failed(Panic)
  }

  function DecodeMany(e: Coder, n: nat, s: seq<Byte>): (p: Parse<seq<Record>>)
    ensures p.Done? ==> |p.rest| <= |s|
    decreases e, 1, n
  {
    if n == 0 then Done([], s)
    else
      match Decode(e, s)
      case Failed(why) => Failed(why)
      case Done(r, s1) => Prepend([r], DecodeMany(e, n - 1, s1))
  }

  /** Chunks of counted elements, ended by an empty chunk. */
  function DecodeChunks(e: Coder, s: seq<Byte>): (p: Parse<seq<Record>>)
    ensures p.Done? ==> |p.rest| <= |s|
    decreases e, 2, |s|
  {
    match Varint.Decode(s)
    case Failed(why) => Failed(why)
    case Done(n, s1) =>
      if n == 0 then Done([], s1)
      else
        match DecodeMany(e, n, s1)
        case Failed(why) => Failed(why)
        case Done(chunk, s2) => Prepend(chunk, DecodeChunks(e, s2))
  }

  function Flatten<T>(chunks: seq<seq<T>>): seq<T> {
    if chunks == [] then [] else chunks[0] + Flatten(chunks[1..])
  }

  function Prepend<T>(xs: seq<T>, p: Parse<seq<T>>): Parse<seq<T>> {
    match p case Failed(why) => Failed(why) case Done(ys, rest) => Done(xs + ys, rest)
  }

  /** `decode_element`: the non-nested context, where the last field runs to the end of the buffer. */
  function DecodeElement(c: Coder, s: seq<Byte>): Parse<Record> {
    match c
    case StringUtf8 => if ValidUtf8(s) then Done(Prim(Str(s)), []) else Failed(Error)
    case BytesCoder => Done(Prim(Raw(s)), [])
    case Kv(k, v) =>
      (match DecodeKey(k, s)
       case Failed(why) => Failed(why)
       case Done(key, s1) =>
         match DecodeElement(v, s1)
         case Failed(why) => Failed(why)
         case Done(payload, rest) => Done(KV(key, payload), rest))
    case Gbk(k, e) =>
      (match DecodeKey(k, s)
       case Failed(why) => Failed(why)
       case Done(key, s1) =>
         match DecodeIterable(e, s1)
         case Failed(why) => Failed(why)
         case Done(list, rest) => Done(GBK(key, list), rest))
    case _ => Decode(c, s)
  }

  // ----- typing -----

  /** The records a coder is meant for. */
  ghost predicate HasType(c: Coder, r: Record)
    decreases c, 0
  {
    match c
    case StringUtf8 => r.Prim? && r.value.Str? && ValidUtf8(r.value.utf8) && |r.value.utf8| < TWO_64
    case BytesCoder => r.Prim? && r.value.Raw? && |r.value.bytes| < TWO_64
    case Pickle => r.Prim? && r.value.Raw? && |r.value.bytes| < TWO_64
    case LengthPrefix => r.Prim? && r.value.Raw? && |r.value.bytes| < TWO_64
    case JavaOpaque => r.Prim? && r.value.Raw?
    case VarInt => r.Prim? && r.value.Int64?
    case VarInt32 => r.Prim? && r.value.Int64? && -TWO_31 <= r.value.i < TWO_31
    case Bool => r.Prim? && r.value.Boolean?
    case Double => r.Prim? && r.value.Float64?
    case Void => r == Prim(Unit)
    case Iterable(e) => r.Iter? && |r.list| <= MAX_LIST && forall i :: 0 <= i < |r.list| ==> HasType(e, r.list[i])
    case Nullable(inner) => r == Prim(Unit) || HasType(inner, r)
    case Tuple(cs) =>
      r.Tup? && |r.values| == |cs| && forall i :: 0 <= i < |cs| ==> HasType(cs[i], Prim(r.values[i]))
    case Kv(k, v) =>
      if r.KV? then HasKeyType(k, r.key) && HasType(v, r.payload)
      else r.GBK? && v.Iterable? && HasKeyType(k, r.key) && HasType(v, Iter(r.list))
    case Gbk(k, e) =>
      && r.GBK? && HasKeyType(k, r.key) && |r.list| <= MAX_LIST
      && forall i :: 0 <= i < |r.list| ==> HasType(e, r.list[i])
  }

  /** A composite key is the encoding of some record of the key coder. */
  ghost predicate HasKeyType(k: Coder, key: Primitive)
    decreases k, 1
  {
    if IsPrimitive(k) then HasType(k, Prim(key))
    else key.Raw? && exists r :: HasType(k, r) && Encode(k, r) == Some(key.bytes)
  }

  /**
   What a record becomes on the wire and back: a grouped record written by a
   key-value coder with iterable values is read as a key and an iterable.
   */
  function Normal(c: Coder, r: Record): Record
    decreases c, 0, 0
  {
    match (c, r)
    case (Iterable(e), Iter(list)) => Iter(NormalList(e, list))
    case (Nullable(inner), _) => if r == Prim(Unit) then r else Normal(inner, r)
    case (Kv(_, v), KV(key, payload)) => KV(key, Normal(v, payload))
    case (Kv(_, v), GBK(key, list)) => if v.Iterable? then KV(key, Iter(NormalList(v.element, list))) else r
    case (Gbk(_, e), GBK(key, list)) => GBK(key, NormalList(e, list))
    case _ => r
  }

  function NormalList(e: Coder, list: seq<Record>): (out: seq<Record>)
    ensures |out| == |list|
    decreases e, 1, |list|
  {
    if list == [] then [] else [Normal(e, list[0])] + NormalList(e, list[1..])
  }

  // ----- framing -----

  /**
   A record that survives its trip: typed, and with every opaque Java leaf, which
   reads to the end of the buffer, followed by no byte at all. `last` says that
   nothing follows the record itself.
   */
  ghost predicate Sendable(c: Coder, r: Record, last: bool)
    decreases c, 0, 0
  {
    match c
    case JavaOpaque => HasType(c, r) && last
    case Iterable(e) => r.Iter? && |r.list| <= MAX_LIST && SendableList(e, r.list, last)
    case Nullable(inner) => r == Prim(Unit) || Sendable(inner, r, last)
    case Tuple(cs) => r.Tup? && SendableTuple(cs, r.values, last)
    case Kv(k, v) =>
      if r.KV? then
        Sendable(v, r.payload, last) && SendableKey(k, r.key, last && Encode(v, r.payload) == Some([]))
      else
        r.GBK? && v.Iterable? && Sendable(v, Iter(r.list), last) && SendableKey(k, r.key, false)
    case Gbk(k, e) =>
      r.GBK? && |r.list| <= MAX_LIST && SendableList(e, r.list, last) && SendableKey(k, r.key, false)
    case _ => HasType(c, r)
  }

  ghost predicate SendableKey(k: Coder, key: Primitive, last: bool)
    decreases k, 1, 0
  {
    if IsPrimitive(k) then Sendable(k, Prim(key), last)
    else key.Raw? && exists r :: Sendable(k, r, last) && Encode(k, r) == Some(key.bytes)
  }

  ghost predicate SendableList(e: Coder, list: seq<Record>, last: bool)
    decreases e, 1, |list|
  {
    list == [] ||
    (&& Sendable(e, list[0], last && EncodeList(e, list[1..]) == Some([]))
     && SendableList(e, list[1..], last))
  }

  ghost predicate SendableTuple(cs: seq<Coder>, vs: seq<Primitive>, last: bool)
    decreases cs, 0, 0
  {
    |cs| == |vs| &&
    (cs == [] ||
     (&& Sendable(cs[0], Prim(vs[0]), last && EncodeTuple(cs[1..], vs[1..]) == Some([]))
      && SendableTuple(cs[1..], vs[1..], last)))
  }

  /** No opaque Java leaf anywhere, except in final position when nothing follows the coder's value. */
  predicate Delimiting(c: Coder, last: bool)
    decreases c
  {
    match c
    case JavaOpaque => last
    case Iterable(e) => Delimiting(e, false)
    case Nullable(inner) => Delimiting(inner, last)
    case Tuple(cs) => forall i :: 0 <= i < |cs| ==> Delimiting(cs[i], last && i == |cs| - 1)
    case Kv(k, v) => Delimiting(k, false) && Delimiting(v, last)
    case Gbk(k, e) => Delimiting(k, false) && Delimiting(e, false)
    case _ => true
  }

  /** Every list is short enough for the 32-bit count the encoder writes. */
  predicate ListsFit(r: Record) {
    match r
    case Iter(list) => |list| <= MAX_LIST && forall i :: 0 <= i < |list| ==> ListsFit(list[i])
    case KV(_, payload) => ListsFit(payload)
    case GBK(_, list) => |list| <= MAX_LIST && forall i :: 0 <= i < |list| ==> ListsFit(list[i])
    case _ => true
  }
}
