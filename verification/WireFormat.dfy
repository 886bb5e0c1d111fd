/**
 The formats in literal numbers: what each coder puts on the wire, which lists and keys it
 takes, and which leaves make it delimit itself. Nothing here is said through the helpers
 that encoder and decoder share.
 */
module WireFormat {
  import opened Bytes
  import opened Coders
  import opened CoderGraph
  import opened CoderLaws
  import Truncation
  import Varint

  // ----- lists -----

  lemma {:induction false} ListEncodesIff(e: Coder, list: seq<Record>)
    ensures EncodeList(e, list).Some? <==> forall i :: 0 <= i < |list| ==> Encode(e, list[i]).Some?
    decreases |list|
  {
    if list == [] {
    } else {
      ListEncodesIff(e, list[1..]);
      assert forall i :: 0 < i < |list| ==> list[i] == list[1..][i - 1];
    }
  }

  /** The encoder takes a list exactly when it has fewer than 2^31 elements and takes each of them. */
  lemma {:induction false} IterableEncodesIff(e: Coder, list: seq<Record>)
    ensures Encode(Iterable(e), Iter(list)).Some? <==>
            |list| < 0x8000_0000 && forall i :: 0 <= i < |list| ==> Encode(e, list[i]).Some?
  {
    ListEncodesIff(e, list);
  }

  /** The same for a grouped record, under its own coder and under a key-value coder with iterable values. */
  lemma {:induction false} GroupedEncodesIff(k: Coder, e: Coder, key: Primitive, list: seq<Record>)
    ensures Encode(Gbk(k, e), GBK(key, list)).Some? <==>
            && EncodeKey(k, key).Some? && |list| < 0x8000_0000
            && forall i :: 0 <= i < |list| ==> Encode(e, list[i]).Some?
    ensures Encode(Kv(k, Iterable(e)), GBK(key, list)) == Encode(Gbk(k, e), GBK(key, list))
  {
    ListEncodesIff(e, list);
  }

  /** What a record must satisfy to be written again: fewer than 2^31 elements in every list, at every depth. */
  lemma ListsFitIff(r: Record)
    ensures r.Prim? || r.Tup? ==> ListsFit(r)
    ensures r.Iter? || r.GBK? ==>
              (ListsFit(r) <==> |r.list| < 0x8000_0000 && forall i :: 0 <= i < |r.list| ==> ListsFit(r.list[i]))
    ensures r.KV? ==> (ListsFit(r) <==> ListsFit(r.payload))
  {
  }

  /** A list is its length in four bytes, most significant first, and its elements. */
  lemma {:induction false} ListBytes(e: Coder, list: seq<Record>)
    requires Encode(Iterable(e), Iter(list)).Some?
    ensures EncodeList(e, list).Some?
    ensures var n := |list|;
            Encode(Iterable(e), Iter(list)).value ==
            [n / 0x100_0000 % 256, n / 0x1_0000 % 256, n / 0x100 % 256, n % 256] + EncodeList(e, list).value
  {
    FourBytes(|list|);
  }

  lemma FourBytes(n: nat)
    ensures BigEndian(4, n) == [n / 0x100_0000 % 256, n / 0x1_0000 % 256, n / 0x100 % 256, n % 256]
  {
    assert BigEndian(1, n / 0x100_0000) == [n / 0x100_0000 % 256];
    assert BigEndian(2, n / 0x1_0000) == [n / 0x100_0000 % 256, n / 0x1_0000 % 256];
    assert BigEndian(3, n / 0x100) == [n / 0x100_0000 % 256, n / 0x1_0000 % 256, n / 0x100 % 256];
  }

  /** Chunks are announced by four bytes of all ones, and any other count with the top bit set panics. */
  lemma {:induction false} CountBytes(e: Coder, b: seq<Byte>, s: seq<Byte>)
    requires |b| == 4
    ensures b == [0xFF, 0xFF, 0xFF, 0xFF] ==> DecodeIterable(e, b + s) == DecodeChunks(e, s)
    ensures b[0] >= 0x80 && b != [0xFF, 0xFF, 0xFF, 0xFF] ==> DecodeIterable(e, b + s) == Failed(Panic)
    ensures b[0] < 0x80 ==>
              DecodeIterable(e, b + s) == DecodeMany(e, Number(b[0], b[1], b[2], b[3]), s)
  {
    FourByteValue(b);
    TakeNumberPrefix(4, b, s);
    assert b[..4] == b && b[4..] + s == s;
  }

  /** Four bytes read as a number. */
  function Number(a: nat, b: nat, c: nat, d: nat): nat {
    0x100_0000 * a + 0x1_0000 * b + 0x100 * c + d
  }

  lemma FourByteValue(b: seq<Byte>)
    requires |b| == 4
    ensures FromBigEndian(b) == Number(b[0], b[1], b[2], b[3])
  {
    var b1, b2, b3 := b[..1], b[..2], b[..3];
    assert b3[..2] == b2 && b2[..1] == b1 && b1[..0] == [];
    assert FromBigEndian(b1) == b[0];
    assert FromBigEndian(b2) == Number(0, 0, b[0], b[1]);
    assert FromBigEndian(b3) == Number(0, b[0], b[1], b[2]);
  }

  // ----- keys -----

  /** The coder under any number of nullable ones. */
  function Base(c: Coder): Coder {
    if c.Nullable? then Base(c.inner) else c
  }

  predicate IsComposite(c: Coder) {
    c.Iterable? || c.Tuple? || c.Kv? || c.Gbk?
  }

  /** A nullable coder writes null as a zero byte; its base is what the others are decoded with. */
  lemma {:induction false} DecodedByBase(k: Coder, s: seq<Byte>)
    requires Decode(k, s).Done?
    ensures var r := Decode(k, s).value; r == Prim(Unit) || (r.Prim? <==> !IsComposite(Base(k)))
    ensures IsPrimitive(k) <==> !IsComposite(Base(k))
  {
    if !k.Nullable? {
    } else {
      var b := TakeByte(s);
      PrimitiveBase(k);
      if b.value == 1 {
        DecodedByBase(k.inner, b.rest);
      }
    }
  }

  lemma {:induction false} PrimitiveBase(k: Coder)
    ensures IsPrimitive(k) <==> !IsComposite(Base(k))
  {
    if !k.Nullable? {
    } else {
      PrimitiveBase(k.inner);
    }
  }

  lemma NullBytes(k: Coder)
    ensures k.Nullable? ==> Encode(k, Prim(Unit)) == Some([0])
  {
  }

  /**
   How a key is kept: a primitive as it is, a composite as the bytes of its canonical
   encoding, and null as null under a primitive coder and as the byte zero under a composite one.
   */
  lemma {:induction false} KeyKept(k: Coder, s: seq<Byte>)
    requires DecodeKey(k, s).Done?
    ensures Decode(k, s).Done?
    ensures var key, r := DecodeKey(k, s).value, Decode(k, s).value;
            && (r.Prim? && r != Prim(Unit) ==> key == r.value)
            && (!r.Prim? ==> key.Raw? && Encode(k, r) == Some(key.bytes))
            && (r == Prim(Unit) ==> key == if IsComposite(Base(k)) then Raw([0]) else Unit)
  {
    DecodedByBase(k, s);
    if k.Nullable? {
      NullBytes(k);
    }
  }

  /** And how it is written: a key of a primitive coder as a record of it, any other as its own bytes. */
  lemma {:induction false} KeyWritten(k: Coder, key: Primitive)
    ensures !IsComposite(Base(k)) ==> EncodeKey(k, key) == Encode(k, Prim(key))
    ensures IsComposite(Base(k)) ==> EncodeKey(k, key) == if key.Raw? then Some(key.bytes) else None
  {
    PrimitiveBase(k);
  }

  // ----- leaves -----

  /** A flag is one byte, and any byte but zero reads as true. */
  lemma {:induction false} BoolBytes(b: bool, x: Byte, t: seq<Byte>)
    ensures Encode(Bool, Prim(Boolean(b))) == Some([if b then 1 else 0])
    ensures Decode(Bool, [x] + t) == Done(Prim(Boolean(x != 0)), t)
  {
    assert ([x] + t)[1..] == t;
  }

  /** A null is a zero byte, any other value follows a byte one, and every other byte is an error. */
  lemma {:induction false} NullableBytes(inner: Coder, r: Record, x: Byte, t: seq<Byte>)
    ensures Encode(Nullable(inner), Prim(Unit)) == Some([0])
    ensures r != Prim(Unit) && Encode(inner, r).Some? ==>
              Encode(Nullable(inner), r) == Some([1] + Encode(inner, r).value)
    ensures Decode(Nullable(inner), [x] + t) ==
            if x == 0 then Done(Prim(Unit), t) else if x == 1 then Decode(inner, t) else Failed(Error)
  {
    assert ([x] + t)[1..] == t;
  }

  /** Strings and byte strings are a varint length and their bytes; opaque Java bytes stand alone; void is nothing. */
  lemma {:induction false} StringBytes(b: seq<Byte>)
    requires |b| < 0x1_0000_0000_0000_0000
    ensures Encode(StringUtf8, Prim(Str(b))) == Some(Varint.Encode(|b|) + b)
    ensures forall c :: c in [BytesCoder, Pickle, LengthPrefix] ==>
              Encode(c, Prim(Raw(b))) == Some(Varint.Encode(|b|) + b)
    ensures Encode(JavaOpaque, Prim(Raw(b))) == Some(b)
    ensures Encode(Void, Prim(Unit)) == Some([])
  {
    FitsIn64(|b|);
  }

  /** An integer is the varint of its two's complement, over 64 bits or over 32; a double its eight bytes. */
  lemma {:induction false} NumberBytes(i: Int64, bits: UInt64)
    ensures Encode(VarInt, Prim(Int64(i))) == Some(Varint.Encode(if i < 0 then i + 0x1_0000_0000_0000_0000 else i))
    ensures -0x8000_0000 <= i < 0x8000_0000 ==>
              Encode(VarInt32, Prim(Int64(i))) == Some(Varint.Encode(if i < 0 then i + 0x1_0000_0000 else i))
    ensures Encode(Double, Prim(Float64(bits))).Some?
    ensures var b := Encode(Double, Prim(Float64(bits))).value;
            |b| == 8 && forall j :: 0 <= j < 8 ==> b[j] == bits / Pow256(7 - j) % 256
  {
    forall j | 0 <= j < 8
      ensures BigEndian(8, bits)[j] == bits / Pow256(7 - j) % 256
    {
      BigEndianDigit(8, bits, j);
    }
  }

  // ----- self-delimitation -----

  /** The leaf coders of a tree. */
  function LeafCoders(c: Coder): set<Coder> {
    match c
    case Iterable(e) => LeafCoders(e)
    case Nullable(inner) => LeafCoders(inner)
    case Tuple(cs) => LeafCodersOf(cs)
    case Kv(k, v) => LeafCoders(k) + LeafCoders(v)
    case Gbk(k, e) => LeafCoders(k) + LeafCoders(e)
    case _ => {c}
  }

  function LeafCodersOf(cs: seq<Coder>): set<Coder> {
    if cs == [] then {} else LeafCoders(cs[0]) + LeafCodersOf(cs[1..])
  }

  lemma {:induction false} LeafCodersOfElements(cs: seq<Coder>, x: Coder)
    ensures x in LeafCodersOf(cs) <==> exists i :: 0 <= i < |cs| && x in LeafCoders(cs[i])
  {
    if cs == [] {
    } else {
      LeafCodersOfElements(cs[1..], x);
      if i :| 0 <= i < |cs[1..]| && x in LeafCoders(cs[1..][i]) {
        assert cs[i + 1] == cs[1..][i];
      }
      if i :| 0 < i < |cs| && x in LeafCoders(cs[i]) {
        assert cs[1..][i - 1] == cs[i];
      }
    }
  }

  /** A coder delimits itself exactly when no leaf of it is opaque Java bytes. */
  lemma {:induction false} DelimitsIffNoOpaqueLeaf(c: Coder)
    ensures Delimiting(c, false) <==> JavaOpaque !in LeafCoders(c)
  {
    match c
    case Iterable(e) => DelimitsIffNoOpaqueLeaf(e);
    case Nullable(e) => DelimitsIffNoOpaqueLeaf(e);
    case Tuple(cs) =>
      forall i | 0 <= i < |cs|
        ensures Delimiting(cs[i], false) <==> JavaOpaque !in LeafCoders(cs[i])
      {
        DelimitsIffNoOpaqueLeaf(cs[i]);
      }
      LeafCodersOfElements(cs, JavaOpaque);
    case Kv(k, v) => DelimitsIffNoOpaqueLeaf(k); DelimitsIffNoOpaqueLeaf(v);
    case Gbk(k, e) => DelimitsIffNoOpaqueLeaf(k); DelimitsIffNoOpaqueLeaf(e);
    case _ =>
  }

  /** A cut is never an error exactly when every leaf is an integer, a flag or void. */
  lemma {:induction false} InterruptibleIffLeaves(c: Coder)
    ensures Truncation.Interruptible(c) <==> LeafCoders(c) <= {VarInt, VarInt32, Bool, Void}
  {
    match c
    case Iterable(e) => InterruptibleIffLeaves(e);
    case Nullable(e) => InterruptibleIffLeaves(e);
    case Tuple(cs) =>
      forall i | 0 <= i < |cs|
        ensures Truncation.Interruptible(cs[i]) <==> LeafCoders(cs[i]) <= {VarInt, VarInt32, Bool, Void}
      {
        InterruptibleIffLeaves(cs[i]);
      }
      forall x {
        LeafCodersOfElements(cs, x);
      }
    case Kv(k, v) => InterruptibleIffLeaves(k); InterruptibleIffLeaves(v);
    case Gbk(k, e) => InterruptibleIffLeaves(k); InterruptibleIffLeaves(e);
    case _ =>
  }

  // ----- coder URNs -----

  /** The URN of an id: that of its spec, or the id itself without one. */
  ghost predicate Named(g: Graph, id: Id, urn: string) {
    if id in g && g[id].spec.Some? then g[id].spec.value.urn == urn else id == urn
  }

  /** What an id that names a leaf coder's URN writes. */
  lemma {:induction false} ResolvedLeafWrites(g: Graph, id: Id, c: Coder, p: Primitive)
    requires Resolves(g, id, c)
    ensures Named(g, id, "beam:coder:bool:v1") && p.Boolean? ==> Encode(c, Prim(p)) == Some([if p.b then 1 else 0])
    ensures Named(g, id, "beam:coder:double:v1") && p.Float64? ==> Encode(c, Prim(p)) == Some(BigEndian(8, p.bits))
    ensures Named(g, id, "beam:coder:varint:v1") && p.Int64? ==> Encode(c, Prim(p)) == Some(Varint.EncodeSigned(p.i))
    ensures Named(g, id, "beam:coder:string_utf8:v1") && p.Str? ==>
              Encode(c, Prim(p)) == Some(Varint.EncodeDelimited(p.utf8))
    ensures Named(g, id, "beam:coder:bytes:v1") && p.Raw? ==>
              Encode(c, Prim(p)) == Some(Varint.EncodeDelimited(p.bytes))
    ensures Named(g, id, "beam:coders:javasdk:0.1") && id == "VoidCoder" && p.Unit? ==> Encode(c, Prim(p)) == Some([])
    ensures Named(g, id, "beam:coders:javasdk:0.1") && id == "VarIntCoder" && p.Int64? ==>
              Encode(c, Prim(p)) == Some(Varint.Encode32(p.i))
    ensures Named(g, id, "beam:coders:javasdk:0.1") && id != "VoidCoder" && id != "VarIntCoder" && p.Raw? ==>
              Encode(c, Prim(p)) == Some(p.bytes)
  {
  }

  /** Which record a leaf coder takes tells it from the others, so the URN fixes the coder. */
  lemma {:induction false} ResolvedLeafIs(g: Graph, id: Id, c: Coder)
    requires Resolves(g, id, c)
    ensures Named(g, id, "beam:coder:bool:v1") <==> c == Bool
    ensures Named(g, id, "beam:coder:double:v1") <==> c == Double
    ensures Named(g, id, "beam:coder:varint:v1") <==> c == VarInt
    ensures Named(g, id, "beam:coder:string_utf8:v1") <==> c == StringUtf8
    ensures Named(g, id, "beam:coder:bytes:v1") <==> c == BytesCoder
    ensures Named(g, id, "beam:coder:pickled_python:v1") <==> c == Pickle
    ensures Named(g, id, "beam:coder:length_prefix:v1") <==> c == LengthPrefix
    ensures Named(g, id, "beam:coders:javasdk:0.1") <==> c == Void || c == VarInt32 || c == JavaOpaque
  {
  }

  /** A composite's tree is made of the trees of its components, of which there are as many as its URN says. */
  lemma {:induction false} ResolvedCompositeIs(g: Graph, id: Id, c: Coder)
    requires Resolves(g, id, c)
    ensures Named(g, id, "beam:coder:iterable:v1") <==> c.Iterable?
    ensures Named(g, id, "beam:coder:nullable:v1") <==> c.Nullable?
    ensures Named(g, id, "beam:coder:tuple:v1") <==> c.Tuple?
    ensures Named(g, id, "beam:coder:kv:v1") <==> c.Kv?
    ensures c.Iterable? || c.Nullable? || c.Tuple? || c.Kv? ==> id in g
    ensures c.Iterable? ==> |g[id].components| == 1 && Resolves(g, g[id].components[0], c.element)
    ensures c.Nullable? ==> |g[id].components| == 1 && Resolves(g, g[id].components[0], c.inner)
    ensures c.Kv? ==>
              && |g[id].components| == 2
              && Resolves(g, g[id].components[0], c.keyCoder) && Resolves(g, g[id].components[1], c.valueCoder)
    ensures c.Tuple? ==>
              && 0 < |g[id].components| == |c.components|
              && forall i :: 0 <= i < |c.components| ==> Resolves(g, g[id].components[i], c.components[i])
  {
  }
}
