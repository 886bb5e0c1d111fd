/**
 What a decoder does with a value that is cut short. Most reads run out of bytes and
 panic; a length prefix and a double check what remains first and return an error.
 */
module Truncation {
  import opened Bytes
  import opened Coders
  import opened CoderLaws
  import opened CoderLocality
  import Varint

  // ----- the fault, told from where the cut lies -----

  /**
   The fault of decoding only the first `n` bytes of a value that starts `s`: an error from
   the end of a length varint to the end of its payload and anywhere in a double, a panic
   everywhere else.
   */
  function FaultAt(c: Coder, s: seq<Byte>, n: nat): Fault
    decreases c, 0, 0
  {
    match c
    case Iterable(e) => FaultAtIterable(e, s, n)
    case Tuple(cs) => FaultAtTuple(cs, s, n)
    case Nullable(inner) => if n == 0 || s == [] then Panic else FaultAt(inner, s[1..], n - 1)
    case Kv(k, v) =>
      (match DecodeKey(k, s)
       case Failed(_) => Panic
       case Done(_, s1) => if n < |s| - |s1| then FaultAt(k, s, n) else FaultAt(v, s1, n - (|s| - |s1|)))
    case Gbk(k, e) =>
      (match DecodeKey(k, s)
       case Failed(_) => Panic
       case Done(_, s1) => if n < |s| - |s1| then FaultAt(k, s, n) else FaultAtIterable(e, s1, n - (|s| - |s1|)))
    case _ => FaultAtLeaf(c, s, n)
  }

  function FaultAtLeaf(c: Coder, s: seq<Byte>, n: nat): Fault {
    match c
    case Double => Error
    case StringUtf8 => FaultAtDelimited(s, n)
    case BytesCoder => FaultAtDelimited(s, n)
    case LengthPrefix => FaultAtDelimited(s, n)
    case Pickle => FaultAtDelimited(s, n)
    case _ => Panic
  }

  /** A length that has arrived is compared with what remains. */
  function FaultAtDelimited(s: seq<Byte>, n: nat): Fault {
    match Varint.Decode(s)
    case Failed(_) => Panic
    case Done(_, s1) => if n < |s| - |s1| then Panic else Error
  }

  function FaultAtTuple(cs: seq<Coder>, s: seq<Byte>, n: nat): Fault
    decreases cs, 0, 0
  {
    if cs == [] then Panic
    else
      match Decode(cs[0], s)
      case Failed(_) => Panic
      case Done(_, s1) =>
        if n < |s| - |s1| then FaultAt(cs[0], s, n) else FaultAtTuple(cs[1..], s1, n - (|s| - |s1|))
  }

  function FaultAtMany(e: Coder, count: nat, s: seq<Byte>, n: nat): Fault
    decreases e, 1, count
  {
    if count == 0 then Panic
    else
      match Decode(e, s)
      case Failed(_) => Panic
      case Done(_, s1) =>
        if n < |s| - |s1| then FaultAt(e, s, n) else FaultAtMany(e, count - 1, s1, n - (|s| - |s1|))
  }

  function FaultAtChunks(e: Coder, s: seq<Byte>, n: nat): Fault
    decreases e, 2, |s|, 0
  {
    match Varint.Decode(s)
    case Failed(_) => Panic
    case Done(count, s1) => if n < |s| - |s1| then Panic else FaultAtChunk(e, count, s1, n - (|s| - |s1|))
  }

  /** Inside one chunk of `count` elements, or in the chunks after it. */
  function FaultAtChunk(e: Coder, count: nat, s: seq<Byte>, n: nat): Fault
    decreases e, 2, |s|, 1
  {
    match DecodeMany(e, count, s)
    case Failed(_) => Panic
    case Done(_, s1) =>
      if n < |s| - |s1| then FaultAtMany(e, count, s, n) else FaultAtChunks(e, s1, n - (|s| - |s1|))
  }

  function FaultAtIterable(e: Coder, s: seq<Byte>, n: nat): Fault
    decreases e, 3, 0
  {
    if n < 4 || |s| < 4 then Panic
    else if FromBigEndian(s[..4]) < TWO_31 then FaultAtMany(e, FromBigEndian(s[..4]), s[4..], n - 4)
    else FaultAtChunks(e, s[4..], n - 4)
  }

  // ----- cuts -----

  /** Where a cut falls when `x + y` was read as `a` and then `w`. */
  lemma CutFallsIn(a: seq<Byte>, w: seq<Byte>, x: seq<Byte>, y: seq<Byte>) returns (z: seq<Byte>)
    requires a + w == x + y && y != []
    ensures if |x| < |a| then a == x + z && z != [] else x == a + z && w == z + y
  {
    if |x| < |a| {
      z := a[|x|..];
      assert a == (a + w)[..|a|] == (x + y)[..|a|];
      assert a[..|x|] == (x + y)[..|x|] == x;
      assert a == a[..|x|] + z;
    } else {
      z := x[|a|..];
      assert a == (a + w)[..|a|] == (x + y)[..|a|] == x[..|a|];
      assert x == x[..|a|] + z;
      assert w == (a + w)[|a|..] == (x + y)[|a|..] == z + y;
    }
  }

  lemma {:induction false} VarintFaultsPanic(s: seq<Byte>, k: nat)
    requires Varint.DecodeFrom(s, k).Failed?
    ensures Varint.DecodeFrom(s, k) == Failed(Panic)
    decreases |s|
  {
    if s == [] || k >= Varint.MAX_BYTES || s[0] < 128 {
    } else {
      VarintFaultsPanic(s[1..], k + 1);
    }
  }

  lemma CutVarint(x: seq<Byte>, y: seq<Byte>, rest: seq<Byte>, n: UInt64)
    requires y != [] && Varint.Decode((x + y) + rest) == Done(n, rest)
    ensures Varint.Decode(x) == Failed(Panic)
  {
    var p := Varint.Decode(x);
    if p.Done? {
      Varint.DecodeLocal(x, p.rest + (y + rest));
      UsedThenRest(x, p.rest);
      Associative(Used(x, p.rest), p.rest, y + rest);
      Associative(x, y, rest);
    } else {
      VarintFaultsPanic(x, 0);
    }
  }

  lemma {:induction false} CutDelimited(x: seq<Byte>, y: seq<Byte>, rest: seq<Byte>, b: seq<Byte>)
    requires y != [] && Varint.DecodeDelimited((x + y) + rest) == Done(b, rest)
    ensures Varint.DecodeDelimited(x) == Failed(FaultAtDelimited((x + y) + rest, |x|))
  {
    var s := (x + y) + rest;
    var n := Varint.Decode(s);
    Varint.DecodeLocal(s, []);
    assert IsSuffix(rest, n.rest);
    var a, w := CutBetween(x + y, rest, n.rest);
    var z := CutFallsIn(a, w, x, y);
    if |x| < |a| {
      CutVarint(x, z, n.rest, n.value);
    } else {
      VarintLocal(a, n.rest, n.value, z);
      assert |z| < |w| == n.value;
    }
  }

  lemma {:induction false} CutLeaf(c: Coder, x: seq<Byte>, y: seq<Byte>, rest: seq<Byte>, p: Primitive)
    requires IsLeaf(c) && !c.JavaOpaque? && y != [] && DecodeLeaf(c, (x + y) + rest) == Done(p, rest)
    ensures DecodeLeaf(c, x) == Failed(FaultAtLeaf(c, (x + y) + rest, |x|))
  {
    var s := (x + y) + rest;
    assert |s| == |x| + |y| + |rest|;
    if c == VarInt || c == VarInt32 {
      CutVarint(x, y, rest, Varint.Decode(s).value);
    } else if c == StringUtf8 || c == BytesCoder || c == LengthPrefix || c == Pickle {
      CutDelimited(x, y, rest, Varint.DecodeDelimited(s).value);
    }
  }

  /**
   Every value of a self-delimiting coder, cut anywhere, faults as its bytes say: the whole
   wire tells a sender which cuts the receiver will take for an under-run.
   */
  lemma {:induction false} CutRecord(c: Coder, x: seq<Byte>, y: seq<Byte>, rest: seq<Byte>, r: Record)
    requires Delimiting(c, false) && y != [] && Decode(c, (x + y) + rest) == Done(r, rest)
    ensures Decode(c, x) == Failed(FaultAt(c, (x + y) + rest, |x|))
    decreases c, 1, 0
  {
    if c.Iterable? {
      CutIterable(c.element, x, y, rest, r.list);
    } else if c.Nullable? {
      CutNullable(c, c.inner, x, y, rest, r);
    } else if c.Tuple? {
      CutTuple(c.components, x, y, rest, r.values);
    } else if c.Kv? {
      CutKv(c, c.keyCoder, c.valueCoder, x, y, rest, r);
    } else if c.Gbk? {
      CutGbk(c, c.keyCoder, c.element, x, y, rest, r);
    } else {
      CutLeaf(c, x, y, rest, r.value);
    }
  }

  lemma {:induction false} CutNullable(
    c: Coder, inner: Coder, x: seq<Byte>, y: seq<Byte>, rest: seq<Byte>, r: Record)
    requires c == Nullable(inner) && Delimiting(c, false) && y != [] && Decode(c, (x + y) + rest) == Done(r, rest)
    ensures Decode(c, x) == Failed(FaultAt(c, (x + y) + rest, |x|))
    decreases c, 0, 0
  {
    if x != [] {
      var s := (x + y) + rest;
      assert s[0] == x[0] && s[1..] == (x[1..] + y) + rest;
      assert |s[1..]| > |rest|;
      if x[0] == 1 {
        CutRecord(inner, x[1..], y, rest, r);
      }
    }
  }

  lemma {:induction false} CutKey(k: Coder, x: seq<Byte>, y: seq<Byte>, rest: seq<Byte>, key: Primitive)
    requires Delimiting(k, false) && y != [] && DecodeKey(k, (x + y) + rest) == Done(key, rest)
    ensures DecodeKey(k, x) == Failed(FaultAt(k, (x + y) + rest, |x|))
    decreases k, 2, 0
  {
    CutRecord(k, x, y, rest, Decode(k, (x + y) + rest).value);
  }

  lemma {:induction false} CutKv(c: Coder, k: Coder, v: Coder, x: seq<Byte>, y: seq<Byte>, rest: seq<Byte>, r: Record)
    requires c == Kv(k, v) && Delimiting(c, false) && y != [] && Decode(c, (x + y) + rest) == Done(r, rest)
    ensures Decode(c, x) == Failed(FaultAt(c, (x + y) + rest, |x|))
    decreases c, 0, 0
  {
    var s := (x + y) + rest;
    KvDecodeSplits(k, v, s);
    var s1 := DecodeKey(k, s).rest;
    KeySuffix(k, s);
    DecodeSuffix(v, s1);
    var a, w := CutBetween(x + y, rest, s1);
    var z := CutFallsIn(a, w, x, y);
    assert |a| == |s| - |s1|;
    KvFault(k, v, s, s1, |x|);
    if |x| < |a| {
      CutKey(k, x, z, s1, r.key);
    } else {
      KeyLocal(k, a, s1, r.key, z);
      CutRecord(v, z, y, rest, r.payload);
    }
  }

  lemma {:induction false} KvFault(k: Coder, v: Coder, s: seq<Byte>, s1: seq<Byte>, n: nat)
    requires DecodeKey(k, s).Done? && DecodeKey(k, s).rest == s1
    ensures FaultAt(Kv(k, v), s, n) ==
            if n < |s| - |s1| then FaultAt(k, s, n) else FaultAt(v, s1, n - (|s| - |s1|))
  {
  }

  lemma {:induction false} GbkFault(k: Coder, e: Coder, s: seq<Byte>, s1: seq<Byte>, n: nat)
    requires DecodeKey(k, s).Done? && DecodeKey(k, s).rest == s1
    ensures FaultAt(Gbk(k, e), s, n) ==
            if n < |s| - |s1| then FaultAt(k, s, n) else FaultAtIterable(e, s1, n - (|s| - |s1|))
  {
  }

  lemma {:induction false} CutGbk(c: Coder, k: Coder, e: Coder, x: seq<Byte>, y: seq<Byte>, rest: seq<Byte>, r: Record)
    requires c == Gbk(k, e) && Delimiting(c, false) && y != [] && Decode(c, (x + y) + rest) == Done(r, rest)
    ensures Decode(c, x) == Failed(FaultAt(c, (x + y) + rest, |x|))
    decreases c, 0, 0
  {
    var s := (x + y) + rest;
    GbkDecodeSplits(k, e, s);
    var s1 := DecodeKey(k, s).rest;
    KeySuffix(k, s);
    IterableSuffix(e, s1);
    var a, w := CutBetween(x + y, rest, s1);
    var z := CutFallsIn(a, w, x, y);
    assert |a| == |s| - |s1|;
    GbkFault(k, e, s, s1, |x|);
    if |x| < |a| {
      CutKey(k, x, z, s1, r.key);
    } else {
      KeyLocal(k, a, s1, r.key, z);
      CutIterable(e, z, y, rest, r.list);
    }
  }

  lemma {:induction false} TupleFails(cs: seq<Coder>, s: seq<Byte>, a: seq<Byte>, s1: seq<Byte>, x: seq<Byte>)
    requires cs != [] && s == a + s1 && Decode(cs[0], s).Done? && Decode(cs[0], s).rest == s1
    ensures FaultAtTuple(cs, s, |x|) ==
            if |x| < |a| then FaultAt(cs[0], s, |x|) else FaultAtTuple(cs[1..], s1, |x| - |a|)
    ensures Decode(cs[0], x).Failed? ==> DecodeTuple(cs, x) == Failed(Decode(cs[0], x).why)
  {
  }

  lemma {:induction false} CutTuple(cs: seq<Coder>, x: seq<Byte>, y: seq<Byte>, rest: seq<Byte>, vs: seq<Primitive>)
    requires forall i :: 0 <= i < |cs| ==> Delimiting(cs[i], false)
    requires y != [] && DecodeTuple(cs, (x + y) + rest) == Done(vs, rest)
    ensures DecodeTuple(cs, x) == Failed(FaultAtTuple(cs, (x + y) + rest, |x|))
    decreases cs, 0, 0
  {
    var s := (x + y) + rest;
    assert |s| == |x| + |y| + |rest|;
    if cs == [] {
    } else {
      var p := Decode(cs[0], s);
      DecodeSuffix(cs[0], s);
      TupleSuffix(cs[1..], p.rest);
      var a, w := CutBetween(x + y, rest, p.rest);
      var z := CutFallsIn(a, w, x, y);
      TupleFails(cs, s, a, p.rest, x);
      if |x| < |a| {
        CutRecord(cs[0], x, z, p.rest, p.value);
      } else {
        DecodeLocal(cs[0], a, p.rest, p.value, z);
        CutTuple(cs[1..], z, y, rest, DecodeTuple(cs[1..], p.rest).value);
      }
    }
  }

  lemma {:induction false} NoneUsed(e: Coder, x: seq<Byte>, y: seq<Byte>, rest: seq<Byte>)
    requires y != []
    ensures DecodeMany(e, 0, (x + y) + rest).Done? && DecodeMany(e, 0, (x + y) + rest).rest != rest
  {
    assert |(x + y) + rest| > |rest|;
  }

  lemma {:induction false} CutMany(
    e: Coder, n: nat, x: seq<Byte>, y: seq<Byte>, rest: seq<Byte>, list: seq<Record>)
    requires Delimiting(e, false) && y != [] && DecodeMany(e, n, (x + y) + rest) == Done(list, rest)
    ensures DecodeMany(e, n, x) == Failed(FaultAtMany(e, n, (x + y) + rest, |x|))
    decreases e, 2, n, 1
  {
    if n == 0 {
      NoneUsed(e, x, y, rest);
    } else {
      var s, m := (x + y) + rest, n - 1;
      DecodeManySplits(e, n, s);
      var p := Decode(e, s);
      CutManyCons(e, m, x, y, rest, p.value, p.rest, DecodeMany(e, m, p.rest).value);
      assert n == m + 1;
    }
  }

  lemma {:induction false} ManyCutInHead(e: Coder, n: nat, x: seq<Byte>, s: seq<Byte>, s1: seq<Byte>)
    requires Decode(e, s).Done? && Decode(e, s).rest == s1 && |x| < |s| - |s1|
    requires Decode(e, x) == Failed(FaultAt(e, s, |x|))
    ensures DecodeMany(e, n + 1, x) == Failed(FaultAtMany(e, n + 1, s, |x|))
  {
  }

  lemma {:induction false} ManyCutInTail(
    e: Coder, n: nat, x: seq<Byte>, z: seq<Byte>, s: seq<Byte>, s1: seq<Byte>)
    requires Decode(e, s).Done? && Decode(e, s).rest == s1 && |x| - |z| == |s| - |s1|
    requires Decode(e, x).Done? && Decode(e, x).rest == z && DecodeMany(e, n, z) == Failed(FaultAtMany(e, n, s1, |z|))
    ensures DecodeMany(e, n + 1, x) == Failed(FaultAtMany(e, n + 1, s, |x|))
  {
  }

  lemma {:induction false} CutManyCons(
    e: Coder, n: nat, x: seq<Byte>, y: seq<Byte>, rest: seq<Byte>, r: Record, s1: seq<Byte>, tail: seq<Record>)
    requires Delimiting(e, false) && y != [] && Decode(e, (x + y) + rest) == Done(r, s1)
    requires DecodeMany(e, n, s1) == Done(tail, rest)
    ensures DecodeMany(e, n + 1, x) == Failed(FaultAtMany(e, n + 1, (x + y) + rest, |x|))
    decreases e, 2, n + 1, 0
  {
    var s := (x + y) + rest;
    DecodeSuffix(e, s);
    ManySuffix(e, n, s1);
    var a, w := CutBetween(x + y, rest, s1);
    var z := CutFallsIn(a, w, x, y);
    assert |a| == |s| - |s1|;
    if |x| < |a| {
      CutRecord(e, x, z, s1, r);
      ManyCutInHead(e, n, x, s, s1);
    } else {
      DecodeLocal(e, a, s1, r, z);
      CutMany(e, n, z, y, rest, tail);
      ManyCutInTail(e, n, x, z, s, s1);
    }
  }

  lemma {:induction false} CutChunks(e: Coder, x: seq<Byte>, y: seq<Byte>, rest: seq<Byte>, list: seq<Record>)
    requires Delimiting(e, false) && y != [] && DecodeChunks(e, (x + y) + rest) == Done(list, rest)
    ensures DecodeChunks(e, x) == Failed(FaultAtChunks(e, (x + y) + rest, |x|))
    decreases e, 3, |x|, 1
  {
    var s := (x + y) + rest;
    DecodeChunksSplits(e, s);
    var n := Varint.Decode(s);
    Varint.DecodeLocal(s, []);
    if n.value == 0 {
      CutVarint(x, y, rest, 0);
    } else {
      CutChunksCons(e, x, y, rest, n.value, n.rest);
    }
  }

  lemma {:induction false} CutChunksCons(
    e: Coder, x: seq<Byte>, y: seq<Byte>, rest: seq<Byte>, count: UInt64, s1: seq<Byte>)
    requires Delimiting(e, false) && y != [] && count != 0 && Varint.Decode((x + y) + rest) == Done(count, s1)
    requires DecodeMany(e, count, s1).Done?
    requires var p := DecodeChunks(e, DecodeMany(e, count, s1).rest); p.Done? && p.rest == rest
    ensures DecodeChunks(e, x) == Failed(FaultAtChunks(e, (x + y) + rest, |x|))
    decreases e, 3, |x|, 0
  {
    var s := (x + y) + rest;
    var p := DecodeMany(e, count, s1);
    Varint.DecodeLocal(s, []);
    ManySuffix(e, count, s1);
    ChunksSuffix(e, p.rest);
    SuffixTransitive(rest, p.rest, s1);
    var a, w := CutBetween(x + y, rest, s1);
    var z := CutFallsIn(a, w, x, y);
    assert |a| == |s| - |s1|;
    if |x| < |a| {
      CutVarint(x, z, s1, count);
      ChunksCutInCount(e, x, s, count, s1);
    } else {
      VarintLocal(a, s1, count, z);
      CutChunk(e, z, y, rest, count);
      ChunksCutLater(e, x, z, s, count, s1);
    }
  }

  lemma {:induction false} ChunksCutInCount(
    e: Coder, x: seq<Byte>, s: seq<Byte>, count: UInt64, s1: seq<Byte>)
    requires Varint.Decode(s) == Done(count, s1) && |x| < |s| - |s1| && Varint.Decode(x) == Failed(Panic)
    ensures DecodeChunks(e, x) == Failed(FaultAtChunks(e, s, |x|))
  {
  }

  lemma {:induction false} ChunksCutLater(
    e: Coder, x: seq<Byte>, z: seq<Byte>, s: seq<Byte>, count: UInt64, s1: seq<Byte>)
    requires count != 0 && Varint.Decode(s) == Done(count, s1) && Varint.Decode(x) == Done(count, z)
    requires |x| - |z| == |s| - |s1| && ChunkFails(e, count, z, FaultAtChunk(e, count, s1, |z|))
    ensures DecodeChunks(e, x) == Failed(FaultAtChunks(e, s, |x|))
  {
  }

  /** The chunk that starts `z`, or the chunks after it, fault with `why`. */
  predicate ChunkFails(e: Coder, count: nat, z: seq<Byte>, why: Fault) {
    var p := DecodeMany(e, count, z);
    p == Failed(why) || (p.Done? && DecodeChunks(e, p.rest) == Failed(why))
  }

  /** A chunk whose count has arrived, cut among its elements or in what follows them. */
  lemma {:induction false} CutChunk(e: Coder, x: seq<Byte>, y: seq<Byte>, rest: seq<Byte>, count: nat)
    requires Delimiting(e, false) && y != [] && DecodeMany(e, count, (x + y) + rest).Done?
    requires var p := DecodeChunks(e, DecodeMany(e, count, (x + y) + rest).rest); p.Done? && p.rest == rest
    ensures ChunkFails(e, count, x, FaultAtChunk(e, count, (x + y) + rest, |x|))
    decreases e, 3, |x|, 2
  {
    var s := (x + y) + rest;
    var p := DecodeMany(e, count, s);
    ManySuffix(e, count, s);
    ChunksSuffix(e, p.rest);
    var a, w := CutBetween(x + y, rest, p.rest);
    var z := CutFallsIn(a, w, x, y);
    assert |a| == |s| - |p.rest|;
    if |x| < |a| {
      CutMany(e, count, x, z, p.rest, p.value);
    } else {
      ManyLocal(e, count, a, p.rest, p.value, z);
      CutChunks(e, z, y, rest, DecodeChunks(e, p.rest).value);
    }
    ChunkFault(e, s, count, p.rest, x, z);
  }

  lemma {:induction false} ChunkFault(
    e: Coder, s: seq<Byte>, count: nat, s1: seq<Byte>, x: seq<Byte>, z: seq<Byte>)
    requires DecodeMany(e, count, s).Done? && DecodeMany(e, count, s).rest == s1
    requires if |x| < |s| - |s1| then DecodeMany(e, count, x) == Failed(FaultAtMany(e, count, s, |x|))
             else
               var p := DecodeMany(e, count, x);
               && p.Done? && p.rest == z && |x| - |z| == |s| - |s1|
               && DecodeChunks(e, z) == Failed(FaultAtChunks(e, s1, |z|))
    ensures ChunkFails(e, count, x, FaultAtChunk(e, count, s, |x|))
  {
  }

  lemma {:induction false} CutIterable(e: Coder, x: seq<Byte>, y: seq<Byte>, rest: seq<Byte>, list: seq<Record>)
    requires Delimiting(e, false) && y != [] && DecodeIterable(e, (x + y) + rest) == Done(list, rest)
    ensures DecodeIterable(e, x) == Failed(FaultAtIterable(e, (x + y) + rest, |x|))
    decreases e, 4, 0
  {
    if |x| >= 4 {
      TakeNumberPrefix(4, x, y + rest);
      Associative(x, y, rest);
      Associative(x[4..], y, rest);
      var n := FromBigEndian(x[..4]);
      if n < TWO_31 {
        CutMany(e, n, x[4..], y, rest, list);
      } else {
        CutChunks(e, x[4..], y, rest, list);
      }
    }
  }

  // ----- coders that never return an error on a cut -----

  /**
   No leaf of the coder checks the remaining length before reading, so running out of
   bytes is always a panic. The other leaves return an error instead.
   */
  predicate Interruptible(c: Coder) {
    match c
    case Iterable(e) => Interruptible(e)
    case Nullable(inner) => Interruptible(inner)
    case Tuple(cs) => forall i :: 0 <= i < |cs| ==> Interruptible(cs[i])
    case Kv(k, v) => Interruptible(k) && Interruptible(v)
    case Gbk(k, e) => Interruptible(k) && Interruptible(e)
    case _ => c == VarInt || c == VarInt32 || c == Bool || c == Void
  }

  lemma {:induction false} InterruptibleDelimits(c: Coder)
    requires Interruptible(c)
    ensures Delimiting(c, false)
  {
    match c
    case Iterable(e) => InterruptibleDelimits(e);
    case Nullable(inner) => InterruptibleDelimits(inner);
    case Tuple(cs) =>
      forall i | 0 <= i < |cs|
        ensures Delimiting(cs[i], false)
      {
        InterruptibleDelimits(cs[i]);
      }
    case Kv(k, v) => InterruptibleDelimits(k); InterruptibleDelimits(v);
    case Gbk(k, e) => InterruptibleDelimits(k); InterruptibleDelimits(e);
    case _ =>
  }

  /** No cut of a value is an error. */
  ghost predicate NeverErrs(c: Coder) {
    forall s: seq<Byte>, n: nat :: FaultAt(c, s, n) == Panic
  }

  lemma {:induction false} InterruptibleNeverErrs(c: Coder)
    requires Interruptible(c)
    ensures NeverErrs(c)
  {
    if c.Iterable? {
      InterruptibleNeverErrs(c.element);
      IterableNeverErrs(c.element);
    } else if c.Tuple? {
      forall i | 0 <= i < |c.components|
        ensures NeverErrs(c.components[i])
      {
        InterruptibleNeverErrs(c.components[i]);
      }
      TupleNeverErrs(c.components);
    } else if c.Nullable? {
      InterruptibleNeverErrs(c.inner);
    } else if c.Kv? {
      InterruptibleNeverErrs(c.keyCoder);
      InterruptibleNeverErrs(c.valueCoder);
      KvNeverErrs(c.keyCoder, c.valueCoder);
    } else if c.Gbk? {
      InterruptibleNeverErrs(c.keyCoder);
      InterruptibleNeverErrs(c.element);
      GbkNeverErrs(c.keyCoder, c.element);
    }
  }

  lemma {:induction false} KvNeverErrs(k: Coder, v: Coder)
    requires NeverErrs(k) && NeverErrs(v)
    ensures NeverErrs(Kv(k, v))
  {
    forall s: seq<Byte>, n: nat
      ensures FaultAt(Kv(k, v), s, n) == Panic
    {
      if DecodeKey(k, s).Done? {
        KvFault(k, v, s, DecodeKey(k, s).rest, n);
      }
    }
  }

  lemma {:induction false} GbkNeverErrs(k: Coder, e: Coder)
    requires NeverErrs(k) && NeverErrs(e)
    ensures NeverErrs(Gbk(k, e))
  {
    forall s: seq<Byte>, n: nat
      ensures FaultAt(Gbk(k, e), s, n) == Panic
    {
      var p := DecodeKey(k, s);
      if p.Done? {
        GbkFault(k, e, s, p.rest, n);
        if n >= |s| - |p.rest| {
          ListNeverErrs(e, p.rest, n - (|s| - |p.rest|));
        }
      }
    }
  }

  lemma {:induction false} TupleNeverErrs(cs: seq<Coder>)
    requires forall i :: 0 <= i < |cs| ==> NeverErrs(cs[i])
    ensures NeverErrs(Tuple(cs))
  {
    forall s: seq<Byte>, n: nat
      ensures FaultAt(Tuple(cs), s, n) == Panic
    {
      TupleFaultPanics(cs, s, n);
    }
  }

  lemma {:induction false} TupleFaultPanics(cs: seq<Coder>, s: seq<Byte>, n: nat)
    requires forall i :: 0 <= i < |cs| ==> NeverErrs(cs[i])
    ensures FaultAtTuple(cs, s, n) == Panic
    decreases |cs|
  {
    if cs == [] || Decode(cs[0], s).Failed? {
    } else {
      var s1 := Decode(cs[0], s).rest;
      if n >= |s| - |s1| { TupleFaultPanics(cs[1..], s1, n - (|s| - |s1|)); }
    }
  }

  lemma {:induction false} IterableNeverErrs(e: Coder)
    requires NeverErrs(e)
    ensures NeverErrs(Iterable(e))
  {
    forall s: seq<Byte>, n: nat
      ensures FaultAt(Iterable(e), s, n) == Panic
    {
      ListNeverErrs(e, s, n);
    }
  }

  lemma {:induction false} ManyNeverErr(e: Coder, count: nat, s: seq<Byte>, n: nat)
    requires NeverErrs(e)
    ensures FaultAtMany(e, count, s, n) == Panic
    decreases count
  {
    if count == 0 {
    } else {
      var p := Decode(e, s);
      if p.Done? && n >= |s| - |p.rest| {
        ManyNeverErr(e, count - 1, p.rest, n - (|s| - |p.rest|));
      }
    }
  }

  lemma {:induction false} ChunksNeverErr(e: Coder, s: seq<Byte>, n: nat)
    requires NeverErrs(e)
    ensures FaultAtChunks(e, s, n) == Panic
    decreases |s|
  {
    var p := Varint.Decode(s);
    if p.Failed? || n < |s| - |p.rest| {
    } else {
      var m := n - (|s| - |p.rest|);
      var q := DecodeMany(e, p.value, p.rest);
      ManyNeverErr(e, p.value, p.rest, m);
      if q.Done? && m >= |p.rest| - |q.rest| {
        ChunksNeverErr(e, q.rest, m - (|p.rest| - |q.rest|));
      }
    }
  }

  lemma {:induction false} ListNeverErrs(e: Coder, s: seq<Byte>, n: nat)
    requires NeverErrs(e)
    ensures FaultAtIterable(e, s, n) == Panic
  {
    if n >= 4 && |s| >= 4 {
      ManyNeverErr(e, FromBigEndian(s[..4]), s[4..], n - 4);
      ChunksNeverErr(e, s[4..], n - 4);
    }
  }
}
