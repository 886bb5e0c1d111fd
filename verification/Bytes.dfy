/**
 The byte-level vocabulary shared by every codec: machine integers, big-endian
 fields, the result of a decoder, and the two buffers the Rust code threads
 through its coders (`BufMut` for writing, `Buf` for reading).
 */
module Bytes {

  const TWO_31: int := 0x8000_0000
  const TWO_32: int := 0x1_0000_0000
  const TWO_63: int := 0x8000_0000_0000_0000
  const TWO_64: int := 0x1_0000_0000_0000_0000

  type Byte = b: int | 0 <= b < 256
  type Int32 = i: int | -TWO_31 <= i < TWO_31
  type Int64 = i: int | -TWO_63 <= i < TWO_63
  type UInt64 = u: int | 0 <= u < TWO_64

  datatype Option<+T> = None | Some(value: T)

  /** What a loop that has gathered `done` returns, if the rest of its work yields `rest`. */
  function Joined<T>(done: seq<T>, rest: Option<seq<T>>): Option<seq<T>> {
    match rest case None => None case Some(xs) => Some(done + xs)
  }

  lemma JoinedNothing<T>(rest: Option<seq<T>>)
    ensures Joined([], rest) == rest
  {
    if rest.Some? {
      assert [] + rest.value == rest.value;
    }
  }

  lemma JoinedAssociative<T>(xs: seq<T>, ys: seq<T>, rest: Option<seq<T>>)
    ensures Joined(xs, Joined(ys, rest)) == Joined(xs + ys, rest)
  {
    if rest.Some? {
      assert xs + (ys + rest.value) == (xs + ys) + rest.value;
    }
  }

  /** The two ways the runner's decoders fail: a panic (mostly an under-run) or a returned error. */
  datatype Fault = Panic | Error

  /** What a decoder does to a buffer: a value and the bytes after it, or a fault. */
  datatype Parse<+T> = Failed(why: Fault) | Done(value: T, rest: seq<Byte>)

  /** What a decoding method returns. */
  datatype Result<+T> = Ok(value: T) | Err(fault: Fault) {
    predicate IsFailure() {
      Err?
    }

    function PropagateFailure<U>(): Result<U>
      requires Err?
    {
      Err(fault)
    }

    function Extract(): T
      requires Ok?
    {
      value
    }
  }

  lemma FitsIn32(n: nat)
    requires n < TWO_32
    ensures n % TWO_32 == n
  {
  }

  lemma FitsIn64(n: nat)
    requires n < TWO_64
    ensures n % TWO_64 == n
  {
  }

  /** Rust's `i64 as u64`. */
  function AsUnsigned(i: Int64): UInt64 {
    if i < 0 then i + TWO_64 else i
  }

  /** Rust's `u64 as i64`. */
  function AsSigned(u: UInt64): Int64 {
    if u < TWO_63 then u else u - TWO_64
  }

  /** Reduction of a mathematical integer to `i64`, as release-mode arithmetic does. */
  function Wrap64(i: int): (r: Int64)
    ensures (r - i) % TWO_64 == 0
  {
    AsSigned(i % TWO_64)
  }

  function Pow256(n: nat): (p: nat)
    ensures p > 0
  {
    if n == 0 then 1 else 256 * Pow256(n - 1)
  }

  lemma Pow256Values()
    ensures Pow256(4) == TWO_32 && Pow256(8) == TWO_64
  {
    assert Pow256(2) == 0x1_0000;
    assert Pow256(4) == TWO_32;
    assert Pow256(6) == 0x1_0000_0000_0000;
  }

  /** The low `n` bytes of `x`, most significant first. */
  function BigEndian(n: nat, x: nat): (s: seq<Byte>)
    ensures |s| == n
  {
    if n == 0 then [] else BigEndian(n - 1, x / 256) + [x % 256]
  }

  /** Each byte is a digit of the number to the base 256. */
  lemma {:induction false} BigEndianDigit(n: nat, x: nat, j: nat)
    requires j < n
    ensures BigEndian(n, x)[j] == x / Pow256(n - 1 - j) % 256
  {
    if j == n - 1 {
    } else {
      BigEndianDigit(n - 1, x / 256, j);
      var p := Pow256(n - 2 - j);
      assert x / 256 / p == x / (256 * p) by { DivDiv(x, 256, p); }
    }
  }

  lemma DivDiv(x: nat, a: nat, b: nat)
    requires a > 0 && b > 0
    ensures a * b > 0 && x / a / b == x / (a * b)
  {
    var y, r := x / a, x % a;
    var q, t := y / b, y % b;
    DivMod(x, a);
    DivMod(y, b);
    MulRegroup(a, b, q, t, r);
    DivUnique(x, a * b, q, a * t + r);
  }

  lemma DivMod(x: nat, d: nat)
    requires d > 0
    ensures x == d * (x / d) + x % d && 0 <= x % d < d
  {
  }

  lemma MulRegroup(a: nat, b: nat, q: nat, t: nat, r: nat)
    requires t < b && r < a
    ensures a * (b * q + t) + r == (a * b) * q + (a * t + r)
    ensures 0 <= a * t + r < a * b
  {
    assert a * (b * q) == (a * b) * q;
    assert a * t <= a * (b - 1);
    assert a * (b - 1) == a * b - a;
  }

  lemma Scaled(d: int, k: int)
    requires d >= 0 && k >= 1
    ensures d * k >= d && d * -k <= -d
  {
    assert d * (k - 1) >= 0;
  }

  lemma DivUnique(x: nat, d: nat, q: nat, r: nat)
    requires d > 0 && x == d * q + r && r < d
    ensures x / d == q
  {
    var k := x / d - q;
    assert d * (x / d) == d * q + d * k;
    assert d * k == r - x % d;
    if k >= 1 {
      Scaled(d, k);
    } else if k <= -1 {
      Scaled(d, -k);
    }
  }

  function FromBigEndian(s: seq<Byte>): nat {
    if s == [] then 0 else 256 * FromBigEndian(s[..|s| - 1]) + s[|s| - 1]
  }

  lemma {:induction false} BigEndianRoundTrip(n: nat, x: nat)
    requires x < Pow256(n)
    ensures FromBigEndian(BigEndian(n, x)) == x
  {
    if n == 0 {
    } else {
      BigEndianRoundTrip(n - 1, x / 256);
      assert BigEndian(n, x)[..n - 1] == BigEndian(n - 1, x / 256);
    }
  }

  lemma {:induction false} FromBigEndianRoundTrip(s: seq<Byte>)
    ensures FromBigEndian(s) < Pow256(|s|)
    ensures BigEndian(|s|, FromBigEndian(s)) == s
  {
    if s == [] {
    } else {
      FromBigEndianRoundTrip(s[..|s| - 1]);
      assert s == s[..|s| - 1] + [s[|s| - 1]];
    }
  }

  /** Byte-lexicographic order, as Rust compares byte slices. */
  predicate LexLess(a: seq<Byte>, b: seq<Byte>) {
    b != [] && (a == [] || a[0] < b[0] || (a[0] == b[0] && LexLess(a[1..], b[1..])))
  }

  lemma {:induction false} LexLessAppend(a: seq<Byte>, b: seq<Byte>, x: seq<Byte>, y: seq<Byte>)
    requires |a| == |b|
    ensures LexLess(a + x, b + y) <==> LexLess(a, b) || (a == b && LexLess(x, y))
  {
    if a == [] {
      assert a + x == x && b + y == y;
    } else {
      LexLessAppend(a[1..], b[1..], x, y);
      assert (a + x)[1..] == a[1..] + x && (b + y)[1..] == b[1..] + y;
      assert a == [a[0]] + a[1..] && b == [b[0]] + b[1..];
    }
  }

  /** Fixed-width big-endian fields sort as the numbers they hold. */
  lemma {:induction false} BigEndianOrder(n: nat, x: nat, y: nat)
    requires x < Pow256(n) && y < Pow256(n)
    ensures LexLess(BigEndian(n, x), BigEndian(n, y)) <==> x < y
  {
    if n == 0 {
    } else {
      var a, b := BigEndian(n - 1, x / 256), BigEndian(n - 1, y / 256);
      BigEndianOrder(n - 1, x / 256, y / 256);
      LexLessAppend(a, b, [x % 256], [y % 256]);
      assert LexLess([x % 256], [y % 256]) <==> x % 256 < y % 256;
      BigEndianRoundTrip(n - 1, x / 256);
      BigEndianRoundTrip(n - 1, y / 256);
    }
  }

  /** `t` is what is left of `s` after some prefix has been consumed. */
  predicate IsSuffix(t: seq<Byte>, s: seq<Byte>) {
    |t| <= |s| && s[|s| - |t|..] == t
  }

  /** The bytes consumed when `rest` is left of `s`. */
  function Used(s: seq<Byte>, rest: seq<Byte>): seq<Byte>
    requires IsSuffix(rest, s)
  {
    s[..|s| - |rest|]
  }

  lemma UsedThenRest(s: seq<Byte>, rest: seq<Byte>)
    requires IsSuffix(rest, s)
    ensures Used(s, rest) + rest == s
  {
  }

  /** Two reads in a row consume the concatenation of what each consumes. */
  lemma UsedInSteps(s: seq<Byte>, s1: seq<Byte>, rest: seq<Byte>, t: seq<Byte>)
    requires IsSuffix(s1, s) && IsSuffix(rest, s1)
    ensures IsSuffix(rest, s)
    ensures Used(s, rest) + t == Used(s, s1) + (Used(s1, rest) + t)
  {
    SuffixTransitive(rest, s1, s);
    assert s == Used(s, s1) + s1;
    assert Used(s, rest) == Used(s, s1) + Used(s1, rest);
  }

  lemma SuffixTransitive(a: seq<Byte>, b: seq<Byte>, c: seq<Byte>)
    requires IsSuffix(a, b) && IsSuffix(b, c)
    ensures IsSuffix(a, c)
  {
    assert c[|c| - |a|..] == c[|c| - |b|..][|b| - |a|..];
  }

  /** `get_u8`. */
  function TakeByte(s: seq<Byte>): Parse<Byte> {
    if s == [] then Failed(Panic) else Done(s[0], s[1..])
  }

  /** `copy_to_slice`: the next `n` bytes, a panic when fewer remain. */
  function Take(n: nat, s: seq<Byte>): Parse<seq<Byte>> {
    if |s| < n then Failed(Panic) else Done(s[..n], s[n..])
  }

  /** `get_i32`/`get_u64`: an `n`-byte big-endian field. */
  function TakeNumber(n: nat, s: seq<Byte>): Parse<nat> {
    if |s| < n then Failed(Panic) else Done(FromBigEndian(s[..n]), s[n..])
  }

  lemma TakeNumberOfBigEndian(n: nat, x: nat, t: seq<Byte>)
    requires x < Pow256(n)
    ensures TakeNumber(n, BigEndian(n, x) + t) == Done(x, t)
  {
    var s := BigEndian(n, x);
    BigEndianRoundTrip(n, x);
    assert (s + t)[..n] == s && (s + t)[n..] == t;
  }

  /** A field is read from the bytes that hold it, whatever follows. */
  lemma TakeNumberPrefix(n: nat, u: seq<Byte>, t: seq<Byte>)
    requires |u| >= n
    ensures TakeNumber(n, u + t) == Done(FromBigEndian(u[..n]), u[n..] + t)
  {
    assert (u + t)[..n] == u[..n] && (u + t)[n..] == u[n..] + t;
  }

  /** Order-preserving map of `i64` onto `u64`: flipping the sign bit adds 2^63. */
  function FlipSign(i: Int64): UInt64 {
    i + TWO_63
  }

  function UnflipSign(u: UInt64): Int64 {
    u - TWO_63
  }

  /** `encode_timestamp_millis` and `ordered_i64_bytes`. */
  function Ordered64(i: Int64): (s: seq<Byte>)
    ensures |s| == 8
  {
    BigEndian(8, FlipSign(i))
  }

  function TakeOrdered64(s: seq<Byte>): Parse<Int64> {
    if |s| < 8 then Failed(Panic)
    else
      FromBigEndianRoundTrip(s[..8]);
      Pow256Values();
      Done(UnflipSign(FromBigEndian(s[..8])), s[8..])
  }

  /** The shifted encoding sorts like the integers themselves (the model's timestamp rule). */
  lemma Ordered64IsMonotone(i: Int64, j: Int64)
    ensures LexLess(Ordered64(i), Ordered64(j)) <==> i < j
  {
    Pow256Values();
    BigEndianOrder(8, FlipSign(i), FlipSign(j));
  }

  lemma TakeOrdered64OfOrdered64(i: Int64, t: seq<Byte>)
    ensures TakeOrdered64(Ordered64(i) + t) == Done(i, t)
  {
    Pow256Values();
    TakeNumberOfBigEndian(8, FlipSign(i), t);
    assert (Ordered64(i) + t)[..8] == Ordered64(i);
  }

  lemma Ordered64OfTakeOrdered64(s: seq<Byte>)
    requires |s| == 8
    ensures TakeOrdered64(s).Done? && Ordered64(TakeOrdered64(s).value) == s
  {
    assert s[..8] == s;
    FromBigEndianRoundTrip(s);
    Pow256Values();
  }

  /** `r` and the buffer contents `after` are what the decoder `p` prescribes. */
  predicate Agrees<T(==)>(r: Result<T>, after: seq<Byte>, p: Parse<T>) {
    match p
    case Failed(why) => r == Err(why)
    case Done(v, rest) => r == Ok(v) && after == rest
  }

  /** A growable output buffer (`impl BufMut`). */
  class WriteBuf {
    var bytes: seq<Byte>

    constructor ()
      ensures bytes == []
    {
      bytes := [];
    }

    method PutByte(b: Byte)
      modifies this
      ensures bytes == old(bytes) + [b]
    {
      bytes := bytes + [b];
    }

    method PutSlice(s: seq<Byte>)
      modifies this
      ensures bytes == old(bytes) + s
    {
      bytes := bytes + s;
    }
  }

  /** An input buffer whose front is consumed by reads (`impl Buf`). */
  class ReadBuf {
    var rest: seq<Byte>

    constructor (s: seq<Byte>)
      ensures rest == s
    {
      rest := s;
    }

    method GetByte() returns (r: Result<Byte>)
      modifies this
      ensures Agrees(r, rest, TakeByte(old(rest)))
    {
      if rest == [] {
        return Err(Panic);
      }
      r := Ok(rest[0]);
      rest := rest[1..];
    }

    method GetSlice(n: nat) returns (r: Result<seq<Byte>>)
      modifies this
      ensures Agrees(r, rest, Take(n, old(rest)))
    {
      if |rest| < n {
        return Err(Panic);
      }
      r := Ok(rest[..n]);
      rest := rest[n..];
    }

    method GetNumber(n: nat) returns (r: Result<nat>)
      modifies this
      ensures Agrees(r, rest, TakeNumber(n, old(rest)))
    {
      if |rest| < n {
        return Err(Panic);
      }
      r := Ok(FromBigEndian(rest[..n]));
      rest := rest[n..];
    }

    method GetOrdered64() returns (r: Result<Int64>)
      modifies this
      ensures Agrees(r, rest, TakeOrdered64(old(rest)))
    {
      if |rest| < 8 {
        return Err(Panic);
      }
      r := Ok(TakeOrdered64(rest).value);
      rest := rest[8..];
    }
  }
}
