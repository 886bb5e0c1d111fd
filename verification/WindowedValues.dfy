/** Window coders and the `WindowedValue` frame: timestamp, windows, pane, element. */
module WindowedValues {
  import opened Bytes
  import opened Coders
  import opened WindowKeys
  import CoderLaws
  import CoderLocality
  import Panes
  import Varint

  datatype WindowCoder = GlobalWindow | IntervalWindow | OpaqueWindow(innerCoderId: seq<Byte>)

  datatype WindowedValue = WindowedValue(value: Record, timestamp: Int64, windows: seq<Window>, pane: Panes.Pane)

  datatype ValueCoder = ValueCoder(element: Coder, window: WindowCoder)

  // ----- one window -----

  /** `encode_window`; the span is 64-bit wrapping arithmetic and a mismatch panics. */
  function EncodeWindow(wc: WindowCoder, w: Window): Option<seq<Byte>> {
    match (wc, w)
    case (GlobalWindow, Global) => Some([])
    case (IntervalWindow, Interval(start, end)) => Some(Ordered64(end) + Varint.EncodeSigned(Wrap64(end - start)))
    case (OpaqueWindow(inner), Opaque(id, bytes)) => if id == inner then Some(Varint.EncodeDelimited(bytes)) else None
    case _ => None
  }

  /** `decode_one_window`. */
  function DecodeWindow(wc: WindowCoder, s: seq<Byte>): (p: Parse<Window>)
    ensures p.Done? ==> |p.rest| <= |s|
  {
    match wc
    case GlobalWindow => Done(Global, s)
    case IntervalWindow =>
      (match TakeOrdered64(s)
       case Failed(why) => Failed(why)
       case Done(end, s1) =>
         match Varint.DecodeSigned(s1)
         case Failed(why) => Failed(why)
         case Done(span, rest) => Done(Interval(Wrap64(end - span), end), rest))
    case OpaqueWindow(inner) =>
      (match Varint.Decode(s)
       case Failed(why) => Failed(why)
       case Done(n, s1) =>
         match Take(n, s1) case Failed(why) => Failed(why) case Done(bytes, rest) => Done(Opaque(inner, bytes), rest))
  }

  /** The windows a window coder is configured for. */
  predicate WindowFits(wc: WindowCoder, w: Window) {
    match wc
    case GlobalWindow => w.Global?
    case IntervalWindow => w.Interval?
    case OpaqueWindow(inner) => w.Opaque? && w.coderId == inner && |w.bytes| < TWO_64
  }

  /** A coder fits exactly the windows it can write, but for bytes too long to count. */
  lemma FitsIffEncodes(wc: WindowCoder, w: Window)
    ensures WindowFits(wc, w) <==>
            EncodeWindow(wc, w).Some? && (w.Opaque? ==> |w.bytes| < 0x1_0000_0000_0000_0000)
    ensures EncodeWindow(wc, w).Some? <==>
            match wc
            case GlobalWindow => w.Global?
            case IntervalWindow => w.Interval?
            case OpaqueWindow(inner) => w.Opaque? && w.coderId == inner
  {
  }

  lemma WrapBack(start: Int64, end: Int64)
    ensures Wrap64(end - Wrap64(end - start)) == start
  {
    var span := Wrap64(end - start);
    var k := (span - (end - start)) / TWO_64;
    assert span == end - start + k * TWO_64;
    assert -2 <= k <= 2;
  }

  /** Every interval survives, even one whose span overflows 64 bits. */
  lemma IntervalRoundTrip(start: Int64, end: Int64, t: seq<Byte>)
    ensures var bytes := EncodeWindow(IntervalWindow, Interval(start, end));
            bytes.Some? && DecodeWindow(IntervalWindow, bytes.value + t) == Done(Interval(start, end), t)
  {
    var span := Wrap64(end - start);
    var a, b := Ordered64(end), Varint.EncodeSigned(span);
    CoderLaws.Associative(a, b, t);
    TakeOrdered64OfOrdered64(end, b + t);
    Varint.SignedRoundTrip(span, t);
    WrapBack(start, end);
  }

  lemma WindowRoundTrip(wc: WindowCoder, w: Window, t: seq<Byte>)
    requires WindowFits(wc, w)
    ensures EncodeWindow(wc, w).Some? && DecodeWindow(wc, EncodeWindow(wc, w).value + t) == Done(w, t)
  {
    match w
    case Global => assert [] + t == t;
    case Interval(start, end) => IntervalRoundTrip(start, end, t);
    case Opaque(_, bytes) => Varint.DelimitedRoundTrip(bytes, t);
  }

  // ----- window lists -----

  function EncodeWindowList(wc: WindowCoder, ws: seq<Window>): Option<seq<Byte>> {
    if ws == [] then Some([]) else Append(EncodeWindow(wc, ws[0]), EncodeWindowList(wc, ws[1..]))
  }

  /** `encode_windows`; the count is cast to 32 bits. */
  function EncodeWindows(wc: WindowCoder, ws: seq<Window>): Option<seq<Byte>> {
    Append(Some(BigEndian(4, |ws| % TWO_32)), EncodeWindowList(wc, ws))
  }

  function DecodeManyWindows(wc: WindowCoder, n: nat, s: seq<Byte>): (p: Parse<seq<Window>>)
    ensures p.Done? ==> |p.rest| <= |s|
    decreases n
  {
    if n == 0 then Done([], s)
    else
      match DecodeWindow(wc, s)
      case Failed(why) => Failed(why)
      case Done(w, s1) => Prepend([w], DecodeManyWindows(wc, n - 1, s1))
  }

  function DecodeWindowChunks(wc: WindowCoder, s: seq<Byte>): (p: Parse<seq<Window>>)
    ensures p.Done? ==> |p.rest| <= |s|
    decreases |s|
  {
    match Varint.Decode(s)
    case Failed(why) => Failed(why)
    case Done(n, s1) =>
      if n == 0 then Done([], s1)
      else
        match DecodeManyWindows(wc, n, s1)
        case Failed(why) => Failed(why)
        case Done(chunk, s2) => Prepend(chunk, DecodeWindowChunks(wc, s2))
  }

  /** `decode_windows`: any negative count announces chunks. */
  function DecodeWindows(wc: WindowCoder, s: seq<Byte>): (p: Parse<seq<Window>>)
    ensures p.Done? ==> |p.rest| < |s|
  {
    match TakeNumber(4, s)
    case Failed(why) => Failed(why)
    case Done(count, s1) =>
      if count < TWO_31 then DecodeManyWindows(wc, count, s1) else DecodeWindowChunks(wc, s1)
  }

  predicate WindowsFit(wc: WindowCoder, ws: seq<Window>) {
    forall i :: 0 <= i < |ws| ==> WindowFits(wc, ws[i])
  }

  lemma {:induction false} ManyWindowsCons(
    wc: WindowCoder, n: nat, s: seq<Byte>, w: Window, s1: seq<Byte>, ws: seq<Window>, t: seq<Byte>)
    requires n > 0 && DecodeWindow(wc, s) == Done(w, s1) && DecodeManyWindows(wc, n - 1, s1) == Done(ws, t)
    ensures DecodeManyWindows(wc, n, s) == Done([w] + ws, t)
  {
  }

  lemma {:induction false} WindowListCons(wc: WindowCoder, ws: seq<Window>, a: seq<Byte>, b: seq<Byte>)
    requires ws != [] && EncodeWindow(wc, ws[0]) == Some(a) && EncodeWindowList(wc, ws[1..]) == Some(b)
    ensures EncodeWindowList(wc, ws) == Some(a + b)
  {
  }

  lemma {:induction false} WindowListRoundTrip(wc: WindowCoder, ws: seq<Window>, t: seq<Byte>)
    requires WindowsFit(wc, ws)
    ensures EncodeWindowList(wc, ws).Some?
    ensures DecodeManyWindows(wc, |ws|, EncodeWindowList(wc, ws).value + t) == Done(ws, t)
    decreases |ws|
  {
    if ws == [] {
      assert [] + t == t;
    } else {
      WindowListRoundTrip(wc, ws[1..], t);
      var b := EncodeWindowList(wc, ws[1..]).value;
      WindowRoundTrip(wc, ws[0], b + t);
      var a := EncodeWindow(wc, ws[0]).value;
      WindowListCons(wc, ws, a, b);
      CoderLaws.Associative(a, b, t);
      ManyWindowsCons(wc, |ws|, a + (b + t), ws[0], b + t, ws[1..], t);
      assert [ws[0]] + ws[1..] == ws;
    }
  }

  lemma {:induction false} WindowsRoundTrip(wc: WindowCoder, ws: seq<Window>, t: seq<Byte>)
    requires WindowsFit(wc, ws) && |ws| < TWO_31
    ensures EncodeWindows(wc, ws).Some? && DecodeWindows(wc, EncodeWindows(wc, ws).value + t) == Done(ws, t)
  {
    WindowListRoundTrip(wc, ws, t);
    var b := EncodeWindowList(wc, ws).value;
    var n := BigEndian(4, |ws|);
    CountedWindowsEncode(wc, ws, b);
    CoderLaws.Associative(n, b, t);
    CountedWindows(wc, |ws|, b + t);
    assert DecodeWindows(wc, n + (b + t)) == Done(ws, t);
  }

  lemma {:induction false} CountedWindowsEncode(wc: WindowCoder, ws: seq<Window>, b: seq<Byte>)
    requires |ws| < TWO_31 && EncodeWindowList(wc, ws) == Some(b)
    ensures EncodeWindows(wc, ws) == Some(BigEndian(4, |ws|) + b)
  {
    FitsIn32(|ws|);
  }

  lemma {:induction false} CountedWindows(wc: WindowCoder, n: nat, s: seq<Byte>)
    requires n < TWO_31
    ensures DecodeWindows(wc, BigEndian(4, n) + s) == DecodeManyWindows(wc, n, s)
  {
    Pow256Values();
    TakeNumberOfBigEndian(4, n, s);
  }

  // ----- chunked window lists -----

  /** The chunks of an unknown-length list, ended by an empty one. */
  function EncodeWindowChunks(wc: WindowCoder, chunks: seq<seq<Window>>): Option<seq<Byte>> {
    if chunks == [] then Some([0])
    else
      Append(Append(Some(Varint.Encode(|chunks[0]|)), EncodeWindowList(wc, chunks[0])),
             EncodeWindowChunks(wc, chunks[1..]))
  }

  predicate ChunksFit(wc: WindowCoder, chunks: seq<seq<Window>>) {
    forall i :: 0 <= i < |chunks| ==> 0 < |chunks[i]| < TWO_64 && WindowsFit(wc, chunks[i])
  }

  lemma {:induction false} WindowChunksCons(
    wc: WindowCoder, s: seq<Byte>, n: UInt64, s1: seq<Byte>, chunk: seq<Window>, s2: seq<Byte>, ws: seq<Window>,
    t: seq<Byte>)
    requires n > 0 && Varint.Decode(s) == Done(n, s1)
    requires DecodeManyWindows(wc, n, s1) == Done(chunk, s2) && DecodeWindowChunks(wc, s2) == Done(ws, t)
    ensures DecodeWindowChunks(wc, s) == Done(chunk + ws, t)
  {
  }

  lemma {:induction false} WindowChunksRoundTrip(wc: WindowCoder, chunks: seq<seq<Window>>, t: seq<Byte>)
    requires ChunksFit(wc, chunks)
    ensures EncodeWindowChunks(wc, chunks).Some?
    ensures DecodeWindowChunks(wc, EncodeWindowChunks(wc, chunks).value + t) == Done(Flatten(chunks), t)
    decreases |chunks|
  {
    if chunks == [] {
      assert Varint.Encode(0) == [0];
      Varint.RoundTrip(0, t);
    } else {
      WindowChunksRoundTrip(wc, chunks[1..], t);
      var b := EncodeWindowChunks(wc, chunks[1..]).value;
      WindowListRoundTrip(wc, chunks[0], b + t);
      var n, a := Varint.Encode(|chunks[0]|), EncodeWindowList(wc, chunks[0]).value;
      Varint.RoundTrip(|chunks[0]|, a + (b + t));
      WindowChunksCons(wc, n + (a + (b + t)), |chunks[0]|, a + (b + t), chunks[0], b + t, Flatten(chunks[1..]), t);
      CoderLaws.Associative(n + a, b, t);
      CoderLaws.Associative(n, a, b + t);
    }
  }

  lemma {:induction false} FlattenFits(wc: WindowCoder, chunks: seq<seq<Window>>)
    requires ChunksFit(wc, chunks)
    ensures WindowsFit(wc, Flatten(chunks))
    decreases |chunks|
  {
    if chunks == [] {
    } else {
      FlattenFits(wc, chunks[1..]);
    }
  }

  /** However a list is chunked, it decodes like the counted form of the same windows. */
  lemma ChunkedLikeCounted(wc: WindowCoder, chunks: seq<seq<Window>>, count: nat, t: seq<Byte>)
    requires ChunksFit(wc, chunks) && |Flatten(chunks)| < TWO_31
    requires TWO_31 <= count < TWO_32
    ensures EncodeWindowChunks(wc, chunks).Some? && EncodeWindows(wc, Flatten(chunks)).Some?
    ensures DecodeWindows(wc, BigEndian(4, count) + (EncodeWindowChunks(wc, chunks).value + t)) ==
            DecodeWindows(wc, EncodeWindows(wc, Flatten(chunks)).value + t)
  {
    FlattenFits(wc, chunks);
    WindowsRoundTrip(wc, Flatten(chunks), t);
    WindowChunksRoundTrip(wc, chunks, t);
    Pow256Values();
    TakeNumberOfBigEndian(4, count, EncodeWindowChunks(wc, chunks).value + t);
  }

  // ----- windowed values -----

  /** `encode_windowed_value_header`. */
  function EncodeHeader(wc: WindowCoder, v: WindowedValue): Option<seq<Byte>> {
    Append(Append(Some(Ordered64(v.timestamp)), EncodeWindows(wc, v.windows)), Some(Panes.Encode(v.pane)))
  }

  datatype Header = Header(timestamp: Int64, windows: seq<Window>, pane: Panes.Pane)

  /** `decode_windowed_value_header`. */
  function DecodeHeader(wc: WindowCoder, s: seq<Byte>): (p: Parse<Header>)
    ensures p.Done? ==> |p.rest| < |s|
  {
    match TakeOrdered64(s)
    case Failed(why) => Failed(why)
    case Done(timestamp, s1) =>
      match DecodeWindows(wc, s1)
      case Failed(why) => Failed(why)
      case Done(windows, s2) =>
        match Panes.Decode(s2)
        case Failed(why) => Failed(why)
        case Done(pane, rest) => Done(Header(timestamp, windows, pane), rest)
  }

  function EncodeValue(vc: ValueCoder, v: WindowedValue): Option<seq<Byte>> {
    Append(EncodeHeader(vc.window, v), Encode(vc.element, v.value))
  }

  function DecodeValue(vc: ValueCoder, s: seq<Byte>): (p: Parse<WindowedValue>)
    ensures p.Done? ==> |p.rest| < |s|
  {
    match DecodeHeader(vc.window, s)
    case Failed(why) => Failed(why)
    case Done(h, s1) =>
      match Decode(vc.element, s1)
      case Failed(why) => Failed(why)
      case Done(value, rest) => Done(WindowedValue(value, h.timestamp, h.windows, h.pane), rest)
  }

  ghost predicate ValueSendable(vc: ValueCoder, v: WindowedValue, last: bool) {
    WindowsFit(vc.window, v.windows) && |v.windows| < TWO_31 && Sendable(vc.element, v.value, last)
  }

  /** Only the element is normalised; timestamp, windows and pane are exact. */
  function NormalValue(vc: ValueCoder, v: WindowedValue): WindowedValue {
    v.(value := Normal(vc.element, v.value))
  }

  lemma HeaderRoundTrip(wc: WindowCoder, v: WindowedValue, t: seq<Byte>)
    requires WindowsFit(wc, v.windows) && |v.windows| < TWO_31
    ensures EncodeHeader(wc, v).Some?
    ensures DecodeHeader(wc, EncodeHeader(wc, v).value + t) == Done(Header(v.timestamp, v.windows, v.pane), t)
  {
    var c := Panes.Encode(v.pane);
    WindowsRoundTrip(wc, v.windows, c + t);
    var a, b := Ordered64(v.timestamp), EncodeWindows(wc, v.windows).value;
    TakeOrdered64OfOrdered64(v.timestamp, b + (c + t));
    Panes.RoundTrip(v.pane, t);
    CoderLaws.Associative(a + b, c, t);
    CoderLaws.Associative(a, b, c + t);
  }

  lemma ValueRoundTrip(vc: ValueCoder, v: WindowedValue, t: seq<Byte>)
    requires ValueSendable(vc, v, t == [])
    ensures EncodeValue(vc, v).Some? && DecodeValue(vc, EncodeValue(vc, v).value + t) == Done(NormalValue(vc, v), t)
  {
    CoderLaws.RoundTrip(vc.element, v.value, t);
    var b := Encode(vc.element, v.value).value;
    HeaderRoundTrip(vc.window, v, b + t);
    CoderLaws.Associative(EncodeHeader(vc.window, v).value, b, t);
  }

  // ----- streams -----

  /** Elements are sent back to back with nothing between them. */
  function EncodeStream(vc: ValueCoder, vs: seq<WindowedValue>): Option<seq<Byte>> {
    if vs == [] then Some([]) else Append(EncodeValue(vc, vs[0]), EncodeStream(vc, vs[1..]))
  }

  datatype Framed = Framed(value: WindowedValue, frame: seq<Byte>)

  /** The receive loop on a complete stream: decode until the buffer is empty, noting the bytes of each element. */
  function DecodeStream(vc: ValueCoder, s: seq<Byte>): Option<seq<Framed>>
    decreases |s|
  {
    if s == [] then Some([])
    else
      match DecodeValue(vc, s)
      case Failed(_) => None
      case Done(v, rest) =>
        match DecodeStream(vc, rest)
        case None => None
        case Some(tail) => Some([Framed(v, s[..|s| - |rest|])] + tail)
  }

  function Frames(fs: seq<Framed>): seq<Byte> {
    if fs == [] then [] else fs[0].frame + Frames(fs[1..])
  }

  /** The element at `i` may rely on nothing following it only when it is the last. */
  ghost predicate StreamSendable(vc: ValueCoder, vs: seq<WindowedValue>) {
    forall i :: 0 <= i < |vs| ==> ValueSendable(vc, vs[i], i == |vs| - 1)
  }

  /** A concatenation of encoded values decodes to exactly those values, each cut at its own bytes. */
  lemma {:induction false} StreamRoundTrip(vc: ValueCoder, vs: seq<WindowedValue>)
    requires StreamSendable(vc, vs)
    ensures EncodeStream(vc, vs).Some?
    ensures var out := DecodeStream(vc, EncodeStream(vc, vs).value);
            && out.Some? && |out.value| == |vs|
            && forall i :: 0 <= i < |vs| ==>
                 out.value[i].value == NormalValue(vc, vs[i]) && EncodeValue(vc, vs[i]) == Some(out.value[i].frame)
    decreases |vs|
  {
    if vs == [] {
    } else {
      assert StreamSendable(vc, vs[1..]) by {
        assert forall i :: 0 <= i < |vs[1..]| ==> vs[1..][i] == vs[i + 1];
      }
      StreamRoundTrip(vc, vs[1..]);
      var b := EncodeStream(vc, vs[1..]).value;
      assert b == [] ==> |vs| == 1 by {
        if |vs| > 1 {
          StreamNotEmpty(vc, vs[1..]);
        }
      }
      if |vs| > 1 {
        CoderLaws.SendableMonotone(vc.element, vs[0].value, false, b == []);
      } else {
        assert b == [];
      }
      ValueRoundTrip(vc, vs[0], b);
      var a := EncodeValue(vc, vs[0]).value;
      StreamCons(vc, a + b, a, NormalValue(vc, vs[0]), b);
    }
  }

  lemma {:induction false} StreamCons(vc: ValueCoder, s: seq<Byte>, a: seq<Byte>, v: WindowedValue, b: seq<Byte>)
    requires s == a + b && DecodeValue(vc, s) == Done(v, b) && DecodeStream(vc, b).Some?
    ensures DecodeStream(vc, s) == Some([Framed(v, a)] + DecodeStream(vc, b).value)
  {
    assert s[..|s| - |b|] == a;
  }

  lemma StreamNotEmpty(vc: ValueCoder, vs: seq<WindowedValue>)
    requires vs != [] && EncodeStream(vc, vs).Some?
    ensures EncodeStream(vc, vs).value != []
  {
    assert EncodeHeader(vc.window, vs[0]).Some? && |EncodeHeader(vc.window, vs[0]).value| >= 8;
  }

  // ----- consumption and locality -----

  lemma {:induction false} WindowSuffix(wc: WindowCoder, s: seq<Byte>)
    requires DecodeWindow(wc, s).Done?
    ensures IsSuffix(DecodeWindow(wc, s).rest, s)
  {
    var rest := DecodeWindow(wc, s).rest;
    if wc.IntervalWindow? {
      Varint.DecodeLocal(s[8..], []);
      SuffixTransitive(rest, s[8..], s);
    } else if wc.OpaqueWindow? {
      Varint.DecodeLocal(s, []);
      SuffixTransitive(rest, Varint.Decode(s).rest, s);
    }
  }

  lemma {:induction false} ManyWindowsSuffix(wc: WindowCoder, n: nat, s: seq<Byte>)
    requires DecodeManyWindows(wc, n, s).Done?
    ensures IsSuffix(DecodeManyWindows(wc, n, s).rest, s)
  {
    if n == 0 {
    } else {
      WindowSuffix(wc, s);
      var s1 := DecodeWindow(wc, s).rest;
      ManyWindowsSuffix(wc, n - 1, s1);
      SuffixTransitive(DecodeManyWindows(wc, n, s).rest, s1, s);
    }
  }

  lemma {:induction false} WindowChunksSuffix(wc: WindowCoder, s: seq<Byte>)
    requires DecodeWindowChunks(wc, s).Done?
    ensures IsSuffix(DecodeWindowChunks(wc, s).rest, s)
    decreases |s|
  {
    Varint.DecodeLocal(s, []);
    var n, s1 := Varint.Decode(s).value, Varint.Decode(s).rest;
    if n == 0 {
    } else {
      ManyWindowsSuffix(wc, n, s1);
      var s2 := DecodeManyWindows(wc, n, s1).rest;
      WindowChunksSuffix(wc, s2);
      SuffixTransitive(DecodeWindowChunks(wc, s).rest, s2, s1);
      SuffixTransitive(DecodeWindowChunks(wc, s).rest, s1, s);
    }
  }

  lemma {:induction false} WindowsSuffix(wc: WindowCoder, s: seq<Byte>)
    requires DecodeWindows(wc, s).Done?
    ensures IsSuffix(DecodeWindows(wc, s).rest, s)
  {
    if TakeNumber(4, s).value < TWO_31 {
      ManyWindowsSuffix(wc, TakeNumber(4, s).value, s[4..]);
    } else {
      WindowChunksSuffix(wc, s[4..]);
    }
    SuffixTransitive(DecodeWindows(wc, s).rest, s[4..], s);
  }

  lemma {:induction false} HeaderSuffix(wc: WindowCoder, s: seq<Byte>)
    requires DecodeHeader(wc, s).Done?
    ensures IsSuffix(DecodeHeader(wc, s).rest, s)
  {
    WindowsSuffix(wc, s[8..]);
    var s2 := DecodeWindows(wc, s[8..]).rest;
    Panes.DecodeLocal(s2, []);
    SuffixTransitive(DecodeHeader(wc, s).rest, s2, s[8..]);
    SuffixTransitive(DecodeHeader(wc, s).rest, s[8..], s);
  }

  lemma {:induction false} ValueSuffix(vc: ValueCoder, s: seq<Byte>)
    requires DecodeValue(vc, s).Done?
    ensures IsSuffix(DecodeValue(vc, s).rest, s)
  {
    HeaderSuffix(vc.window, s);
    var s1 := DecodeHeader(vc.window, s).rest;
    CoderLocality.DecodeSuffix(vc.element, s1);
    SuffixTransitive(DecodeValue(vc, s).rest, s1, s);
  }

  /** For every wire that decodes, the frames concatenate back to it, byte for byte. */
  lemma {:induction false} FramesAreTheWire(vc: ValueCoder, s: seq<Byte>)
    requires DecodeStream(vc, s).Some?
    ensures Frames(DecodeStream(vc, s).value) == s
    decreases |s|
  {
    if s == [] {
    } else {
      var rest := DecodeValue(vc, s).rest;
      ValueSuffix(vc, s);
      UsedThenRest(s, rest);
      FramesAreTheWire(vc, rest);
      assert DecodeStream(vc, s).value[1..] == DecodeStream(vc, rest).value;
    }
  }

  lemma {:induction false} WindowLocal(wc: WindowCoder, u: seq<Byte>, rest: seq<Byte>, w: Window, t: seq<Byte>)
    requires DecodeWindow(wc, u + rest) == Done(w, rest)
    ensures DecodeWindow(wc, u + t) == Done(w, t)
  {
    var s := u + rest;
    if wc.GlobalWindow? {
      CoderLocality.NothingUsed(u, rest, t);
    } else if wc.IntervalWindow? {
      var span := Varint.Decode(s[8..]);
      Varint.DecodeLocal(s[8..], []);
      var a, x := CoderLocality.CutBetween(u, rest, s[8..]);
      CoderLocality.VarintLocal(x, rest, span.value, t);
      assert |a| == 8;
      assert (a + (x + t))[..8] == a == s[..8] && (a + (x + t))[8..] == x + t;
    } else {
      var n := Varint.Decode(s);
      Varint.DecodeLocal(s, []);
      var a, x := CoderLocality.CutBetween(u, rest, n.rest);
      CoderLocality.VarintLocal(a, n.rest, n.value, x + t);
      assert |x| == n.value && (x + t)[..n.value] == x == n.rest[..n.value] && (x + t)[n.value..] == t;
    }
  }

  lemma {:induction false} ManyWindowsSplits(wc: WindowCoder, n: nat, s: seq<Byte>)
    requires n > 0 && DecodeManyWindows(wc, n, s).Done?
    ensures var p := DecodeWindow(wc, s);
            && p.Done?
            && var q := DecodeManyWindows(wc, n - 1, p.rest);
            q.Done? && DecodeManyWindows(wc, n, s) == Done([p.value] + q.value, q.rest)
  {
  }

  lemma {:induction false} ManyWindowsLocal(
    wc: WindowCoder, n: nat, u: seq<Byte>, rest: seq<Byte>, ws: seq<Window>, t: seq<Byte>)
    requires DecodeManyWindows(wc, n, u + rest) == Done(ws, rest)
    ensures DecodeManyWindows(wc, n, u + t) == Done(ws, t)
    decreases n, 1
  {
    if n == 0 {
      CoderLocality.NothingUsed(u, rest, t);
    } else {
      ManyWindowsSplits(wc, n, u + rest);
      var p := DecodeWindow(wc, u + rest);
      ManyWindowsLocalCons(wc, n - 1, u, rest, p.value, p.rest, DecodeManyWindows(wc, n - 1, p.rest).value, t);
    }
  }

  lemma {:induction false} ManyWindowsLocalCons(
    wc: WindowCoder, n: nat, u: seq<Byte>, rest: seq<Byte>, w: Window, s1: seq<Byte>, ws: seq<Window>, t: seq<Byte>)
    requires DecodeWindow(wc, u + rest) == Done(w, s1) && DecodeManyWindows(wc, n, s1) == Done(ws, rest)
    ensures DecodeManyWindows(wc, n + 1, u + t) == Done([w] + ws, t)
    decreases n + 1, 0
  {
    WindowSuffix(wc, u + rest);
    ManyWindowsSuffix(wc, n, s1);
    var a, x := CoderLocality.CutBetween(u, rest, s1);
    WindowLocal(wc, a, s1, w, x + t);
    ManyWindowsLocal(wc, n, x, rest, ws, t);
    ManyWindowsCons(wc, n + 1, a + (x + t), w, x + t, ws, t);
  }

  lemma {:induction false} WindowChunksLocal(
    wc: WindowCoder, u: seq<Byte>, rest: seq<Byte>, ws: seq<Window>, t: seq<Byte>)
    requires DecodeWindowChunks(wc, u + rest) == Done(ws, rest)
    ensures DecodeWindowChunks(wc, u + t) == Done(ws, t)
    decreases |u|
  {
    var n := Varint.Decode(u + rest);
    Varint.DecodeLocal(u + rest, []);
    if n.value == 0 {
      CoderLocality.VarintLocal(u, rest, 0, t);
    } else {
      var p := DecodeManyWindows(wc, n.value, n.rest);
      var q := DecodeWindowChunks(wc, p.rest);
      ManyWindowsSuffix(wc, n.value, n.rest);
      WindowChunksSuffix(wc, p.rest);
      SuffixTransitive(rest, p.rest, n.rest);
      var a, x := CoderLocality.CutBetween(u, rest, n.rest);
      var b, y := CoderLocality.CutBetween(x, rest, p.rest);
      CoderLocality.VarintLocal(a, n.rest, n.value, x + t);
      ManyWindowsLocal(wc, n.value, b, p.rest, p.value, y + t);
      WindowChunksLocal(wc, y, rest, q.value, t);
    }
  }

  lemma {:induction false} WindowsLocal(wc: WindowCoder, u: seq<Byte>, rest: seq<Byte>, ws: seq<Window>, t: seq<Byte>)
    requires DecodeWindows(wc, u + rest) == Done(ws, rest)
    ensures DecodeWindows(wc, u + t) == Done(ws, t)
  {
    assert |u| >= 4 by {
      assert |rest| <= |u + rest| - 4;
    }
    TakeNumberPrefix(4, u, rest);
    TakeNumberPrefix(4, u, t);
    var n := FromBigEndian(u[..4]);
    if n < TWO_31 {
      ManyWindowsLocal(wc, n, u[4..], rest, ws, t);
    } else {
      WindowChunksLocal(wc, u[4..], rest, ws, t);
    }
  }

  lemma {:induction false} HeaderLocal(wc: WindowCoder, u: seq<Byte>, rest: seq<Byte>, h: Header, t: seq<Byte>)
    requires DecodeHeader(wc, u + rest) == Done(h, rest)
    ensures DecodeHeader(wc, u + t) == Done(h, t)
  {
    var s := u + rest;
    WindowsSuffix(wc, s[8..]);
    var s2 := DecodeWindows(wc, s[8..]).rest;
    Panes.DecodeLocal(s2, t);
    SuffixTransitive(rest, s2, s[8..]);
    var a, x := CoderLocality.CutBetween(u, rest, s[8..]);
    var b, y := CoderLocality.CutBetween(x, rest, s2);
    WindowsLocal(wc, b, s2, h.windows, y + t);
    assert Used(s2, rest) == y;
    assert |a| == 8 && (a + (x + t))[..8] == a == s[..8] && (a + (x + t))[8..] == x + t;
  }

  /** A frame cut from a stream means the same wherever it is forwarded. */
  lemma {:induction false} ValueLocal(
    vc: ValueCoder, u: seq<Byte>, rest: seq<Byte>, v: WindowedValue, t: seq<Byte>)
    requires Delimiting(vc.element, false) && DecodeValue(vc, u + rest) == Done(v, rest)
    ensures DecodeValue(vc, u + t) == Done(v, t)
  {
    var h := DecodeHeader(vc.window, u + rest);
    HeaderSuffix(vc.window, u + rest);
    CoderLocality.DecodeSuffix(vc.element, h.rest);
    var a, x := CoderLocality.CutBetween(u, rest, h.rest);
    HeaderLocal(vc.window, a, h.rest, h.value, x + t);
    CoderLocality.DecodeLocal(vc.element, x, rest, v.value, t);
  }
}
