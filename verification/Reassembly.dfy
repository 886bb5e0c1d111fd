/**
 The receive loop of a bundle's output: data messages cut the element stream at
 arbitrary points, and the loop decodes what it can, waits after a panic (taken as an
 under-run) and gives the bundle up after a returned error.
 */
module Reassembly {
  import opened Bytes
  import opened Coders
  import opened WindowedValues
  import CoderLaws
  import CoderLocality
  import Panes
  import Truncation
  import Varint
  import WindowKeys

  datatype Drained = Drained(out: seq<Framed>, rest: seq<Byte>, aborted: bool)

  /** Decode as many elements as the buffer holds. */
  function Drain(vc: ValueCoder, buffer: seq<Byte>, ended: bool): Drained
    decreases |buffer|
  {
    if buffer == [] then Drained([], [], false)
    else
      match DecodeValue(vc, buffer)
      case Failed(why) => Drained([], buffer, why == Error || ended)
      case Done(v, rest) =>
        var d := Drain(vc, rest, ended);
        d.(out := [Framed(v, buffer[..|buffer| - |rest|])] + d.out)
  }

  /** The whole loop over the messages of one stream; `None` is a failed bundle. */
  function Receive(vc: ValueCoder, buffer: seq<Byte>, messages: seq<seq<Byte>>): Option<seq<Framed>>
    decreases |messages|
  {
    if messages == [] then (if buffer == [] then Some([]) else None)
    else
      var d := Drain(vc, buffer + messages[0], |messages| == 1);
      if d.aborted then None
      else
        match Receive(vc, d.rest, messages[1..])
        case None => None
        case Some(tail) => Some(d.out + tail)
  }

  /** What stays undecoded when the stream is cut after `s`. */
  function Pending(vc: ValueCoder, s: seq<Byte>): (rest: seq<Byte>)
    ensures rest != [] ==> DecodeValue(vc, rest).Failed?
    decreases |s|
  {
    if s == [] then []
    else
      match DecodeValue(vc, s)
      case Failed(_) => s
      case Done(_, rest) => Pending(vc, rest)
  }

  /** The loop waits for more data when nothing is pending or decoding it panics. */
  predicate Waits(vc: ValueCoder, pending: seq<Byte>) {
    pending == [] || DecodeValue(vc, pending) == Failed(Panic)
  }

  predicate CutTolerated(vc: ValueCoder, s: seq<Byte>) {
    Waits(vc, Pending(vc, s))
  }

  // ----- one buffer -----

  lemma {:induction false} DrainIsPending(vc: ValueCoder, buffer: seq<Byte>, ended: bool)
    ensures var d := Drain(vc, buffer, ended);
            && d.rest == Pending(vc, buffer)
            && (d.aborted <==> if ended then d.rest != [] else !Waits(vc, d.rest))
    decreases |buffer|
  {
    if buffer == [] || DecodeValue(vc, buffer).Failed? {
    } else {
      DrainIsPending(vc, DecodeValue(vc, buffer).rest, ended);
    }
  }

  /** Decoding early changes nothing about what the rest of the stream will decode to. */
  lemma {:induction false} DrainThenStream(vc: ValueCoder, buffer: seq<Byte>, ended: bool, t: seq<Byte>)
    requires Delimiting(vc.element, false)
    ensures var d := Drain(vc, buffer, ended);
            DecodeStream(vc, buffer + t) == Joined(d.out, DecodeStream(vc, d.rest + t))
    decreases |buffer|
  {
    var d := Drain(vc, buffer, ended);
    if buffer == [] || DecodeValue(vc, buffer).Failed? {
      assert d.rest == buffer;
      JoinedNothing(DecodeStream(vc, buffer + t));
    } else {
      var p := DecodeValue(vc, buffer);
      ValueSuffix(vc, buffer);
      var u := Used(buffer, p.rest);
      UsedThenRest(buffer, p.rest);
      ValueLocal(vc, u, p.rest, p.value, p.rest + t);
      CoderLaws.Associative(u, p.rest, t);
      assert (buffer + t)[..|buffer + t| - |p.rest + t|] == u;
      DrainThenStream(vc, p.rest, ended, t);
      JoinedAssociative([Framed(p.value, u)], Drain(vc, p.rest, ended).out, DecodeStream(vc, d.rest + t));
    }
  }

  // ----- the whole stream -----

  /** Whatever the message boundaries, a bundle that succeeds has received exactly the stream. */
  lemma {:induction false} ReceivedIsTheStream(vc: ValueCoder, buffer: seq<Byte>, messages: seq<seq<Byte>>)
    requires Delimiting(vc.element, false) && Receive(vc, buffer, messages).Some?
    ensures DecodeStream(vc, buffer + Flatten(messages)) == Receive(vc, buffer, messages)
    decreases |messages|
  {
    if messages == [] {
      assert buffer + Flatten(messages) == [];
    } else {
      var d := Drain(vc, buffer + messages[0], |messages| == 1);
      ReceivedIsTheStream(vc, d.rest, messages[1..]);
      DrainThenStream(vc, buffer + messages[0], |messages| == 1, Flatten(messages[1..]));
      CoderLaws.Associative(buffer, messages[0], Flatten(messages[1..]));
    }
  }

  /** The bytes received once `k` messages have arrived. */
  function Arrived(buffer: seq<Byte>, messages: seq<seq<Byte>>, k: nat): seq<Byte>
    requires k <= |messages|
  {
    buffer + Flatten(messages[..k])
  }

  /** Draining what has arrived in two goes leaves the same bytes as in one. */
  lemma {:induction false} PendingAfterDrain(vc: ValueCoder, buffer: seq<Byte>, t: seq<Byte>)
    requires Delimiting(vc.element, false)
    ensures Pending(vc, buffer + t) == Pending(vc, Pending(vc, buffer) + t)
    decreases |buffer|
  {
    if buffer == [] || DecodeValue(vc, buffer).Failed? {
    } else {
      var p := DecodeValue(vc, buffer);
      ValueSuffix(vc, buffer);
      var u := Used(buffer, p.rest);
      UsedThenRest(buffer, p.rest);
      ValueLocal(vc, u, p.rest, p.value, p.rest + t);
      CoderLaws.Associative(u, p.rest, t);
      PendingAfterDrain(vc, p.rest, t);
    }
  }

  ghost predicate CutsTolerated(vc: ValueCoder, buffer: seq<Byte>, messages: seq<seq<Byte>>) {
    forall k :: 0 < k < |messages| ==> CutTolerated(vc, Arrived(buffer, messages, k))
  }

  lemma {:induction false} ArrivedLater(vc: ValueCoder, buffer: seq<Byte>, messages: seq<seq<Byte>>, k: nat)
    requires Delimiting(vc.element, false) && messages != [] && k < |messages|
    ensures var rest := Pending(vc, buffer + messages[0]);
            Pending(vc, Arrived(rest, messages[1..], k)) == Pending(vc, Arrived(buffer, messages, k + 1))
  {
    var now, later := buffer + messages[0], messages[1..];
    var t := Flatten(later[..k]);
    assert messages[..k + 1] == [messages[0]] + later[..k];
    assert Flatten(messages[..k + 1]) == messages[0] + t by {
      assert messages[..k + 1][1..] == later[..k];
    }
    CoderLaws.Associative(buffer, messages[0], t);
    PendingAfterDrain(vc, now, t);
  }

  lemma {:induction false} ArrivedFirst(buffer: seq<Byte>, messages: seq<seq<Byte>>)
    requires messages != []
    ensures Arrived(buffer, messages, 1) == buffer + messages[0]
  {
    assert messages[..1][1..] == [];
    assert Flatten(messages[..1]) == messages[0] + [];
  }

  /** The first boundary, then the others as seen from what it left pending. */
  lemma {:induction false} CutsInOrder(vc: ValueCoder, buffer: seq<Byte>, messages: seq<seq<Byte>>)
    requires Delimiting(vc.element, false) && |messages| > 1
    ensures var now := buffer + messages[0];
            CutsTolerated(vc, buffer, messages) <==>
            CutTolerated(vc, now) && CutsTolerated(vc, Pending(vc, now), messages[1..])
  {
    var now, later := buffer + messages[0], messages[1..];
    ArrivedFirst(buffer, messages);
    forall k | 0 < k < |later|
      ensures CutTolerated(vc, Arrived(Pending(vc, now), later, k)) ==
              CutTolerated(vc, Arrived(buffer, messages, k + 1))
    {
      ArrivedLater(vc, buffer, messages, k);
    }
    if CutTolerated(vc, now) && CutsTolerated(vc, Pending(vc, now), later) {
      forall k | 0 < k < |messages|
        ensures CutTolerated(vc, Arrived(buffer, messages, k))
      {
        if k > 1 {
          assert CutTolerated(vc, Arrived(Pending(vc, now), later, k - 1));
        }
      }
    }
  }

  lemma {:induction false} ReceiveStep(vc: ValueCoder, buffer: seq<Byte>, messages: seq<seq<Byte>>)
    requires messages != []
    ensures var now := buffer + messages[0];
            Receive(vc, buffer, messages).Some? <==>
            if |messages| == 1 then Pending(vc, now) == []
            else CutTolerated(vc, now) && Receive(vc, Pending(vc, now), messages[1..]).Some?
  {
    ReceiveUnfolds(vc, buffer, messages);
    DrainIsPending(vc, buffer + messages[0], |messages| == 1);
    if |messages| == 1 {
      assert messages[1..] == [];
    }
  }

  lemma {:induction false} ReceiveUnfolds(vc: ValueCoder, buffer: seq<Byte>, messages: seq<seq<Byte>>)
    requires messages != []
    ensures var d := Drain(vc, buffer + messages[0], |messages| == 1);
            Receive(vc, buffer, messages).Some? <==> !d.aborted && Receive(vc, d.rest, messages[1..]).Some?
  {
  }

  /** The last message: nothing may stay pending, and nothing does. */
  lemma {:induction false} LastMessageDrains(vc: ValueCoder, s: seq<Byte>)
    requires Delimiting(vc.element, false) && DecodeStream(vc, s).Some?
    ensures Pending(vc, s) == []
  {
    DrainIsPending(vc, s, true);
    DrainThenStream(vc, s, true, []);
    var rest := Pending(vc, s);
    assert s + [] == s && rest + [] == rest;
  }

  /**
   For a stream that decodes as a whole, the bundle succeeds exactly when every
   message boundary is one the loop tolerates.
   */
  lemma {:induction false} SucceedsIffCutsTolerated(vc: ValueCoder, buffer: seq<Byte>, messages: seq<seq<Byte>>)
    requires Delimiting(vc.element, false) && messages != []
    requires DecodeStream(vc, buffer + Flatten(messages)).Some?
    ensures Receive(vc, buffer, messages).Some? <==> CutsTolerated(vc, buffer, messages)
    decreases |messages|
  {
    var now := buffer + messages[0];
    CoderLaws.Associative(buffer, messages[0], Flatten(messages[1..]));
    if |messages| == 1 {
      assert now + Flatten(messages[1..]) == now;
      LastMessageDrains(vc, now);
      ReceiveStep(vc, buffer, messages);
    } else {
      DrainIsPending(vc, now, false);
      DrainThenStream(vc, now, false, Flatten(messages[1..]));
      SucceedsIffCutsTolerated(vc, Pending(vc, now), messages[1..]);
      CutsInOrder(vc, buffer, messages);
      ReceiveStep(vc, buffer, messages);
    }
  }

  // ----- which cuts are tolerated -----

  lemma {:induction false} ManyWindowsFaultPanics(wc: WindowCoder, n: nat, s: seq<Byte>)
    requires DecodeManyWindows(wc, n, s).Failed?
    ensures DecodeManyWindows(wc, n, s) == Failed(Panic)
  {
    var p := DecodeWindow(wc, s);
    if p.Done? {
      ManyWindowsFaultPanics(wc, n - 1, p.rest);
    } else {
      WindowFaultPanics(wc, s);
    }
  }

  lemma {:induction false} WindowFaultPanics(wc: WindowCoder, s: seq<Byte>)
    requires DecodeWindow(wc, s).Failed?
    ensures DecodeWindow(wc, s) == Failed(Panic)
  {
    if wc.IntervalWindow? && |s| >= 8 {
      Truncation.VarintFaultsPanic(s[8..], 0);
    } else if wc.OpaqueWindow? && Varint.Decode(s).Failed? {
      Truncation.VarintFaultsPanic(s, 0);
    }
  }

  lemma {:induction false} WindowChunksFaultPanics(wc: WindowCoder, s: seq<Byte>)
    requires DecodeWindowChunks(wc, s).Failed?
    ensures DecodeWindowChunks(wc, s) == Failed(Panic)
    decreases |s|
  {
    var n := Varint.Decode(s);
    if n.Failed? {
      Truncation.VarintFaultsPanic(s, 0);
    } else {
      var p := DecodeManyWindows(wc, n.value, n.rest);
      if p.Failed? {
        ManyWindowsFaultPanics(wc, n.value, n.rest);
      } else {
        WindowChunksFaultPanics(wc, p.rest);
      }
    }
  }

  lemma {:induction false} PaneFaultPanics(s: seq<Byte>)
    requires Panes.Decode(s).Failed?
    ensures Panes.Decode(s) == Failed(Panic)
  {
    if s != [] {
      var p := Varint.Decode(s[1..]);
      if p.Failed? {
        Truncation.VarintFaultsPanic(s[1..], 0);
      } else {
        Truncation.VarintFaultsPanic(p.rest, 0);
      }
    }
  }

  /** Nothing in the frame around an element returns an error. */
  lemma {:induction false} HeaderFaultPanics(wc: WindowCoder, s: seq<Byte>)
    requires DecodeHeader(wc, s).Failed?
    ensures DecodeHeader(wc, s) == Failed(Panic)
  {
    if |s| >= 8 {
      var ws := DecodeWindows(wc, s[8..]);
      if ws.Done? {
        PaneFaultPanics(ws.rest);
      } else if |s| >= 12 {
        if TakeNumber(4, s[8..]).value < TWO_31 {
          ManyWindowsFaultPanics(wc, TakeNumber(4, s[8..]).value, s[12..]);
        } else {
          WindowChunksFaultPanics(wc, s[12..]);
        }
        assert s[8..][4..] == s[12..];
      }
    }
  }

  // ----- which cuts those are, told from where they lie -----

  /** The fault of decoding only the first `n` bytes of the windowed value that starts `s`. */
  function ValueFaultAt(vc: ValueCoder, s: seq<Byte>, n: nat): Fault {
    match DecodeHeader(vc.window, s)
    case Failed(_) => Panic
    case Done(_, s1) =>
      if n < |s| - |s1| then Panic else Truncation.FaultAt(vc.element, s1, n - (|s| - |s1|))
  }

  /**
   A message that ends at offset `n` of the stream of frames `fs` fails the bundle: the byte
   there continues a length-prefixed payload or belongs to a double.
   */
  predicate CutBreaks(vc: ValueCoder, fs: seq<Framed>, n: nat) {
    && n > 0 && fs != []
    && if n < |fs[0].frame| then ValueFaultAt(vc, fs[0].frame, n) == Error
       else CutBreaks(vc, fs[1..], n - |fs[0].frame|)
  }

  /** A header cut short does not decode. */
  lemma {:induction false} CutHeader(wc: WindowCoder, x: seq<Byte>, y: seq<Byte>, rest: seq<Byte>, h: Header)
    requires y != [] && DecodeHeader(wc, (x + y) + rest) == Done(h, rest)
    ensures DecodeHeader(wc, x) == Failed(Panic)
  {
    var p := DecodeHeader(wc, x);
    if p.Done? {
      HeaderSuffix(wc, x);
      var u := Used(x, p.rest);
      UsedThenRest(x, p.rest);
      HeaderLocal(wc, u, p.rest, p.value, p.rest + (y + rest));
      CoderLaws.Associative(u, p.rest, y + rest);
      CoderLaws.Associative(x, y, rest);
    } else {
      HeaderFaultPanics(wc, x);
    }
  }

  /** Every windowed value, cut anywhere, faults as its bytes say. */
  lemma {:induction false} CutValue(
    vc: ValueCoder, x: seq<Byte>, y: seq<Byte>, rest: seq<Byte>, v: WindowedValue)
    requires Delimiting(vc.element, false) && y != [] && DecodeValue(vc, (x + y) + rest) == Done(v, rest)
    ensures DecodeValue(vc, x) == Failed(ValueFaultAt(vc, (x + y) + rest, |x|))
  {
    var s := (x + y) + rest;
    var h := DecodeHeader(vc.window, s);
    HeaderSuffix(vc.window, s);
    CoderLocality.DecodeSuffix(vc.element, h.rest);
    var a, w := CoderLocality.CutBetween(x + y, rest, h.rest);
    var z := Truncation.CutFallsIn(a, w, x, y);
    assert |a| == |s| - |h.rest|;
    if |x| < |a| {
      CutHeader(vc.window, x, z, h.rest, h.value);
    } else {
      HeaderLocal(vc.window, a, h.rest, h.value, z);
      Truncation.CutRecord(vc.element, z, y, rest, v.value);
    }
  }

  /** A partial element is a proper prefix of the element that its stream continues with. */
  lemma {:induction false} PartialElement(vc: ValueCoder, p: seq<Byte>, t: seq<Byte>)
    returns (y: seq<Byte>, rest: seq<Byte>, v: WindowedValue)
    requires Delimiting(vc.element, false) && DecodeValue(vc, p).Failed? && DecodeValue(vc, p + t).Done?
    ensures y != [] && (p + y) + rest == p + t && DecodeValue(vc, (p + y) + rest) == Done(v, rest)
  {
    v, rest := DecodeValue(vc, p + t).value, DecodeValue(vc, p + t).rest;
    ValueSuffix(vc, p + t);
    var u := Used(p + t, rest);
    UsedThenRest(p + t, rest);
    if |u| <= |p| {
      assert u == p[..|u|] && p == u + p[|u|..];
      ValueLocal(vc, u, rest, v, p[|u|..]);
      assert false;
    }
    y := u[|p|..];
    assert u[..|p|] == p && u == p + y;
  }

  lemma {:induction false} StreamSplits(
    vc: ValueCoder, s: seq<Byte>, a: seq<Byte>, v: WindowedValue, rest: seq<Byte>)
    requires s == a + rest && DecodeValue(vc, s) == Done(v, rest) && DecodeStream(vc, s).Some?
    ensures DecodeStream(vc, rest).Some?
    ensures DecodeStream(vc, s).value == [Framed(v, a)] + DecodeStream(vc, rest).value
  {
    assert s[..|s| - |rest|] == a;
  }

  lemma {:induction false} BreaksInSteps(vc: ValueCoder, f: Framed, fs: seq<Framed>, n: nat)
    requires n > 0
    ensures CutBreaks(vc, [f] + fs, n) <==>
            if n < |f.frame| then ValueFaultAt(vc, f.frame, n) == Error else CutBreaks(vc, fs, n - |f.frame|)
  {
    assert ([f] + fs)[1..] == fs;
  }

  /** A partial element waits exactly when its frame does not break where it was cut. */
  lemma {:induction false} PartialWaits(
    vc: ValueCoder, s: seq<Byte>, y: seq<Byte>, rest: seq<Byte>, v: WindowedValue)
    requires Delimiting(vc.element, false) && y != [] && DecodeValue(vc, (s + y) + rest) == Done(v, rest)
    ensures DecodeValue(vc, s) == Failed(ValueFaultAt(vc, s + y, |s|))
  {
    ValueLocal(vc, s + y, rest, v, []);
    assert (s + y) + [] == s + y;
    CutValue(vc, s, y, [], v);
  }

  /** The loop tolerates a cut exactly when its offset is not a breaking one. */
  lemma {:induction false} ToleratedIffNotBreaking(vc: ValueCoder, s: seq<Byte>, t: seq<Byte>)
    requires Delimiting(vc.element, false) && DecodeStream(vc, s + t).Some?
    ensures CutTolerated(vc, s) <==> !CutBreaks(vc, DecodeStream(vc, s + t).value, |s|)
    decreases |s|
  {
    if s == [] {
    } else {
      var p := DecodeValue(vc, s);
      if p.Failed? {
        var y, rest, v := PartialElement(vc, s, t);
        PartialWaits(vc, s, y, rest, v);
        StreamSplits(vc, s + t, s + y, v, rest);
        BreaksInSteps(vc, Framed(v, s + y), DecodeStream(vc, rest).value, |s|);
      } else {
        ValueSuffix(vc, s);
        var u := Used(s, p.rest);
        UsedThenRest(s, p.rest);
        ValueLocal(vc, u, p.rest, p.value, p.rest + t);
        CoderLaws.Associative(u, p.rest, t);
        StreamSplits(vc, s + t, u, p.value, p.rest + t);
        BreaksInSteps(vc, Framed(p.value, u), DecodeStream(vc, p.rest + t).value, |s|);
        ToleratedIffNotBreaking(vc, p.rest, t);
      }
    }
  }

  /** No message but the last ends at a breaking offset of the stream of frames `fs`. */
  ghost predicate CutsSafe(vc: ValueCoder, fs: seq<Framed>, messages: seq<seq<Byte>>) {
    forall k :: 0 < k < |messages| ==> !CutBreaks(vc, fs, |Flatten(messages[..k])|)
  }

  /**
   The receive loop, for every stream of self-delimiting elements and every way to cut it
   into messages: it returns what the whole stream decodes to, unless some message ends at
   a breaking offset; then the bundle fails.
   */
  lemma {:induction false} ReceivesUnlessACutBreaks(vc: ValueCoder, messages: seq<seq<Byte>>)
    requires Delimiting(vc.element, false)
    ensures var stream := DecodeStream(vc, Flatten(messages));
            Receive(vc, [], messages) ==
            if stream.Some? && CutsSafe(vc, stream.value, messages) then stream else None
  {
    assert [] + Flatten(messages) == Flatten(messages);
    if Receive(vc, [], messages).Some? {
      ReceivedIsTheStream(vc, [], messages);
    }
    if messages != [] && DecodeStream(vc, Flatten(messages)).Some? {
      SafeIffTolerated(vc, messages);
      SucceedsIffCutsTolerated(vc, [], messages);
    }
  }

  lemma {:induction false} SafeIffTolerated(vc: ValueCoder, messages: seq<seq<Byte>>)
    requires Delimiting(vc.element, false) && DecodeStream(vc, Flatten(messages)).Some?
    ensures CutsSafe(vc, DecodeStream(vc, Flatten(messages)).value, messages) <==> CutsTolerated(vc, [], messages)
  {
    var fs := DecodeStream(vc, Flatten(messages)).value;
    forall k | 0 < k < |messages|
      ensures CutTolerated(vc, Arrived([], messages, k)) <==> !CutBreaks(vc, fs, |Flatten(messages[..k])|)
    {
      FlattenSplit(messages, k);
      assert Arrived([], messages, k) == Flatten(messages[..k]);
      ToleratedIffNotBreaking(vc, Flatten(messages[..k]), Flatten(messages[k..]));
    }
  }

  lemma {:induction false} FlattenSplit(messages: seq<seq<Byte>>, k: nat)
    requires k <= |messages|
    ensures Flatten(messages) == Flatten(messages[..k]) + Flatten(messages[k..])
    decreases k
  {
    if k == 0 {
      assert messages[0..] == messages && [] + Flatten(messages) == Flatten(messages);
    } else {
      FlattenSplit(messages[1..], k - 1);
      assert messages[1..][..k - 1] == messages[..k][1..] && messages[1..][k - 1..] == messages[k..];
      CoderLaws.Associative(messages[0], Flatten(messages[..k][1..]), Flatten(messages[k..]));
    }
  }

  // ----- particular coders -----

  lemma {:induction false} NeverBreaks(vc: ValueCoder, fs: seq<Framed>, n: nat)
    requires Truncation.NeverErrs(vc.element)
    ensures !CutBreaks(vc, fs, n)
    decreases |fs|
  {
    if fs == [] {
    } else if n >= |fs[0].frame| {
      NeverBreaks(vc, fs[1..], n - |fs[0].frame|);
    }
  }

  /** Elements of interruptible coders survive every segmentation of the stream. */
  lemma {:induction false} InterruptibleAlwaysReceived(vc: ValueCoder, messages: seq<seq<Byte>>)
    requires Truncation.Interruptible(vc.element)
    ensures Receive(vc, [], messages) == DecodeStream(vc, Flatten(messages))
  {
    Truncation.InterruptibleDelimits(vc.element);
    Truncation.InterruptibleNeverErrs(vc.element);
    var stream := DecodeStream(vc, Flatten(messages));
    if stream.Some? {
      forall k | 0 < k < |messages|
        ensures !CutBreaks(vc, stream.value, |Flatten(messages[..k])|)
      {
        NeverBreaks(vc, stream.value, |Flatten(messages[..k])|);
      }
    }
    ReceivesUnlessACutBreaks(vc, messages);
  }

  /** A leaf written as a length and that many bytes. */
  predicate IsDelimited(c: Coder) {
    c == StringUtf8 || c == BytesCoder || c == LengthPrefix || c == Pickle
  }

  function Payload(r: Record): seq<Byte> {
    if r.Prim? && r.value.Str? then r.value.utf8 else if r.Prim? && r.value.Raw? then r.value.bytes else []
  }

  /** The bytes of an element before its payload: the header and the length. */
  function PayloadStart(wc: WindowCoder, v: WindowedValue): nat {
    var head := EncodeHeader(wc, v);
    (if head.Some? then |head.value| else 0) + |Varint.Encode(|Payload(v.value)|)|
  }

  /** Offset `n` lies at the start of or inside the payload of one of the elements `vs`. */
  predicate InPayload(wc: WindowCoder, vs: seq<WindowedValue>, n: nat) {
    && vs != []
    && var start := PayloadStart(wc, vs[0]);
       var size := start + |Payload(vs[0].value)|;
       if n < size then start <= n else InPayload(wc, vs[1..], n - size)
  }

  lemma {:induction false} DelimitedRecord(c: Coder, r: Record, last: bool)
    requires IsDelimited(c) && Sendable(c, r, last)
    ensures |Payload(r)| < TWO_64 && Sendable(c, r, false) && Normal(c, r) == r
    ensures Encode(c, r) == Some(Varint.EncodeDelimited(Payload(r)))
  {
  }

  lemma {:induction false} DelimitedBytes(b: seq<Byte>)
    requires |b| < TWO_64
    ensures Varint.EncodeDelimited(b) == Varint.Encode(|b|) + b
  {
    FitsIn64(|b|);
  }

  /** Such an element, cut at `n`. */
  lemma {:induction false} DelimitedFault(vc: ValueCoder, v: WindowedValue, n: nat)
    requires IsDelimited(vc.element) && ValueSendable(vc, v, false)
    ensures EncodeValue(vc, v).Some?
    ensures |EncodeValue(vc, v).value| == PayloadStart(vc.window, v) + |Payload(v.value)|
    ensures ValueFaultAt(vc, EncodeValue(vc, v).value, n) == if n < PayloadStart(vc.window, v) then Panic else Error
  {
    var b := Payload(v.value);
    DelimitedRecord(vc.element, v.value, false);
    DelimitedBytes(b);
    HeaderRoundTrip(vc.window, v, Varint.Encode(|b|) + b);
    Varint.RoundTrip(|b|, b);
  }

  /** The frame of `v` errs exactly when cut in its payload. */
  ghost predicate ErrsInPayload(vc: ValueCoder, v: WindowedValue, f: Framed) {
    && |f.frame| == PayloadStart(vc.window, v) + |Payload(v.value)|
    && forall n: nat :: ValueFaultAt(vc, f.frame, n) == Error <==> PayloadStart(vc.window, v) <= n
  }

  lemma {:induction false} BreaksIffInPayload(vc: ValueCoder, vs: seq<WindowedValue>, fs: seq<Framed>, n: nat)
    requires |fs| == |vs| && forall i :: 0 <= i < |vs| ==> ErrsInPayload(vc, vs[i], fs[i])
    ensures CutBreaks(vc, fs, n) <==> InPayload(vc.window, vs, n)
    decreases |vs|
  {
    if vs == [] {
    } else {
      assert ErrsInPayload(vc, vs[0], fs[0]);
      if n >= |fs[0].frame| {
        BreaksIffInPayload(vc, vs[1..], fs[1..], n - |fs[0].frame|);
      }
    }
  }

  /** A length ends these elements wherever they stand. */
  lemma {:induction false} DelimitedFrame(vc: ValueCoder, v: WindowedValue, last: bool, f: Framed)
    requires IsDelimited(vc.element) && ValueSendable(vc, v, last) && EncodeValue(vc, v) == Some(f.frame)
    ensures ErrsInPayload(vc, v, f)
  {
    DelimitedRecord(vc.element, v.value, last);
    DelimitedFault(vc, v, 0);
    forall n: nat
      ensures ValueFaultAt(vc, f.frame, n) == Error <==> PayloadStart(vc.window, v) <= n
    {
      DelimitedFault(vc, v, n);
    }
  }

  /**
   Any number of strings, byte strings or pickled values, sent in any messages, arrive
   exactly when no message but the last ends at the start of or inside a payload.
   */
  lemma {:induction false} ReceivedIffNoCutInPayload(vc: ValueCoder, vs: seq<WindowedValue>, messages: seq<seq<Byte>>)
    requires IsDelimited(vc.element) && StreamSendable(vc, vs) && EncodeStream(vc, vs) == Some(Flatten(messages))
    ensures Receive(vc, [], messages).Some? <==>
            forall k :: 0 < k < |messages| ==> !InPayload(vc.window, vs, |Flatten(messages[..k])|)
  {
    StreamRoundTrip(vc, vs);
    ReceivesUnlessACutBreaks(vc, messages);
    var fs := DecodeStream(vc, Flatten(messages)).value;
    forall i | 0 <= i < |vs|
      ensures ErrsInPayload(vc, vs[i], fs[i])
    {
      DelimitedFrame(vc, vs[i], i == |vs| - 1, fs[i]);
    }
    forall k | 0 < k < |messages|
      ensures CutBreaks(vc, fs, |Flatten(messages[..k])|) <==> InPayload(vc.window, vs, |Flatten(messages[..k])|)
    {
      BreaksIffInPayload(vc, vs, fs, |Flatten(messages[..k])|);
    }
  }

  // ----- inputs on which the loop does not wait -----

  /** One element in two messages. */
  lemma {:induction false} TwoMessages(vc: ValueCoder, x: seq<Byte>, y: seq<Byte>, v: WindowedValue)
    requires Delimiting(vc.element, false) && x != [] && y != []
    requires DecodeValue(vc, x + y) == Done(v, []) && ValueFaultAt(vc, x + y, |x|) == Error
    ensures Receive(vc, [], [x, y]) == None && DecodeStream(vc, x + y) == Some([Framed(v, x + y)])
  {
    var messages, fs := [x, y], [Framed(v, x + y)];
    OneElementStream(vc, x + y, v);
    assert Flatten(messages) == x + y by {
      var last := [y];
      assert messages[1..] == last && last[1..] == [];
      assert Flatten(last) == y + [];
    }
    assert Flatten(messages[..1]) == x by {
      ArrivedFirst([], messages);
      assert [] + Flatten(messages[..1]) == Flatten(messages[..1]) && [] + x == x;
    }
    assert CutBreaks(vc, fs, |x|);
    ReceivesUnlessACutBreaks(vc, messages);
  }

  /** A byte string whose last byte comes in a message of its own is lost, although its stream decodes. */
  lemma {:induction false} SplitPayloadFailsBundle(v: WindowedValue, b: seq<Byte>)
    returns (x: seq<Byte>, y: seq<Byte>)
    requires v.value == Prim(Raw(b)) && v.windows == [WindowKeys.Global] && 0 < |b| < TWO_64
    ensures var vc := ValueCoder(BytesCoder, GlobalWindow);
            && EncodeValue(vc, v) == Some(x + y) && |y| == 1
            && Receive(vc, [], [x, y]) == None && DecodeStream(vc, x + y).Some?
  {
    var vc := ValueCoder(BytesCoder, GlobalWindow);
    assert ValueSendable(vc, v, false) && ValueSendable(vc, v, true);
    ValueRoundTrip(vc, v, []);
    var s := EncodeValue(vc, v).value;
    x, y := s[..|s| - 1], s[|s| - 1..];
    assert x + y == s && s + [] == s;
    DelimitedFault(vc, v, |x|);
    TwoMessages(vc, x, y, NormalValue(vc, v));
  }

  /** Self-delimitation is needed: opaque Java bytes in two messages arrive truncated or not at all. */
  lemma {:induction false} OpaqueElementTruncated(wc: WindowCoder, v: WindowedValue, p: seq<Byte>, q: seq<Byte>)
    returns (x: seq<Byte>)
    requires v.value == Prim(Raw(p + q)) && q != [] && WindowsFit(wc, v.windows) && |v.windows| < TWO_31
    ensures var vc := ValueCoder(JavaOpaque, wc);
            && EncodeValue(vc, v) == Some(x + q) && DecodeStream(vc, x + q) == Some([Framed(v, x + q)])
            && Receive(vc, [], [x, q]) != DecodeStream(vc, x + q)
  {
    var vc, part := ValueCoder(JavaOpaque, wc), v.(value := Prim(Raw(p)));
    OpaqueValue(wc, v, p + q);
    OpaqueValue(wc, part, p);
    var head := EncodeHeader(wc, v).value;
    x := head + p;
    CoderLaws.Associative(head, p, q);
    assert part != v by { assert |p + q| > |p|; }
    ReadTwoWays(vc, x, q, part, v);
  }

  lemma {:induction false} ReadTwoWays(
    vc: ValueCoder, x: seq<Byte>, y: seq<Byte>, part: WindowedValue, v: WindowedValue)
    requires x != [] && DecodeValue(vc, x) == Done(part, []) && DecodeValue(vc, x + y) == Done(v, []) && part != v
    ensures DecodeStream(vc, x + y) == Some([Framed(v, x + y)])
    ensures Receive(vc, [], [x, y]) != DecodeStream(vc, x + y)
  {
    OneElementStream(vc, x + y, v);
    FirstMessageDecodes(vc, x, y, part);
  }

  lemma {:induction false} OneElementStream(vc: ValueCoder, s: seq<Byte>, v: WindowedValue)
    requires s != [] && DecodeValue(vc, s) == Done(v, [])
    ensures DecodeStream(vc, s) == Some([Framed(v, s)])
  {
    assert s[..|s| - 0] == s;
    assert DecodeStream(vc, []) == Some([]);
    assert [Framed(v, s)] + [] == [Framed(v, s)];
  }

  lemma {:induction false} OpaqueValue(wc: WindowCoder, v: WindowedValue, b: seq<Byte>)
    requires v.value == Prim(Raw(b)) && WindowsFit(wc, v.windows) && |v.windows| < TWO_31
    ensures EncodeHeader(wc, v).Some? && EncodeHeader(wc, v).value != []
    ensures var vc, s := ValueCoder(JavaOpaque, wc), EncodeHeader(wc, v).value + b;
            EncodeValue(vc, v) == Some(s) && DecodeValue(vc, s) == Done(v, [])
  {
    HeaderRoundTrip(wc, v, b);
    assert Decode(JavaOpaque, b) == Done(Prim(Raw(b)), []);
  }

  lemma {:induction false} FirstMessageDecodes(vc: ValueCoder, x: seq<Byte>, y: seq<Byte>, v: WindowedValue)
    requires x != [] && DecodeValue(vc, x) == Done(v, [])
    ensures var r := Receive(vc, [], [x, y]); r.Some? ==> r.value != [] && r.value[0].value == v
  {
    assert [] + x == x;
    var d := Drain(vc, x, false);
    assert d.out == [Framed(v, x[..|x|])] + Drain(vc, [], false).out;
  }

  /** Not only payloads: a cut between an integer key and a double is an error too. */
  lemma {:induction false} DoubleCutAtItsStart(i: Int64, bits: UInt64)
    ensures var key := Varint.EncodeSigned(i);
            && Encode(Kv(VarInt, Double), KV(Int64(i), Prim(Float64(bits)))) == Some(key + BigEndian(8, bits))
            && Decode(Kv(VarInt, Double), key) == Failed(Error)
  {
    var key := Varint.EncodeSigned(i);
    Varint.SignedRoundTrip(i, []);
    assert key + [] == key;
  }
}
