/** The loops that write and read windows, windowed values, timers and whole element streams. */
module WindowedIo {
  import opened Bytes
  import opened Utf8
  import opened Coders
  import opened WindowKeys
  import opened WindowedValues
  import opened CoderIo
  import CoderLaws
  import Panes
  import Reassembly
  import TimerCodec
  import Varint

  // ----- windows -----

  method PutWindow(wc: WindowCoder, w: Window, buf: WriteBuf) returns (ok: bool)
    modifies buf
    ensures Wrote(ok, old(buf.bytes), buf.bytes, EncodeWindow(wc, w))
  {
    ok := true;
    if wc.GlobalWindow? && w.Global? {
      assert buf.bytes + [] == buf.bytes;
    } else if wc.IntervalWindow? && w.Interval? {
      buf.PutSlice(Ordered64(w.end));
      Varint.PutSigned(Wrap64(w.end - w.start), buf);
    } else if wc.OpaqueWindow? && w.Opaque? && w.coderId == wc.innerCoderId {
      Varint.PutDelimited(w.bytes, buf);
    } else {
      ok := false;
    }
  }

  method PutWindows(wc: WindowCoder, ws: seq<Window>, buf: WriteBuf) returns (ok: bool)
    modifies buf
    ensures Wrote(ok, old(buf.bytes), buf.bytes, EncodeWindows(wc, ws))
  {
    ghost var before, count := buf.bytes, BigEndian(4, |ws| % TWO_32);
    buf.PutSlice(BigEndian(4, |ws| % TWO_32));
    ghost var start, done := buf.bytes, [];
    CoderLaws.AppendToNothing(EncodeWindowList(wc, ws));
    assert ws[0..] == ws;
    var i := 0;
    while i < |ws|
      invariant 0 <= i <= |ws|
      invariant buf.bytes == start + done
      invariant EncodeWindowList(wc, ws) == Append(Some(done), EncodeWindowList(wc, ws[i..]))
    {
      ok := PutWindow(wc, ws[i], buf);
      assert ws[i..][1..] == ws[i + 1..];
      if !ok {
        return;
      }
      ghost var b := EncodeWindow(wc, ws[i]).value;
      CoderLaws.AppendAssociative(Some(done), Some(b), EncodeWindowList(wc, ws[i + 1..]));
      done := done + b;
      i := i + 1;
    }
    assert EncodeWindowList(wc, ws) == Some(done) by { assert done + [] == done; }
    CoderLaws.Associative(before, count, done);
    ok := true;
  }

  method GetWindow(wc: WindowCoder, buf: ReadBuf) returns (r: Result<Window>)
    modifies buf
    ensures Agrees(r, buf.rest, DecodeWindow(wc, old(buf.rest)))
  {
    if wc.GlobalWindow? {
      r := Ok(Global);
    } else if wc.IntervalWindow? {
      var end :- buf.GetOrdered64();
      var span :- Varint.GetSigned(buf);
      var stop: int := end;
      r := Ok(Interval(Wrap64(stop - span), end));
    } else {
      var n :- Varint.GetVarint(buf);
      var bytes :- buf.GetSlice(n);
      r := Ok(Opaque(wc.innerCoderId, bytes));
    }
  }

  method GetManyWindows(wc: WindowCoder, n: nat, buf: ReadBuf) returns (r: Result<seq<Window>>)
    modifies buf
    ensures Agrees(r, buf.rest, DecodeManyWindows(wc, n, old(buf.rest)))
  {
    var windows := [];
    ghost var start := buf.rest;
    PrependNone(DecodeManyWindows(wc, n, start));
    var i := 0;
    while i < n
      invariant 0 <= i <= n
      invariant DecodeManyWindows(wc, n, start) == Prepend(windows, DecodeManyWindows(wc, n - i, buf.rest))
    {
      var w :- GetWindow(wc, buf);
      PrependAppend(windows, [w], DecodeManyWindows(wc, n - i - 1, buf.rest));
      windows := windows + [w];
      i := i + 1;
    }
    assert windows + [] == windows;
    r := Ok(windows);
  }

  method GetWindows(wc: WindowCoder, buf: ReadBuf) returns (r: Result<seq<Window>>)
    modifies buf
    ensures Agrees(r, buf.rest, DecodeWindows(wc, old(buf.rest)))
  {
    var count :- buf.GetNumber(4);
    if count < TWO_31 {
      r := GetManyWindows(wc, count, buf);
      return;
    }
    var windows := [];
    ghost var start := buf.rest;
    PrependNone(DecodeWindowChunks(wc, start));
    while true
      invariant DecodeWindowChunks(wc, start) == Prepend(windows, DecodeWindowChunks(wc, buf.rest))
      decreases |buf.rest|
    {
      var n :- Varint.GetVarint(buf);
      if n == 0 {
        break;
      }
      var chunk :- GetManyWindows(wc, n, buf);
      PrependAppend(windows, chunk, DecodeWindowChunks(wc, buf.rest));
      windows := windows + chunk;
    }
    assert windows + [] == windows;
    r := Ok(windows);
  }

  // ----- windowed values -----

  method PutValue(vc: ValueCoder, v: WindowedValue, buf: WriteBuf) returns (ok: bool)
    modifies buf
    ensures Wrote(ok, old(buf.bytes), buf.bytes, EncodeValue(vc, v))
  {
    ghost var before := buf.bytes;
    buf.PutSlice(Ordered64(v.timestamp));
    ok := PutWindows(vc.window, v.windows, buf);
    if !ok {
      return;
    }
    Panes.PutPane(v.pane, buf);
    HeaderInSteps(vc.window, v, before);
    ok := PutRecord(vc.element, v.value, buf);
    if ok {
      CoderLaws.Associative(before, EncodeHeader(vc.window, v).value, Encode(vc.element, v.value).value);
    }
  }

  lemma HeaderInSteps(wc: WindowCoder, v: WindowedValue, before: seq<Byte>)
    requires EncodeWindows(wc, v.windows).Some?
    ensures EncodeHeader(wc, v).Some?
    ensures before + Ordered64(v.timestamp) + EncodeWindows(wc, v.windows).value + Panes.Encode(v.pane)
            == before + EncodeHeader(wc, v).value
  {
    var a, b, c := Ordered64(v.timestamp), EncodeWindows(wc, v.windows).value, Panes.Encode(v.pane);
    CoderLaws.Associative(before, a, b);
    CoderLaws.Associative(before, a + b, c);
  }

  method GetValue(vc: ValueCoder, buf: ReadBuf) returns (r: Result<WindowedValue>)
    modifies buf
    ensures Agrees(r, buf.rest, DecodeValue(vc, old(buf.rest)))
  {
    var timestamp :- buf.GetOrdered64();
    var windows :- GetWindows(vc.window, buf);
    var pane :- Panes.GetPane(buf);
    var value :- GetRecord(vc.element, buf);
    r := Ok(WindowedValue(value, timestamp, windows, pane));
  }

  // ----- the receive loop -----

  /** Decodes what it can from `buffer`; each attempt reads through its own cursor, so a fault consumes nothing. */
  method DrainBuffer(vc: ValueCoder, buffer: seq<Byte>, ended: bool)
    returns (out: seq<Framed>, rest: seq<Byte>, aborted: bool)
    ensures Reassembly.Drained(out, rest, aborted) == Reassembly.Drain(vc, buffer, ended)
  {
    out, rest, aborted := [], buffer, false;
    ContinuedNone(Reassembly.Drain(vc, buffer, ended));
    while rest != []
      invariant Reassembly.Drain(vc, buffer, ended) == Continued(out, Reassembly.Drain(vc, rest, ended))
      decreases |rest|
    {
      var cursor := new ReadBuf(rest);
      var v := GetValue(vc, cursor);
      if v.Err? {
        assert out + [] == out;
        aborted := v.fault == Error || ended;
        return;
      }
      var consumed := |rest| - |cursor.rest|;
      var element := Framed(v.value, rest[..consumed]);
      DrainSplits(vc, rest, ended, v.value, cursor.rest);
      ContinuedAppend(out, [element], Reassembly.Drain(vc, cursor.rest, ended));
      out := out + [element];
      rest := cursor.rest;
    }
    assert out + [] == out;
  }

  ghost function Continued(out: seq<Framed>, d: Reassembly.Drained): Reassembly.Drained {
    d.(out := out + d.out)
  }

  lemma ContinuedNone(d: Reassembly.Drained)
    ensures Continued([], d) == d
  {
    assert [] + d.out == d.out;
  }

  lemma ContinuedAppend(out: seq<Framed>, more: seq<Framed>, d: Reassembly.Drained)
    ensures Continued(out, Continued(more, d)) == Continued(out + more, d)
  {
    assert out + (more + d.out) == (out + more) + d.out;
  }

  lemma {:induction false} DrainSplits(vc: ValueCoder, s: seq<Byte>, ended: bool, v: WindowedValue, rest: seq<Byte>)
    requires s != [] && DecodeValue(vc, s) == Done(v, rest)
    ensures Reassembly.Drain(vc, s, ended) ==
            Continued([Framed(v, s[..|s| - |rest|])], Reassembly.Drain(vc, rest, ended))
  {
    var f, d := Framed(v, s[..|s| - |rest|]), Reassembly.Drain(vc, rest, ended);
    assert Reassembly.Drain(vc, s, ended) == d.(out := [f] + d.out);
  }

  /** `process_output_elements`: one data message at a time. */
  method ReceiveMessages(vc: ValueCoder, messages: seq<seq<Byte>>) returns (r: Option<seq<Framed>>)
    ensures r == Reassembly.Receive(vc, [], messages)
  {
    var buffer, elements := [], [];
    var i := 0;
    assert messages[0..] == messages;
    JoinedNothing(Reassembly.Receive(vc, [], messages));
    while i < |messages|
      invariant 0 <= i <= |messages|
      invariant Reassembly.Receive(vc, [], messages) ==
                Joined(elements, Reassembly.Receive(vc, buffer, messages[i..]))
    {
      var out, rest, aborted := DrainBuffer(vc, buffer + messages[i], i == |messages| - 1);
      assert messages[i..][1..] == messages[i + 1..];
      if aborted {
        return None;
      }
      JoinedAssociative(elements, out, Reassembly.Receive(vc, rest, messages[i + 1..]));
      elements := elements + out;
      buffer := rest;
      i := i + 1;
    }
    assert elements + [] == elements;
    r := if buffer == [] then Some(elements) else None;
  }

  // ----- timers -----

  method PutTimer(tc: TimerCodec.TimerCoder, t: TimerCodec.Timer, buf: WriteBuf) returns (ok: bool)
    modifies buf
    ensures Wrote(ok, old(buf.bytes), buf.bytes, TimerCodec.Encode(tc, t))
  {
    ghost var before := buf.bytes;
    ghost var tag := Varint.EncodeDelimited(t.tag);
    buf.PutSlice(t.userKey);
    Varint.PutDelimited(t.tag, buf);
    ok := PutWindows(tc.window, t.windows, buf);
    if !ok {
      return;
    }
    ghost var ws := EncodeWindows(tc.window, t.windows).value;
    PutSetting(t, buf);
    Regroup(before, t.userKey, tag, ws, TimerCodec.EncodeSetting(t));
  }

  method PutSetting(t: TimerCodec.Timer, buf: WriteBuf)
    modifies buf
    ensures buf.bytes == old(buf.bytes) + TimerCodec.EncodeSetting(t)
  {
    buf.PutByte(if t.clear then 1 else 0);
    if !t.clear {
      buf.PutSlice(Ordered64(t.fire));
      buf.PutSlice(Ordered64(t.hold));
      Panes.PutPane(t.pane, buf);
    }
  }

  lemma Regroup(a: seq<Byte>, b: seq<Byte>, c: seq<Byte>, d: seq<Byte>, e: seq<Byte>)
    ensures (((a + b) + c) + d) + e == a + (b + (c + (d + e)))
  {
  }

  method GetTimer(tc: TimerCodec.TimerCoder, buf: ReadBuf) returns (r: Result<TimerCodec.Timer>)
    modifies buf
    ensures Agrees(r, buf.rest, TimerCodec.Decode(tc, old(buf.rest)))
  {
    var key :- GetRecord(tc.key, buf);
    var raw := new WriteBuf();
    var ok := PutRecord(tc.key, key, raw);
    assert ok ==> [] + Encode(tc.key, key).value == Encode(tc.key, key).value;
    if !ok {
      return Err(Panic);
    }
    var n :- Varint.GetVarint(buf);
    var tag :- buf.GetSlice(n);
    if !ValidUtf8(tag) {
      return Err(Error);
    }
    var windows :- GetWindows(tc.window, buf);
    var b :- buf.GetByte();
    var fire: Int64, hold: Int64, pane := 0, 0, Panes.NO_FIRING;
    if b == 0 {
      fire :- buf.GetOrdered64();
      hold :- buf.GetOrdered64();
      pane :- Panes.GetPane(buf);
    }
    r := Ok(TimerCodec.Timer(raw.bytes, tag, windows, b != 0, fire, hold, pane));
  }
}
