/** The user-timer coder: key, tag, windows, clear bit and, for a set timer, two timestamps and a pane. */
module TimerCodec {
  import opened Bytes
  import opened Utf8
  import opened Coders
  import opened WindowKeys
  import opened WindowedValues
  import CoderLaws
  import CoderTheorems
  import Panes
  import Varint

  datatype Timer = Timer(
    userKey: seq<Byte>, tag: seq<Byte>, windows: seq<Window>, clear: bool,
    fire: Int64, hold: Int64, pane: Panes.Pane)

  datatype TimerCoder = TimerCoder(key: Coder, window: WindowCoder)

  /** The clear bit and, for a timer that is set, its times and pane. */
  function EncodeSetting(t: Timer): seq<Byte> {
    if t.clear then [1] else [0] + EncodeTimes(t)
  }

  function EncodeTimes(t: Timer): seq<Byte> {
    Ordered64(t.fire) + (Ordered64(t.hold) + Panes.Encode(t.pane))
  }

  /** Everything after the key. */
  function EncodeBody(wc: WindowCoder, t: Timer): Option<seq<Byte>> {
    Append(Some(Varint.EncodeDelimited(t.tag)),
           Append(EncodeWindows(wc, t.windows), Some(EncodeSetting(t))))
  }

  /** `encode_into`: the key bytes are emitted verbatim. */
  function Encode(tc: TimerCoder, t: Timer): Option<seq<Byte>> {
    Append(Some(t.userKey), EncodeBody(tc.window, t))
  }

  datatype Setting = Setting(clear: bool, fire: Int64, hold: Int64, pane: Panes.Pane)

  function DecodeTimes(s: seq<Byte>): (p: Parse<Setting>)
    ensures p.Done? ==> |p.rest| <= |s|
  {
    match TakeOrdered64(s)
    case Failed(why) => Failed(why)
    case Done(fire, s1) =>
      match TakeOrdered64(s1)
      case Failed(why) => Failed(why)
      case Done(hold, s2) =>
        match Panes.Decode(s2)
        case Failed(why) => Failed(why)
        case Done(pane, rest) => Done(Setting(false, fire, hold, pane), rest)
  }

  function DecodeSetting(s: seq<Byte>): (p: Parse<Setting>)
    ensures p.Done? ==> |p.rest| < |s|
  {
    match TakeByte(s)
    case Failed(why) => Failed(why)
    case Done(b, s1) => if b != 0 then Done(Setting(true, 0, 0, Panes.NO_FIRING), s1) else DecodeTimes(s1)
  }

  /** The tag is copied without a bounds check, then validated. */
  function DecodeTag(s: seq<Byte>): (p: Parse<seq<Byte>>)
    ensures p.Done? ==> |p.rest| < |s|
  {
    match Varint.Decode(s)
    case Failed(why) => Failed(why)
    case Done(n, s1) =>
      match Take(n, s1)
      case Failed(why) => Failed(why)
      case Done(tag, rest) => if ValidUtf8(tag) then Done(tag, rest) else Failed(Error)
  }

  function DecodeBody(wc: WindowCoder, userKey: seq<Byte>, s: seq<Byte>): (p: Parse<Timer>)
    ensures p.Done? ==> |p.rest| < |s|
  {
    match DecodeTag(s)
    case Failed(why) => Failed(why)
    case Done(tag, s1) =>
      match DecodeWindows(wc, s1)
      case Failed(why) => Failed(why)
      case Done(windows, s2) =>
        match DecodeSetting(s2)
        case Failed(why) => Failed(why)
        case Done(x, rest) => Done(Timer(userKey, tag, windows, x.clear, x.fire, x.hold, x.pane), rest)
  }

  /** `decode`: the key is decoded and re-encoded to find its bytes. */
  function Decode(tc: TimerCoder, s: seq<Byte>): (p: Parse<Timer>)
    ensures p.Done? ==> |p.rest| < |s|
  {
    match Coders.Decode(tc.key, s)
    case Failed(why) => Failed(why)
    case Done(r, s1) =>
      match Coders.Encode(tc.key, r)
      case None => Failed(Panic)
      case Some(userKey) => DecodeBody(tc.window, userKey, s1)
  }

  /** A key in canonical form: the encoding of a record that may be followed by anything. */
  ghost predicate CanonicalKeyBytes(k: Coder, bytes: seq<Byte>) {
    exists r :: Sendable(k, r, false) && Coders.Encode(k, r) == Some(bytes)
  }

  ghost predicate TimerSendable(tc: TimerCoder, t: Timer) {
    && CanonicalKeyBytes(tc.key, t.userKey)
    && ValidUtf8(t.tag) && |t.tag| < TWO_64
    && WindowsFit(tc.window, t.windows) && |t.windows| < TWO_31
  }

  /** What a timer means: a cleared timer carries no times and no pane. */
  function Meaning(t: Timer): Timer {
    if t.clear then t.(fire := 0, hold := 0, pane := Panes.NO_FIRING) else t
  }

  lemma {:induction false} TimesRoundTrip(t: Timer, rest: seq<Byte>)
    ensures DecodeTimes(EncodeTimes(t) + rest) == Done(Setting(false, t.fire, t.hold, t.pane), rest)
  {
    var a, b, c := Ordered64(t.fire), Ordered64(t.hold), Panes.Encode(t.pane);
    CoderLaws.Associative(a, b + c, rest);
    CoderLaws.Associative(b, c, rest);
    TakeOrdered64OfOrdered64(t.fire, b + (c + rest));
    TakeOrdered64OfOrdered64(t.hold, c + rest);
    Panes.RoundTrip(t.pane, rest);
  }

  lemma {:induction false} SettingRoundTrip(t: Timer, rest: seq<Byte>)
    ensures var m := Meaning(t);
            DecodeSetting(EncodeSetting(t) + rest) == Done(Setting(m.clear, m.fire, m.hold, m.pane), rest)
  {
    if t.clear {
      TakeByteOf(1, rest);
    } else {
      var times := EncodeTimes(t);
      TimesRoundTrip(t, rest);
      CoderLaws.Associative([0], times, rest);
      TakeByteOf(0, times + rest);
    }
  }

  lemma TakeByteOf(b: Byte, s: seq<Byte>)
    ensures TakeByte([b] + s) == Done(b, s)
  {
  }

  lemma {:induction false} TagRoundTrip(tag: seq<Byte>, rest: seq<Byte>)
    requires ValidUtf8(tag) && |tag| < TWO_64
    ensures DecodeTag(Varint.EncodeDelimited(tag) + rest) == Done(tag, rest)
  {
    Varint.RoundTrip(|tag|, tag + rest);
    assert |tag| % TWO_64 == |tag|;
    CoderLaws.Associative(Varint.Encode(|tag|), tag, rest);
    assert (tag + rest)[..|tag|] == tag && (tag + rest)[|tag|..] == rest;
  }

  lemma {:induction false} BodyRoundTrip(wc: WindowCoder, t: Timer, rest: seq<Byte>)
    requires ValidUtf8(t.tag) && |t.tag| < TWO_64 && WindowsFit(wc, t.windows) && |t.windows| < TWO_31
    ensures EncodeBody(wc, t).Some?
    ensures DecodeBody(wc, t.userKey, EncodeBody(wc, t).value + rest) == Done(Meaning(t), rest)
  {
    var tag, setting := Varint.EncodeDelimited(t.tag), EncodeSetting(t);
    SettingRoundTrip(t, rest);
    WindowsRoundTrip(wc, t.windows, setting + rest);
    var ws := EncodeWindows(wc, t.windows).value;
    TagRoundTrip(t.tag, ws + (setting + rest));
    CoderLaws.Associative(tag, ws + setting, rest);
    CoderLaws.Associative(ws, setting, rest);
  }

  /** A timer with a canonical key comes back as what it means, whatever follows. */
  lemma {:induction false} TimerRoundTrip(tc: TimerCoder, t: Timer, rest: seq<Byte>)
    requires TimerSendable(tc, t)
    ensures Encode(tc, t).Some? && Decode(tc, Encode(tc, t).value + rest) == Done(Meaning(t), rest)
    ensures Meaning(t) == if !t.clear then t
                          else Timer(t.userKey, t.tag, t.windows, true, 0, 0,
                                     Panes.Pane(true, true, Panes.Unknown, 0, 0))
  {
    var r :| Sendable(tc.key, r, false) && Coders.Encode(tc.key, r) == Some(t.userKey);
    BodyRoundTrip(tc.window, t, rest);
    var body := EncodeBody(tc.window, t).value;
    CoderLaws.SendableMonotone(tc.key, r, false, body + rest == []);
    CoderLaws.RoundTrip(tc.key, r, body + rest);
    CoderLaws.EncodeNormal(tc.key, r);
    CoderLaws.Associative(t.userKey, body, rest);
  }

  function EncodeAll(tc: TimerCoder, ts: seq<Timer>): Option<seq<Byte>> {
    if ts == [] then Some([]) else Append(Encode(tc, ts[0]), EncodeAll(tc, ts[1..]))
  }

  /** The timer stream loop: decode until no byte is left. */
  function DecodeAll(tc: TimerCoder, s: seq<Byte>): Option<seq<Timer>>
    decreases |s|
  {
    if s == [] then Some([])
    else
      match Decode(tc, s)
      case Failed(_) => None
      case Done(t, rest) => match DecodeAll(tc, rest) case None => None case Some(ts) => Some([t] + ts)
  }

  function Meanings(ts: seq<Timer>): seq<Timer> {
    if ts == [] then [] else [Meaning(ts[0])] + Meanings(ts[1..])
  }

  /** Any stream of timers decodes to the same timers with every byte consumed. */
  lemma {:induction false} TimersRoundTrip(tc: TimerCoder, ts: seq<Timer>)
    requires forall i :: 0 <= i < |ts| ==> TimerSendable(tc, ts[i])
    ensures EncodeAll(tc, ts).Some? && DecodeAll(tc, EncodeAll(tc, ts).value) == Some(Meanings(ts))
    decreases |ts|
  {
    if ts == [] {
    } else {
      TimersRoundTrip(tc, ts[1..]);
      var b := EncodeAll(tc, ts[1..]).value;
      TimerRoundTrip(tc, ts[0], b);
      assert EncodeBody(tc.window, ts[0]).value != [];
      assert Encode(tc, ts[0]).value + b != [];
    }
  }

  /** Every decoded timer is already what it means, and its key is re-emitted in canonical form. */
  lemma {:induction false} DecodedTimerIsStable(tc: TimerCoder, s: seq<Byte>)
    requires Decode(tc, s).Done?
    ensures Meaning(Decode(tc, s).value) == Decode(tc, s).value
    ensures CanonicalKeyBytes(tc.key, Decode(tc, s).value.userKey)
  {
    var p := Coders.Decode(tc.key, s);
    var body := DecodeBody(tc.window, Coders.Encode(tc.key, p.value).value, p.rest);
    assert body.Done? && Decode(tc, s) == body;
    assert p.rest != [];
    DecodedKeyIsCanonical(tc.key, s);
  }

  /** A key with bytes behind it needs none of its own to end it. */
  lemma {:induction false} DecodedKeyIsCanonical(k: Coder, s: seq<Byte>)
    requires Coders.Decode(k, s).Done? && Coders.Decode(k, s).rest != []
    ensures var bytes := Coders.Encode(k, Coders.Decode(k, s).value);
            bytes.Some? ==> CanonicalKeyBytes(k, bytes.value)
  {
    CoderLaws.DecodeCanonical(k, s);
    CoderTheorems.DecodeThenEncode(k, s);
  }
}
