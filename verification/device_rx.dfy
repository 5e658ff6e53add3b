/** The device's receive parser (onboard/vscope.c, `vscopeFeed` and the
    `rx_*` state).

    The parser is modelled on its own: it turns the bytes of one call into the
    frames it dispatches, in order. The command handlers never read or write
    the `rx_*` variables and the parser never reads the handlers' state, so
    running the handlers after the parser, one frame at a time, is the same as
    running them from inside the loop. */
module DeviceRx {
  import opened Bytes
  import opened DeviceWire

  datatype Phase = Idle | Len | Data

  /** `rx_state`, `rx_expected_len`, `rx_last_us`, and the bytes stored in
      `rx_buf` so far; `rx_index` is the length of `buf`. */
  datatype Rx = Rx(phase: Phase, expectedLen: nat, lastUs: u32, buf: seq<byte>)

  /** A frame handed to `vscope_handle_frame`: its type byte and the payload
      after it. */
  datatype Frame = Frame(msgType: byte, payload: seq<byte>)

  /** The size of `rx_buf`, and the largest length byte accepted. */
  const RX_BUF_LEN: nat := MAX_PAYLOAD + 2

  /** The zero-initialised parser. */
  function PowerOn(): (rx: Rx)
    ensures Valid(rx) && rx.phase == Idle
  {
    Rx(Idle, 0, 0, [])
  }

  /** The parser's invariant: outside DATA nothing is stored, and inside DATA
      the expected length was accepted and the frame is still incomplete, so
      the next byte is stored inside `rx_buf`. */
  ghost predicate Valid(rx: Rx)
  {
    && (rx.phase == Data ==> 2 <= rx.expectedLen <= RX_BUF_LEN && |rx.buf| < rx.expectedLen)
    && (rx.phase != Data ==> rx.expectedLen == 0 && rx.buf == [])
  }

  /** `vscope_reset_rx`, which leaves `rx_last_us` alone. */
  function Reset(rx: Rx): (r: Rx)
    ensures Valid(r) && r.phase == Idle && r.lastUs == rx.lastUs
  {
    Rx(Idle, 0, rx.lastUs, [])
  }

  /** The frame a complete buffer of `L` bytes carries, if its last byte is
      the CRC of the others. */
  function Dispatched(buf: seq<byte>): (r: Option<Frame>)
    requires |buf| >= 2
    ensures r.Some? <==> buf[|buf| - 1] == DeviceCrc8(buf[..|buf| - 1])
    ensures r.Some? ==> [r.value.msgType] + r.value.payload == buf[..|buf| - 1]
  {
    var n := |buf| - 1;
    if buf[n] == DeviceCrc8(buf[..n]) then Some(Frame(buf[0], buf[1..n])) else None
  }

  datatype Stepped = Stepped(rx: Rx, frame: Option<Frame>)

  /** One iteration of the loop in `vscopeFeed`. */
  function Step(rx: Rx, b: byte, now: u32): (r: Stepped)
    requires Valid(rx)
    ensures Valid(r.rx)
    ensures r.frame.Some? ==> rx.phase == Data && |rx.buf| + 1 == rx.expectedLen
    ensures r.rx.phase != Idle ==> r.rx.lastUs == now
  {
    match rx.phase
    case Idle =>
      if b == SYNC_BYTE then Stepped(rx.(phase := Len, lastUs := now), None)
      else Stepped(rx, None)
    case Len =>
      if b < 2 || b as int > RX_BUF_LEN then Stepped(Reset(rx).(lastUs := now), None)
      else Stepped(Rx(Data, b as int, now, []), None)
    case Data =>
      var buf := rx.buf + [b];
      if |buf| >= rx.expectedLen then Stepped(Rx(Idle, 0, now, []), Dispatched(buf))
      else Stepped(rx.(buf := buf, lastUs := now), None)
  }

  datatype Fed = Fed(rx: Rx, frames: seq<Frame>)

  /** The loop of `vscopeFeed` over `data`, all at timestamp `now`. */
  function FeedBytes(rx: Rx, data: seq<byte>, now: u32): (r: Fed)
    requires Valid(rx)
    ensures Valid(r.rx)
    ensures |data| > 0 && r.rx.phase != Idle ==> r.rx.lastUs == now
    ensures |r.frames| <= |data|
    decreases |data|
  {
    if |data| == 0 then Fed(rx, [])
    else
      var s := Step(rx, data[0], now);
      var rest := FeedBytes(s.rx, data[1..], now);
      if s.frame.Some? then Fed(rest.rx, [s.frame.value] + rest.frames) else rest
  }

  /** Microseconds since `last`, as the unsigned 32-bit difference. */
  function Elapsed(now: u32, last: u32): (e: u32)
    ensures now >= last ==> e == now - last
    ensures now < last ==> e == now + U32_MODULUS - last
  {
    (now - last) % U32_MODULUS
  }

  /** `vscopeFeed`: an empty call does nothing; otherwise a frame left
      unfinished for more than FRAME_TIMEOUT_US is abandoned first. */
  function Feed(rx: Rx, data: seq<byte>, now: u32): (r: Fed)
    requires Valid(rx)
    ensures Valid(r.rx)
    ensures |data| == 0 ==> r == Fed(rx, [])
    ensures |data| > 0 && r.rx.phase != Idle ==> r.rx.lastUs == now
  {
    if |data| == 0 then Fed(rx, [])
    else
      var start := if rx.phase != Idle && Elapsed(now, rx.lastUs) > FRAME_TIMEOUT_US then Reset(rx) else rx;
      FeedBytes(start, data, now)
  }

  // ---------------------------------------------------------------- single bytes

  /** In IDLE every byte but the sync byte is ignored, without even touching
      the clock; the sync byte moves to LEN. */
  lemma IdleWaitsForSync(rx: Rx, b: byte, now: u32)
    requires Valid(rx) && rx.phase == Idle
    ensures b != SYNC_BYTE ==> Step(rx, b, now) == Stepped(rx, None)
    ensures b == SYNC_BYTE ==> Step(rx, b, now) == Stepped(Rx(Len, 0, now, []), None)
  {
  }

  /** In LEN a length outside [2, 254] returns to IDLE; any other starts DATA
      with nothing stored. */
  lemma LengthByte(rx: Rx, b: byte, now: u32)
    requires Valid(rx) && rx.phase == Len
    ensures !(2 <= b as int <= RX_BUF_LEN) ==> Step(rx, b, now) == Stepped(Rx(Idle, 0, now, []), None)
    ensures 2 <= b as int <= RX_BUF_LEN ==> Step(rx, b, now) == Stepped(Rx(Data, b as int, now, []), None)
  {
  }

  /** The `L`-th data byte ends the frame: it is dispatched exactly when the
      CRC matches, and either way the parser is back in IDLE. */
  lemma LastDataByte(rx: Rx, b: byte, now: u32)
    requires Valid(rx) && rx.phase == Data && |rx.buf| + 1 == rx.expectedLen
    ensures Step(rx, b, now).rx == Rx(Idle, 0, now, [])
    ensures var buf := rx.buf + [b];
            Step(rx, b, now).frame.Some? <==> buf[|buf| - 1] == DeviceCrc8(buf[..|buf| - 1])
  {
  }

  // ---------------------------------------------------------------- runs of bytes

  /** Feeding `a + b` is feeding `a` and then `b`. */
  lemma {:induction false} FeedBytesAppend(rx: Rx, a: seq<byte>, b: seq<byte>, now: u32)
    requires Valid(rx)
    ensures var ra := FeedBytes(rx, a, now);
            var rb := FeedBytes(ra.rx, b, now);
            FeedBytes(rx, a + b, now) == Fed(rb.rx, ra.frames + rb.frames)
    decreases |a|
  {
    if |a| == 0 {
      assert a + b == b;
    } else {
      assert (a + b)[0] == a[0] && (a + b)[1..] == a[1..] + b;
      var s := Step(rx, a[0], now);
      FeedBytesAppend(s.rx, a[1..], b, now);
    }
  }

  /** Bytes without a sync byte leave an idle parser as it was. */
  lemma {:induction false} IdleSkipsNoise(rx: Rx, g: seq<byte>, now: u32)
    requires Valid(rx) && rx.phase == Idle
    requires Free(g, SYNC_BYTE)
    ensures FeedBytes(rx, g, now) == Fed(rx, [])
    decreases |g|
  {
    if |g| > 0 {
      IdleSkipsNoise(rx, g[1..], now);
    }
  }

  /** Inside DATA, bytes that do not complete the frame are stored. */
  lemma {:induction false} DataAccumulates(rx: Rx, s: seq<byte>, now: u32)
    requires Valid(rx) && rx.phase == Data
    requires |s| > 0 && |rx.buf| + |s| < rx.expectedLen
    ensures FeedBytes(rx, s, now) == Fed(rx.(buf := rx.buf + s, lastUs := now), [])
    decreases |s|
  {
    var next := rx.(buf := rx.buf + [s[0]], lastUs := now);
    assert Step(rx, s[0], now) == Stepped(next, None);
    if |s| > 1 {
      DataAccumulates(next, s[1..], now);
      assert next.buf + s[1..] == rx.buf + s;
    } else {
      assert [s[0]] == s;
    }
  }

  /** The bytes that complete a frame return the parser to IDLE and dispatch
      the frame exactly when its CRC matches. */
  lemma DataCompletes(rx: Rx, s: seq<byte>, now: u32)
    requires Valid(rx) && rx.phase == Data
    requires |s| > 0 && |rx.buf| + |s| == rx.expectedLen
    ensures var d := Dispatched(rx.buf + s);
            FeedBytes(rx, s, now) == Fed(Rx(Idle, 0, now, []), if d.Some? then [d.value] else [])
  {
    var n := |s| - 1;
    var init, last := s[..n], s[n];
    assert s == init + [last];
    FeedBytesAppend(rx, init, [last], now);
    var mid := if n == 0 then rx else rx.(buf := rx.buf + init, lastUs := now);
    if n > 0 {
      DataAccumulates(rx, init, now);
    }
    assert FeedBytes(rx, init, now) == Fed(mid, []);
    assert mid.buf + [last] == rx.buf + s;
    assert [last][1..] == [];
  }

  /** An idle parser receiving a sync byte, an accepted length `L` and `L`
      bytes dispatches at most that one frame and ends idle. */
  lemma ReceiveFrame(rx: Rx, len: byte, body: seq<byte>, now: u32)
    requires Valid(rx) && rx.phase == Idle
    requires 2 <= len as int <= RX_BUF_LEN && |body| == len as int
    ensures var d := Dispatched(body);
            FeedBytes(rx, [SYNC_BYTE, len] + body, now) == Fed(Rx(Idle, 0, now, []), if d.Some? then [d.value] else [])
  {
    var data := Rx(Data, len as int, now, []);
    assert ([SYNC_BYTE, len] + body) == [SYNC_BYTE] + ([len] + body);
    FeedBytesAppend(rx, [SYNC_BYTE], [len] + body, now);
    FeedBytesAppend(Rx(Len, 0, now, []), [len], body, now);
    assert [SYNC_BYTE][1..] == [] && [len][1..] == [];
    DataCompletes(data, body, now);
    assert data.buf + body == body;
  }

  // ---------------------------------------------------------------- calls

  /** A parse left unfinished for longer than the timeout is dropped before
      the new bytes are looked at. */
  lemma StaleFrameDropped(rx: Rx, data: seq<byte>, now: u32)
    requires Valid(rx) && rx.phase != Idle && |data| > 0
    requires Elapsed(now, rx.lastUs) > FRAME_TIMEOUT_US
    ensures Feed(rx, data, now) == FeedBytes(Rx(Idle, 0, rx.lastUs, []), data, now)
  {
  }

  /** Two calls at the same timestamp act as one call on the joined bytes: the
      first call leaves any unfinished parse stamped with `now`, so the second
      never times it out. */
  lemma FeedSplit(rx: Rx, a: seq<byte>, b: seq<byte>, now: u32)
    requires Valid(rx)
    ensures var ra := Feed(rx, a, now);
            var rb := Feed(ra.rx, b, now);
            Feed(rx, a + b, now) == Fed(rb.rx, ra.frames + rb.frames)
  {
    if |a| == 0 {
      assert a + b == b;
    } else if |b| == 0 {
      assert a + b == a;
    } else {
      var start := if rx.phase != Idle && Elapsed(now, rx.lastUs) > FRAME_TIMEOUT_US then Reset(rx) else rx;
      FeedBytesAppend(start, a, b, now);
    }
  }
}
