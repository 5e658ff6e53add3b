/** The host (src-tauri/src/serial.rs) and the device (onboard/vscope.c)
    implement the same framing independently. This module shows the two
    agree: the same CRC, the same frame layout, each side decodes what the
    other encodes, and a whole request/response exchange returns the reply
    the device's handler computed. */
module WireCompat {
  import opened Bytes
  import opened SerialErrors
  import FrameCodec
  import DeviceWire
  import DeviceRx
  import Device
  import DeviceCommands
  import PortRegistry
  import DeviceSession

  /** The device's lookup table is the host's, entry for entry. */
  lemma TablesAgree()
    ensures DeviceWire.DEVICE_CRC8_LUT == FrameCodec.CRC8_LUT
  {
  }

  /** The two CRC folds agree from every starting register. */
  lemma {:induction false} CrcFoldsAgree(acc: byte, data: seq<byte>)
    ensures DeviceWire.DeviceCrcFrom(acc, data) == FrameCodec.CrcFrom(acc, data)
    decreases |data|
  {
    if |data| > 0 {
      TablesAgree();
      CrcFoldsAgree(FrameCodec.CRC8_LUT[Xor(acc, data[0])], data[1..]);
    }
  }

  /** `vscope_crc8` and the host's `crc8` compute the same checksum. */
  lemma CrcAgree(data: seq<byte>)
    ensures DeviceWire.DeviceCrc8(data) == FrameCodec.Crc8(data)
  {
    CrcFoldsAgree(0, data);
  }

  /** The frame `vscope_send_frame` writes is the frame `build_frame` builds
      for the type byte followed by the payload. */
  lemma DeviceFrameIsHostFrame(t: byte, q: seq<byte>)
    requires |q| <= DeviceWire.MAX_PAYLOAD
    ensures FrameCodec.BuildFrame([t] + q) == Ok(DeviceWire.SendFrame(t, q))
  {
    var p := [t] + q;
    var host := FrameCodec.BuildFrame(p).value;
    var dev := DeviceWire.SendFrame(t, q);
    var n := |p|;
    CrcAgree(p);
    assert dev == [FrameCodec.SYNC_BYTE, (n + 1) as byte] + p + [FrameCodec.Crc8(p)];
    assert |host| == |dev| == n + 3;
    forall i | 0 <= i < n + 3
      ensures host[i] == dev[i]
    {
      if 2 <= i < n + 2 {
        assert host[i] == host[2..n + 2][i - 2];
      }
    }
  }

  /** The host decodes any frame the device sends, after noise free of sync
      bytes, into the type byte followed by the payload. */
  lemma HostReadsDeviceFrame(g: seq<byte>, t: byte, q: seq<byte>, rest: seq<byte>, fuel: nat)
    requires Free(g, FrameCodec.SYNC_BYTE) && fuel > |g|
    requires |q| <= DeviceWire.MAX_PAYLOAD
    ensures FrameCodec.ReadFrame(g + DeviceWire.SendFrame(t, q) + rest, fuel) == Ok([t] + q)
  {
    DeviceFrameIsHostFrame(t, q);
    FrameCodec.RoundTrip(g, [t] + q, rest, fuel);
  }

  /** An idle device parser that receives a frame built by the host
      dispatches exactly that frame, split into type and payload, and is idle
      again afterwards. */
  lemma DeviceReadsHostFrame(rx: DeviceRx.Rx, p: seq<byte>, now: u32)
    requires DeviceRx.Valid(rx) && rx.phase == DeviceRx.Idle
    requires 1 <= |p| <= FrameCodec.MAX_BUILD_LEN
    ensures DeviceRx.FeedBytes(rx, FrameCodec.BuildFrame(p).value, now)
            == DeviceRx.Fed(DeviceRx.Rx(DeviceRx.Idle, 0, now, []), [DeviceRx.Frame(p[0], p[1..])])
  {
    var frame := FrameCodec.BuildFrame(p).value;
    var len := (|p| + 1) as byte;
    var body := p + [FrameCodec.Crc8(p)];
    assert frame == [FrameCodec.SYNC_BYTE, len] + body by {
      assert frame == [frame[0], frame[1]] + frame[2..|p| + 2] + [frame[|p| + 2]];
    }
    DeviceRx.ReceiveFrame(rx, len, body, now);
    assert body[..|body| - 1] == p;
    CrcAgree(p);
    var d := DeviceRx.Dispatched(body);
    assert d.Some?;
    assert [d.value.msgType] + d.value.payload == p;
    assert p == [p[0]] + p[1..];
  }

  /** The same through `vscopeFeed`, with sync-free noise before the frame:
      an idle parser is never timed out, and the noise is skipped. */
  lemma DeviceFeedReadsHostFrame(rx: DeviceRx.Rx, g: seq<byte>, p: seq<byte>, now: u32)
    requires DeviceRx.Valid(rx) && rx.phase == DeviceRx.Idle
    requires Free(g, FrameCodec.SYNC_BYTE)
    requires 1 <= |p| <= FrameCodec.MAX_BUILD_LEN
    ensures DeviceRx.Feed(rx, g + FrameCodec.BuildFrame(p).value, now)
            == DeviceRx.Fed(DeviceRx.Rx(DeviceRx.Idle, 0, now, []), [DeviceRx.Frame(p[0], p[1..])])
  {
    var frame := FrameCodec.BuildFrame(p).value;
    DeviceRx.FeedBytesAppend(rx, g, frame, now);
    DeviceRx.IdleSkipsNoise(rx, g, now);
    DeviceReadsHostFrame(rx, p, now);
  }

  /** A whole exchange: the host frames a request, the device parses it,
      handles it and answers, and the host decodes the answer into exactly
      the reply the handler computed. */
  lemma ExchangeDeliversReply(s: DeviceCommands.Scope, env: DeviceCommands.Env, p: seq<byte>, now: u32, fuel: nat)
    requires DeviceCommands.ScopeValid(s) && s.rx.phase == DeviceRx.Idle
    requires |env.live| == Device.VarCount(s.dev)
    requires 1 <= |p| <= FrameCodec.MAX_BUILD_LEN && fuel >= 1
    ensures var fed := DeviceCommands.FeedScope(s, env, FrameCodec.BuildFrame(p).value, now);
            var h := DeviceCommands.HandleFrame(s.dev, env, DeviceRx.Frame(p[0], p[1..]));
            && fed.0.dev == h.dev && fed.0.rx.phase == DeviceRx.Idle
            && fed.1 == DeviceCommands.Wire(h.reply)
            && FrameCodec.ReadFrame(fed.1, fuel) == Ok([h.reply.msgType] + h.reply.data)
  {
    var frame := FrameCodec.BuildFrame(p).value;
    var f := DeviceRx.Frame(p[0], p[1..]);
    DeviceFeedReadsHostFrame(s.rx, [], p, now);
    assert [] + frame == frame;
    var h := DeviceCommands.HandleFrame(s.dev, env, f);
    assert [f][1..] == [];
    assert DeviceCommands.HandleAll(h.dev, env, []) == DeviceCommands.Served(h.dev, []);
    assert DeviceCommands.HandleAll(s.dev, env, [f]) == DeviceCommands.Served(h.dev, DeviceCommands.Wire(h.reply) + []);
    assert DeviceCommands.Wire(h.reply) + [] == DeviceCommands.Wire(h.reply);
    DeviceCommands.RepliesFit(s.dev, env, f);
    var out := DeviceWire.SendFrame(h.reply.msgType, h.reply.data);
    HostReadsDeviceFrame([], h.reply.msgType, h.reply.data, [], fuel);
    assert [] + out + [] == out;
  }

  /** The bytes the device answers a host-built request with are the frame
      the host would build for the handler's reply. */
  lemma AnswerIsHostFrame(s: DeviceCommands.Scope, env: DeviceCommands.Env, p: seq<byte>, now: u32)
    requires DeviceCommands.ScopeValid(s) && s.rx.phase == DeviceRx.Idle
    requires |env.live| == Device.VarCount(s.dev)
    requires 1 <= |p| <= FrameCodec.MAX_BUILD_LEN
    ensures var answer := DeviceCommands.FeedScope(s, env, FrameCodec.BuildFrame(p).value, now).1;
            var h := DeviceCommands.HandleFrame(s.dev, env, DeviceRx.Frame(p[0], p[1..]));
            FrameCodec.BuildFrame([h.reply.msgType] + h.reply.data) == Ok(answer)
  {
    var f := DeviceRx.Frame(p[0], p[1..]);
    var h := DeviceCommands.HandleFrame(s.dev, env, f);
    ExchangeDeliversReply(s, env, p, now, 1);
    DeviceCommands.RepliesFit(s.dev, env, f);
    DeviceFrameIsHostFrame(h.reply.msgType, h.reply.data);
  }

  /** `send_request` returns whatever reply the incoming bytes frame. */
  lemma SendGetsAnswer(reg: PortRegistry.Registry, id: nat, p: seq<byte>, reply: seq<byte>, answer: seq<byte>, fuel: nat)
    requires !reg.lockPoisoned && id in reg.ports && !reg.ports[id].poisoned
    requires 1 <= |p| <= FrameCodec.MAX_BUILD_LEN && 1 <= |reply| && fuel >= 1
    requires FrameCodec.BuildFrame(reply) == Ok(answer)
    ensures DeviceSession.SendRequest(reg, id, p, DeviceSession.Exchange(None, answer, fuel))
            == DeviceSession.SendOutcome(reg, Ok(reply), FrameCodec.BuildFrame(p).value)
  {
    assert answer == [] + FrameCodec.BuildFrame(reply).value + [];
    DeviceSession.SendRoundTrip(reg, id, p, [], reply, [], fuel);
  }

  /** `send_request` on a healthy handle, against a device that answers the
      request it is sent, returns the device's reply. */
  lemma SendRequestToDevice(reg: PortRegistry.Registry, id: nat, s: DeviceCommands.Scope,
                            env: DeviceCommands.Env, p: seq<byte>, now: u32, fuel: nat)
    requires !reg.lockPoisoned && id in reg.ports && !reg.ports[id].poisoned
    requires DeviceCommands.ScopeValid(s) && s.rx.phase == DeviceRx.Idle
    requires |env.live| == Device.VarCount(s.dev)
    requires 1 <= |p| <= FrameCodec.MAX_BUILD_LEN && fuel >= 1
    ensures var request := FrameCodec.BuildFrame(p).value;
            var answer := DeviceCommands.FeedScope(s, env, request, now).1;
            var h := DeviceCommands.HandleFrame(s.dev, env, DeviceRx.Frame(p[0], p[1..]));
            DeviceSession.SendRequest(reg, id, p, DeviceSession.Exchange(None, answer, fuel))
            == DeviceSession.SendOutcome(reg, Ok([h.reply.msgType] + h.reply.data), request)
  {
    var h := DeviceCommands.HandleFrame(s.dev, env, DeviceRx.Frame(p[0], p[1..]));
    var reply := [h.reply.msgType] + h.reply.data;
    var answer := DeviceCommands.FeedScope(s, env, FrameCodec.BuildFrame(p).value, now).1;
    AnswerIsHostFrame(s, env, p, now);
    SendGetsAnswer(reg, id, p, reply, answer, fuel);
  }
}
