/** The host's command surface over the registry (src-tauri/src/serial.rs,
    `open_device`, `close_device`, `flush_device`, `send_request`).

    Each command takes the registry and returns the registry it leaves
    behind together with its result. The port itself is abstract: what the
    port would do (open, clear, write, deliver bytes) is passed in. */
module DeviceSession {
  import opened Bytes
  import opened SerialErrors
  import opened PortRegistry
  import FrameCodec

  datatype Outcome<+T> = Outcome(reg: Registry, result: Result<T>)

  /** What `serialport::new(..).open()` produced for the requested path. */
  datatype OpenAttempt = Opened(port: Port) | OpenFailed(err: PortError)

  /** `open_device`: classifies a failed open with the path as context, and
      otherwise registers the port. */
  function OpenDevice(reg: Registry, path: string, attempt: OpenAttempt): (r: Outcome<nat>)
    ensures attempt.OpenFailed? ==> r.reg == reg && r.result.Err?
    ensures attempt.OpenFailed? && attempt.err.kind == NoDevice ==> r.result == Err(PortNotFound(path))
    ensures attempt.OpenFailed? && attempt.err.kind == Io(PermissionDenied) ==> r.result == Err(PortBusy(path))
    ensures attempt.OpenFailed? && attempt.err.kind != NoDevice && attempt.err.kind != Io(PermissionDenied) ==>
              r.result == Err(FromPort(attempt.err))
    ensures attempt.Opened? && !reg.lockPoisoned ==> r.result == Ok(reg.nextId)
    ensures attempt.Opened? && !reg.lockPoisoned ==> reg.nextId in r.reg.ports && r.reg.ports[reg.nextId] == Slot(attempt.port, false)
    ensures attempt.Opened? && reg.lockPoisoned ==>
              r.result == Err(PoisonedRegistryLock("insert")) && r.reg == reg.(nextId := reg.nextId + 1)
  {
    match attempt
    case OpenFailed(err) =>
      var e := match err.kind
        case NoDevice => PortNotFound(path)
        case Io(PermissionDenied) => PortBusy(path)
        case _ => FromPort(err);
      Outcome(reg, Err(e))
    case Opened(port) =>
      var ins := Insert(reg, port);
      Outcome(ins.reg, ins.result)
  }

  /** `close_device`: removing an unknown handle is not an error. */
  function CloseDevice(reg: Registry, id: nat): (r: Outcome<()>)
    ensures !reg.lockPoisoned ==> r.result == Ok(()) && id !in r.reg.ports
    ensures !reg.lockPoisoned && id !in reg.ports ==> r.reg == reg
    ensures reg.lockPoisoned ==> r == Outcome(reg, Err(PoisonedRegistryLock("remove")))
    ensures SameExcept(reg.ports, r.reg.ports, id) && r.reg.nextId == reg.nextId
  {
    var rm := Remove(reg, id);
    match rm.result
    case Err(e) => Outcome(rm.reg, Err(e))
    case Ok(_) => Outcome(rm.reg, Ok(()))
  }

  /** The decimal digits of `n`, as `format!` writes a `u64`. */
  function Decimal(n: nat): (s: string)
    ensures |s| >= 1
    ensures forall i :: 0 <= i < |s| ==> '0' <= s[i] <= '9'
    ensures n >= 10 ==> s[0] != '0'
    decreases n
  {
    var digit := ['0' + (n % 10) as char];
    if n < 10 then digit else Decimal(n / 10) + digit
  }

  /** The number a string of decimal digits spells, most significant first. */
  function DigitsValue(s: string): nat
    requires forall i :: 0 <= i < |s| ==> '0' <= s[i] <= '9'
    decreases |s|
  {
    if |s| == 0 then 0 else DigitsValue(s[..|s| - 1]) * 10 + (s[|s| - 1] - '0') as nat
  }

  /** The digits in the error text name the handle that was removed. */
  lemma {:induction false} DecimalValue(n: nat)
    ensures DigitsValue(Decimal(n)) == n
    decreases n
  {
    var s := Decimal(n);
    var d := n % 10;
    assert s[|s| - 1] == '0' + d as char;
    if n >= 10 {
      DecimalValue(n / 10);
      assert s[..|s| - 1] == Decimal(n / 10);
      assert n == (n / 10) * 10 + d;
    }
  }

  /** The error reported when a device lock is found poisoned; the handle has
      already been removed by then. */
  function PoisonedDeviceLock(id: nat, context: string): (e: SerialError)
    ensures e.IoError? && !IsProtocolError(e)
    ensures var k := 37 + |context|;
            k + |Decimal(id)| <= |e.message| && e.message[k..k + |Decimal(id)|] == Decimal(id)
            && DigitsValue(Decimal(id)) == id
  {
    DecimalValue(id);
    IoError("device lock poisoned during " + context + "; handle " + Decimal(id) + " removed; reconnect required")
  }

  /** Looks up a handle and takes its device lock. A missing handle is
      InvalidHandle; a poisoned lock evicts the handle (ignoring the outcome
      of that removal) and reports the poisoning. */
  function LockDevice(reg: Registry, id: nat, context: string): (r: Outcome<Port>)
    ensures reg.lockPoisoned ==> r == Outcome(reg, Err(PoisonedRegistryLock("get")))
    ensures !reg.lockPoisoned && id !in reg.ports ==> r == Outcome(reg, Err(InvalidHandle(id)))
    ensures !reg.lockPoisoned && id in reg.ports && reg.ports[id].poisoned ==>
              r.result == Err(PoisonedDeviceLock(id, context)) && r.reg == reg.(ports := reg.ports - {id})
    ensures !reg.lockPoisoned && id in reg.ports && !reg.ports[id].poisoned ==>
              r == Outcome(reg, Ok(reg.ports[id].port))
  {
    match Get(reg, id)
    case Err(e) => Outcome(reg, Err(e))
    case Ok(None) => Outcome(reg, Err(InvalidHandle(id)))
    case Ok(Some(slot)) =>
      if slot.poisoned then Outcome(Remove(reg, id).reg, Err(PoisonedDeviceLock(id, context)))
      else Outcome(reg, Ok(slot.port))
  }

  /** The handle is registered, and neither the registry lock nor its
      device lock is poisoned. */
  predicate Healthy(reg: Registry, id: nat)
  {
    !reg.lockPoisoned && id in reg.ports && !reg.ports[id].poisoned
  }

  /** `flush_device`: `clearFault` is the error, if any, that clearing the
      port's buffers reports. */
  function FlushDevice(reg: Registry, id: nat, clearFault: Option<PortError>): (r: Outcome<()>)
    ensures !reg.lockPoisoned && id !in reg.ports ==> r == Outcome(reg, Err(InvalidHandle(id)))
    ensures Healthy(reg, id) && clearFault.Some? ==> r == Outcome(reg, Err(FromPort(clearFault.value)))
    ensures !reg.lockPoisoned && id in reg.ports && reg.ports[id].poisoned ==>
              r == Outcome(reg.(ports := reg.ports - {id}), Err(PoisonedDeviceLock(id, "flush_device")))
    ensures reg.lockPoisoned ==> r == Outcome(reg, Err(PoisonedRegistryLock("get")))
    ensures r.reg == reg || r.reg == reg.(ports := reg.ports - {id})
    ensures r.result.Ok? <==> !reg.lockPoisoned && id in reg.ports && !reg.ports[id].poisoned && clearFault.None?
  {
    var locked := LockDevice(reg, id, "flush_device");
    match locked.result
    case Err(e) => Outcome(locked.reg, Err(e))
    case Ok(_) =>
      match clearFault
      case Some(err) => Outcome(reg, Err(FromPort(err)))
      case None => Outcome(reg, Ok(()))
  }

  /** What the port does during one exchange: the error, if any, that
      writing or flushing the request reports; the bytes it then delivers;
      and how many iterations of the read loop fit in its timeout. */
  datatype Exchange = Exchange(writeFault: Option<StdIoError>, incoming: seq<byte>, fuel: nat)

  /** The registry left behind, the result, and the bytes handed to the port. */
  datatype SendOutcome = SendOutcome(reg: Registry, result: Result<seq<byte>>, written: seq<byte>)

  /** `send_request`: refuses an empty payload before touching the registry,
      then locks the device, frames the payload, writes it, and reads one
      response frame. */
  function SendRequest(reg: Registry, id: nat, payload: seq<byte>, x: Exchange): (r: SendOutcome)
    ensures |payload| == 0 ==> r == SendOutcome(reg, Err(InvalidConfig("payload must include message type")), [])
    ensures |payload| > 0 && !reg.lockPoisoned && id !in reg.ports ==> r == SendOutcome(reg, Err(InvalidHandle(id)), [])
    ensures |payload| > 0 && !reg.lockPoisoned && id in reg.ports && reg.ports[id].poisoned ==>
              r == SendOutcome(reg.(ports := reg.ports - {id}), Err(PoisonedDeviceLock(id, "send_request")), [])
    ensures |payload| > 0 && reg.lockPoisoned ==> r == SendOutcome(reg, Err(PoisonedRegistryLock("get")), [])
    ensures |payload| > FrameCodec.MAX_BUILD_LEN && Healthy(reg, id) ==> r == SendOutcome(reg, Err(PayloadTooLarge), [])
    ensures 1 <= |payload| <= FrameCodec.MAX_BUILD_LEN && Healthy(reg, id) && x.writeFault.Some? ==>
              r.result == Err(FromIo(x.writeFault.value))
    ensures 1 <= |payload| <= FrameCodec.MAX_BUILD_LEN && Healthy(reg, id) && x.writeFault.None? ==>
              r.result == FrameCodec.ReadFrame(x.incoming, x.fuel)
    ensures Healthy(reg, id) ==> r.reg == reg
    ensures r.reg == reg || r.reg == reg.(ports := reg.ports - {id})
    ensures r.reg != reg ==> id in reg.ports && reg.ports[id].poisoned
    ensures r.result == Err(CrcMismatch) ==> r.written != []
    ensures r.result.Ok? ==> 1 <= |r.result.value| <= FrameCodec.MAX_BUILD_LEN
    ensures r.written != [] ==> FrameCodec.BuildFrame(payload).Ok? && r.written == FrameCodec.BuildFrame(payload).value
  {
    if |payload| == 0 then SendOutcome(reg, Err(InvalidConfig("payload must include message type")), [])
    else
      var locked := LockDevice(reg, id, "send_request");
      match locked.result
      case Err(e) => SendOutcome(locked.reg, Err(e), [])
      case Ok(_) =>
        match FrameCodec.BuildFrame(payload)
        case Err(e) => SendOutcome(reg, Err(e), [])
        case Ok(frame) =>
          match x.writeFault
          case Some(err) => SendOutcome(reg, Err(FromIo(err)), frame)
          case None => SendOutcome(reg, FrameCodec.ReadFrame(x.incoming, x.fuel), frame)
  }

  /** An exchange on a live handle whose device answers with a well-formed
      frame, after noise free of sync bytes, returns exactly the device's
      payload, and the request went out as its frame. */
  lemma SendRoundTrip(reg: Registry, id: nat, payload: seq<byte>, g: seq<byte>, reply: seq<byte>, rest: seq<byte>, fuel: nat)
    requires !reg.lockPoisoned && id in reg.ports && !reg.ports[id].poisoned
    requires 1 <= |payload| <= FrameCodec.MAX_BUILD_LEN
    requires 1 <= |reply| <= FrameCodec.MAX_BUILD_LEN
    requires Free(g, FrameCodec.SYNC_BYTE) && fuel > |g|
    ensures var r := SendRequest(reg, id, payload, Exchange(None, g + FrameCodec.BuildFrame(reply).value + rest, fuel));
            r == SendOutcome(reg, Ok(reply), FrameCodec.BuildFrame(payload).value)
  {
    FrameCodec.RoundTrip(g, reply, rest, fuel);
  }

  /** Errors of one exchange leave the connection open: only a poisoned
      device lock closes it. A poisoned registry lock does not evict either:
      the call fails with the "get" error and the registry is unchanged. */
  lemma SendKeepsHealthyHandles(reg: Registry, id: nat, payload: seq<byte>, x: Exchange)
    requires id in reg.ports && !reg.ports[id].poisoned
    ensures id in SendRequest(reg, id, payload, x).reg.ports
    ensures id in FlushDevice(reg, id, None).reg.ports
  {
  }

  /** No command on one handle changes the entry of any other handle. */
  lemma CommandsIsolateHandles(reg: Registry, id: nat, payload: seq<byte>, x: Exchange, fault: Option<PortError>)
    ensures SameExcept(reg.ports, SendRequest(reg, id, payload, x).reg.ports, id)
    ensures SameExcept(reg.ports, FlushDevice(reg, id, fault).reg.ports, id)
    ensures SameExcept(reg.ports, CloseDevice(reg, id).reg.ports, id)
  {
  }
}
