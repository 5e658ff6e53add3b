/** The device's acquisition engine (onboard/vscope.c): variable
    registration, `vscopeInit`, the channel map, `vscopeTrigger`, and the
    `vscopeAcquire` state machine writing a circular capture buffer.

    Floats are opaque 32-bit words. What the device reads through its
    pointers is passed in: `live` holds the current values of the registered
    variables, in registration order, and the outcome of the floating-point
    threshold comparison is a `Crossing`. */
module Device {
  import opened Bytes
  import opened DeviceWire

  /** `VscopeState`, with its wire codes 0..3. */
  datatype AcqState = Halted | Running | Acquiring | Misconfigured

  function StateCode(s: AcqState): (b: byte)
    ensures b <= 3
  {
    match s
    case Halted => 0
    case Running => 1
    case Acquiring => 2
    case Misconfigured => 3
  }

  /** The state a request code names; only codes 0..2 are ever requested. */
  function RequestOfCode(b: byte): (s: AcqState)
    requires b <= 2
    ensures StateCode(s) == b
  {
    if b == 0 then Halted else if b == 1 then Running else Acquiring
  }

  /** `VscopeTriggerMode`, with its wire codes 0..3. */
  datatype TriggerMode = TrgDisabled | TrgRising | TrgFalling | TrgBoth

  function ModeCode(m: TriggerMode): (b: byte)
    ensures b <= 3
  {
    match m
    case TrgDisabled => 0
    case TrgRising => 1
    case TrgFalling => 2
    case TrgBoth => 3
  }

  function ModeOfCode(b: byte): (m: TriggerMode)
    requires b <= 3
    ensures ModeCode(m) == b
  {
    if b == 0 then TrgDisabled else if b == 1 then TrgRising else if b == 2 then TrgFalling else TrgBoth
  }

  /** What the registration functions fill in before `vscopeInit`: the fixed
      names of the variables, the names and current values of the rt-buffer
      entries, and whether registration is closed. */
  datatype Catalog = Catalog(varNames: seq<seq<byte>>, rtNames: seq<seq<byte>>, rtValues: seq<u32>, locked: bool)

  /** The zero-initialised catalog. */
  function EmptyCatalog(): Catalog
  {
    Catalog([], [], [], false)
  }

  /** `vscopeRegisterVar`: `hasPtr` is false for a NULL pointer. */
  function RegisterVar(c: Catalog, name: Option<seq<byte>>, hasPtr: bool): (r: Catalog)
    ensures r.rtNames == c.rtNames && r.rtValues == c.rtValues && r.locked == c.locked
    ensures (c.locked || |c.varNames| >= MAX_VARIABLES || !hasPtr) <==> r == c
    ensures r != c ==> r.varNames == c.varNames + [FixedName(name)]
  {
    if c.locked || |c.varNames| >= MAX_VARIABLES || !hasPtr then c
    else c.(varNames := c.varNames + [FixedName(name)])
  }

  /** `vscopeRegisterRtBuffer`: `ptr` is the value behind the pointer, or
      None for a NULL pointer. */
  function RegisterRtBuffer(c: Catalog, name: Option<seq<byte>>, ptr: Option<u32>): (r: Catalog)
    ensures r.varNames == c.varNames && r.locked == c.locked
    ensures (c.locked || |c.rtNames| >= RT_BUFFER_LEN || ptr.None?) <==> r == c
    ensures r != c ==> r.rtNames == c.rtNames + [FixedName(name)] && r.rtValues == c.rtValues + [ptr.value]
  {
    if c.locked || |c.rtNames| >= RT_BUFFER_LEN || ptr.None? then c
    else c.(rtNames := c.rtNames + [FixedName(name)], rtValues := c.rtValues + [ptr.value])
  }

  /** `VscopeSnapshotMeta` together with the rt values copied beside it. */
  datatype Snapshot = Snapshot(
    divider: u32, preTrig: u32, channelMap: seq<byte>,
    threshold: u32, trigChannel: byte, trigMode: TriggerMode,
    rtValues: seq<u32>)

  /** The engine's static state after `vscopeInit`. `dividerTicks` and
      `runIndex` are the static locals of `vscopeAcquire`. */
  datatype Device = Device(
    catalog: Catalog,
    state: AcqState, request: AcqState,
    isrKhz: u16, deviceName: seq<byte>,
    divider: u32, preTrig: u32, acqTime: u32,
    index: nat, firstElement: nat,
    threshold: u32, trigChannel: byte, trigMode: TriggerMode, triggerInvalid: bool,
    channelMap: seq<byte>,
    buffer: seq<seq<u32>>,
    snapshot: Snapshot, snapshotValid: bool,
    dividerTicks: u32, runIndex: u16)

  function VarCount(d: Device): nat
  {
    |d.catalog.varNames|
  }

  function RtCount(d: Device): nat
  {
    |d.catalog.rtNames|
  }

  /** Every channel names a registered variable, or is 0 when there are none. */
  predicate MapFits(m: seq<byte>, count: nat)
  {
    && |m| == NUM_CHANNELS
    && forall i :: 0 <= i < NUM_CHANNELS ==> (if count == 0 then m[i] == 0 else (m[i] as int) < count)
  }

  /** A capture buffer of BUFFER_SIZE rows of NUM_CHANNELS samples. */
  predicate BufferShape(buffer: seq<seq<u32>>)
  {
    |buffer| == BUFFER_SIZE && forall i :: 0 <= i < |buffer| ==> |buffer[i]| == NUM_CHANNELS
  }

  /** What every reachable state after `vscopeInit` satisfies. */
  ghost predicate Valid(d: Device)
  {
    && d.catalog.locked
    && |d.catalog.varNames| <= MAX_VARIABLES
    && |d.catalog.rtNames| == |d.catalog.rtValues| <= RT_BUFFER_LEN
    && |d.deviceName| == NAME_LEN
    && MapFits(d.channelMap, VarCount(d))
    && BufferShape(d.buffer)
    && d.index < BUFFER_SIZE && d.firstElement < BUFFER_SIZE
    && 1 <= d.divider && d.preTrig <= BUFFER_SIZE && d.acqTime == BUFFER_SIZE - d.preTrig
    && d.dividerTicks < U32_MODULUS - 1
    && (d.state == Acquiring ==> 1 <= d.runIndex <= d.acqTime)
    && (d.state == Misconfigured <==> VarCount(d) < NUM_CHANNELS)
    && d.request != Misconfigured
    && (d.trigChannel as int) < NUM_CHANNELS
    && |d.snapshot.channelMap| == NUM_CHANNELS && |d.snapshot.rtValues| <= RT_BUFFER_LEN
  }

  const ZERO_ROW: seq<u32> := [0, 0, 0, 0, 0]

  /** The channel map `vscopeInit` installs: channel `i` shows variable `i`
      when there is one, and variable 0 otherwise. */
  function DefaultMap(count: nat): (m: seq<byte>)
    requires count <= MAX_VARIABLES
    ensures MapFits(m, count)
    ensures forall i :: 0 <= i < NUM_CHANNELS ==> m[i] as int == (if i < count then i else 0)
  {
    seq(NUM_CHANNELS, i requires 0 <= i < NUM_CHANNELS => if i < count then i as byte else 0)
  }

  /** `vscopeInit`: closes registration and starts HALTED with divider 1 and
      no pre-trigger, or MISCONFIGURED with fewer variables than channels.
      The static counters of `vscopeAcquire` are taken at their power-on
      values. */
  function Init(c: Catalog, name: Option<seq<byte>>, isrKhz: u16): (d: Device)
    requires |c.varNames| <= MAX_VARIABLES && |c.rtNames| == |c.rtValues| <= RT_BUFFER_LEN
    ensures Valid(d)
    ensures d.catalog == c.(locked := true)
    ensures d.state == (if |c.varNames| < NUM_CHANNELS then Misconfigured else Halted) && d.request == Halted
    ensures d.divider == 1 && d.preTrig == 0 && d.acqTime == BUFFER_SIZE
    ensures !d.snapshotValid && d.trigMode == TrgDisabled && d.triggerInvalid
    ensures d.deviceName == FixedName(name)
    ensures d.isrKhz == isrKhz
    ensures d.channelMap == DefaultMap(|c.varNames|)
    ensures d.index == 0 && d.firstElement == 0
    ensures d.threshold == 0 && d.trigChannel == 0
    ensures d.buffer == seq(BUFFER_SIZE, _ => ZERO_ROW)
  {
    Device(
      c.(locked := true),
      if |c.varNames| < NUM_CHANNELS then Misconfigured else Halted, Halted,
      isrKhz, FixedName(name),
      1, 0, BUFFER_SIZE,
      0, 0,
      0, 0, TrgDisabled, true,
      DefaultMap(|c.varNames|),
      seq(BUFFER_SIZE, _ => ZERO_ROW),
      Snapshot(0, 0, ZERO_MAP, 0, 0, TrgDisabled, []), false,
      0, 0)
  }

  const ZERO_MAP: seq<byte> := [0, 0, 0, 0, 0]

  /** Registration is closed for good once the device is initialised. */
  lemma RegistrationLockedAfterInit(d: Device, name: Option<seq<byte>>, hasPtr: bool, ptr: Option<u32>)
    requires Valid(d)
    ensures RegisterVar(d.catalog, name, hasPtr) == d.catalog
    ensures RegisterRtBuffer(d.catalog, name, ptr) == d.catalog
  {
  }

  // ---------------------------------------------------------------- channel map

  /** `vscope_update_channel_map`: all five ids must name registered
      variables, or nothing changes. */
  function UpdateChannelMap(d: Device, ids: seq<byte>): (r: (bool, Device))
    requires |ids| == NUM_CHANNELS
    ensures r.0 <==> forall i :: 0 <= i < NUM_CHANNELS ==> (ids[i] as int) < VarCount(d)
    ensures r.0 ==> r.1 == d.(channelMap := ids)
    ensures !r.0 ==> r.1 == d
  {
    if exists i :: 0 <= i < NUM_CHANNELS && (ids[i] as int) >= VarCount(d) then (false, d)
    else (true, d.(channelMap := ids))
  }

  /** A successful update keeps the map within the catalog. */
  lemma UpdateChannelMapValid(d: Device, ids: seq<byte>)
    requires Valid(d) && |ids| == NUM_CHANNELS
    ensures Valid(UpdateChannelMap(d, ids).1)
  {
  }

  // ---------------------------------------------------------------- sampling

  /** `*vscope_frame[ch]`: the mapped variable's value, or the zero value when
      no variable is registered. */
  function Sample(d: Device, live: seq<u32>, ch: nat): u32
    requires Valid(d) && |live| == VarCount(d) && ch < NUM_CHANNELS
  {
    if VarCount(d) == 0 then 0 else live[d.channelMap[ch]]
  }

  /** The five current channel values, in channel order. */
  function CurrentRow(d: Device, live: seq<u32>): (row: seq<u32>)
    requires Valid(d) && |live| == VarCount(d)
    ensures |row| == NUM_CHANNELS
    ensures forall ch :: 0 <= ch < NUM_CHANNELS ==> row[ch] == Sample(d, live, ch)
  {
    seq(NUM_CHANNELS, ch requires 0 <= ch < NUM_CHANNELS => Sample(d, live, ch))
  }

  /** `vscope_save_frame`: one row written at `index`, which then advances and
      wraps to 0 on reaching BUFFER_SIZE. */
  function SaveFrame(d: Device, live: seq<u32>): (r: Device)
    requires Valid(d) && |live| == VarCount(d)
    ensures Valid(r)
    ensures r.index == (d.index + 1) % BUFFER_SIZE
    ensures r.buffer[d.index] == CurrentRow(d, live)
    ensures forall i :: 0 <= i < BUFFER_SIZE && i != d.index ==> r.buffer[i] == d.buffer[i]
    ensures r == d.(buffer := r.buffer, index := r.index)
  {
    var next := d.index + 1;
    d.(buffer := d.buffer[d.index := CurrentRow(d, live)], index := if next >= BUFFER_SIZE then 0 else next)
  }

  // ---------------------------------------------------------------- triggering

  /** `vscopeTrigger`: only a RUNNING engine takes the request to acquire. */
  function Trigger(d: Device): (r: Device)
    ensures Valid(d) ==> Valid(r)
    ensures r == d.(request := r.request)
    ensures r.request != d.request ==> d.state == Running
    ensures d.state == Running ==> r.request == Acquiring
  {
    if d.state == Running then d.(request := Acquiring) else d
  }

  /** The outcome of the floating-point comparison in `vscope_check_trigger`:
      whether the sign of (sample - threshold) changed since the previous
      check, and to which side. */
  datatype Crossing = NoCrossing | RisingCross | FallingCross

  /** Whether a crossing in direction `c` fires a trigger in mode `m`:
      RISING and FALLING each listen to one direction, BOTH to either. */
  predicate Fires(m: TriggerMode, c: Crossing)
  {
    || (c == RisingCross && (m == TrgRising || m == TrgBoth))
    || (c == FallingCross && (m == TrgFalling || m == TrgBoth))
  }

  /** `vscope_check_trigger`: the first check after a (re)configuration only
      records the sample; afterwards a crossing in an enabled direction
      triggers. */
  function CheckTrigger(d: Device, c: Crossing): (r: Device)
    ensures Valid(d) ==> Valid(r)
    ensures d.triggerInvalid ==> r == d.(triggerInvalid := false)
    ensures !d.triggerInvalid ==> r == (if Fires(d.trigMode, c) then Trigger(d) else d)
  {
    if d.triggerInvalid then d.(triggerInvalid := false)
    else if d.trigMode == TrgDisabled then d
    else match c
      case NoCrossing => d
      case RisingCross => if d.trigMode != TrgFalling then Trigger(d) else d
      case FallingCross => if d.trigMode != TrgRising then Trigger(d) else d
  }

  // ---------------------------------------------------------------- acquisition

  /** The snapshot metadata recorded as a capture starts. */
  function Capture(d: Device): (s: Snapshot)
    ensures s.divider == d.divider && s.preTrig == d.preTrig && s.channelMap == d.channelMap
    ensures s.threshold == d.threshold && s.trigChannel == d.trigChannel && s.trigMode == d.trigMode
    ensures s.rtValues == d.catalog.rtValues
    ensures Valid(d) ==> |s.channelMap| == NUM_CHANNELS && |s.rtValues| <= RT_BUFFER_LEN
  {
    Snapshot(d.divider, d.preTrig, d.channelMap, d.threshold, d.trigChannel, d.trigMode, d.catalog.rtValues)
  }

  /** The body of `vscopeAcquire` that runs on every `divider`-th call, after
      the trigger check. */
  function Tick(d: Device, live: seq<u32>): (r: Device)
    requires Valid(d) && |live| == VarCount(d)
    ensures Valid(r)
    ensures r.catalog == d.catalog && r.divider == d.divider && r.preTrig == d.preTrig
    ensures r.dividerTicks == d.dividerTicks && r.triggerInvalid == d.triggerInvalid
  {
    match d.state
    case Halted =>
      var d1 := d.(index := 0);
      if d.request == Running then d1.(state := Running, snapshotValid := false) else d1
    case Running =>
      var d1 := if d.request == Halted then d.(state := Halted) else d;
      var d2 :=
        if d.request != Acquiring then d1
        else if d.acqTime == 0 then
          d1.(snapshot := Capture(d), state := Halted, firstElement := d.index, snapshotValid := true)
        else d1.(snapshot := Capture(d), state := Acquiring, runIndex := 1);
      SaveFrame(d2, live)
    case Acquiring =>
      if d.runIndex == d.acqTime then d.(state := Halted, firstElement := d.index, snapshotValid := true)
      else SaveFrame(d.(runIndex := (d.runIndex + 1) % U16_MODULUS), live)
    case Misconfigured => d
  }

  /** `vscopeAcquire`: counts calls, and on every `divider`-th one checks the
      trigger and advances the state machine. */
  function Acquire(d: Device, live: seq<u32>, c: Crossing): (r: Device)
    requires Valid(d) && |live| == VarCount(d)
    ensures Valid(r)
    ensures r.catalog == d.catalog && r.divider == d.divider && r.preTrig == d.preTrig
    ensures d.dividerTicks + 1 < d.divider ==> r == d.(dividerTicks := d.dividerTicks + 1)
    ensures d.dividerTicks + 1 >= d.divider ==> r.dividerTicks == 0
  {
    var ticks := (d.dividerTicks + 1) % U32_MODULUS;
    if ticks < d.divider then d.(dividerTicks := ticks)
    else Tick(CheckTrigger(d.(dividerTicks := 0), c), live)
  }

  /** `n` calls of `vscopeAcquire` with the same inputs. */
  function AcquireTimes(d: Device, live: seq<u32>, c: Crossing, n: nat): (r: Device)
    requires Valid(d) && |live| == VarCount(d)
    ensures Valid(r) && r.catalog == d.catalog
    decreases n
  {
    if n == 0 then d else AcquireTimes(Acquire(d, live, c), live, c, n - 1)
  }

  /** Between two active calls, `vscopeAcquire` only counts: a device that has
      just acted does nothing but count for the next `divider - 1` calls, and
      acts again on the call after. */
  lemma {:induction false} AcquireCountsCalls(d: Device, live: seq<u32>, c: Crossing, n: nat)
    requires Valid(d) && |live| == VarCount(d)
    requires d.dividerTicks + n < d.divider
    ensures AcquireTimes(d, live, c, n) == d.(dividerTicks := d.dividerTicks + n)
    decreases n
  {
    if n > 0 {
      var d1 := Acquire(d, live, c);
      assert d1 == d.(dividerTicks := d.dividerTicks + 1);
      AcquireCountsCalls(d1, live, c, n - 1);
    }
  }

  /** MISCONFIGURED is never left: an active call only consumes the pending
      first trigger check. */
  lemma MisconfiguredIsFinal(d: Device, live: seq<u32>, c: Crossing)
    requires Valid(d) && |live| == VarCount(d) && d.state == Misconfigured
    ensures var r := Acquire(d, live, c);
            r.state == Misconfigured && r == d.(dividerTicks := r.dividerTicks, triggerInvalid := r.triggerInvalid)
  {
  }

  /** HALTED is left only for RUNNING, only on the request to run, and leaving
      it discards the previous snapshot; an active call in HALTED rewinds the
      write index. */
  lemma LeavingHalted(d: Device, live: seq<u32>, c: Crossing)
    requires Valid(d) && |live| == VarCount(d) && d.state == Halted
    ensures var r := Acquire(d, live, c);
            && (r.state != Halted ==> d.request == Running && r.state == Running && !r.snapshotValid)
            && (d.dividerTicks + 1 >= d.divider ==> r.index == 0 && (r.state == Running <==> d.request == Running))
  {
  }

  /** A snapshot becomes valid only when a capture ends: the engine is then
      HALTED, it came from ACQUIRING (or from RUNNING with no post-trigger
      samples to take), and the oldest sample is where the next write would
      have gone. */
  lemma SnapshotOnlyAtCaptureEnd(d: Device, live: seq<u32>, c: Crossing)
    requires Valid(d) && |live| == VarCount(d) && !d.snapshotValid
    ensures var r := Acquire(d, live, c);
            r.snapshotValid ==>
              && r.state == Halted
              && (d.state == Acquiring || (d.state == Running && d.acqTime == 0))
              && r.firstElement == d.index
  {
  }

  /** While ACQUIRING, each active call either stores one more sample and
      counts it, or, after `acqTime` samples, halts with a valid snapshot. */
  lemma AcquiringProgress(d: Device, live: seq<u32>, c: Crossing)
    requires Valid(d) && |live| == VarCount(d) && d.state == Acquiring
    requires d.dividerTicks + 1 >= d.divider
    ensures var r := Acquire(d, live, c);
            && (d.runIndex < d.acqTime ==>
                  r.state == Acquiring && r.runIndex == d.runIndex + 1 && r.index == (d.index + 1) % BUFFER_SIZE
                  && r.buffer[d.index] == CurrentRow(d, live))
            && (d.runIndex == d.acqTime ==>
                  r.state == Halted && r.snapshotValid && r.firstElement == d.index && r.buffer == d.buffer)
  {
  }

  /** A trigger seen while RUNNING starts a capture on the same call: the
      configuration is recorded in the snapshot, and the triggering sample is
      the first of the `acqTime` post-trigger samples. */
  lemma TriggerStartsCapture(d: Device, live: seq<u32>)
    requires Valid(d) && |live| == VarCount(d) && d.state == Running
    requires d.request == Acquiring && d.dividerTicks + 1 >= d.divider
    requires d.acqTime > 0
    ensures var r := Acquire(d, live, NoCrossing);
            && r.state == Acquiring && r.runIndex == 1
            && r.snapshot == Capture(d)
            && r.buffer[d.index] == CurrentRow(d, live)
  {
  }
}
