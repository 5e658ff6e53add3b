/** The older device variant's acquisition engine (onboard/logger.c):
    `vscopeInit`, `saveFrameToBuffer`, `vscopeAcquire` and `vscopeTrigger`.

    The header this variant was written against is not part of this model;
    its sizes are a `LegacyConfig`. The ten channels `vscopeInit` configures
    fix the channel count. Floating-point trigger detection is abstracted to
    whether the trigger fired on this call. */
module LegacyLogger {
  import opened Bytes
  import opened DeviceWire
  import opened Device

  /** `vscopeInit` configures channels 0 through 9. */
  const LEGACY_CHANNELS: nat := 10

  /** The old header's sizes: the default buffer length in samples, the
      memory reserved for samples, the rt-buffer length, the length of a
      channel name and of the device name. */
  datatype LegacyConfig = LegacyConfig(bufferSize: u16, memory: nat, rtLen: nat, nameLen: nat, deviceNameLen: nat)

  /** Sizes the code can work with: a non-empty buffer, an rt buffer holding
      the three trigger settings, and room for a terminated device name. */
  predicate ConfigOk(cfg: LegacyConfig)
  {
    cfg.bufferSize >= 1 && cfg.rtLen >= 3 && cfg.deviceNameLen >= 1
  }

  /** `VscopeStruct` and the file's globals, with the two static counters of
      `vscopeAcquire` (`ticks` is its local `divider`). */
  datatype Scope = Scope(
    cfg: LegacyConfig,
    state: AcqState, request: AcqState,
    bufferSize: u16, nCh: u16,
    preTrig: u32, divider: u32, acqTime: u32,
    index: nat, firstElement: nat,
    buffer: seq<seq<u32>>,
    deviceName: seq<byte>,
    rtBuffer: seq<u32>,
    channelNames: seq<seq<byte>>,
    ticks: u16, runIndex: u16)

  ghost predicate Valid(s: Scope)
  {
    && ConfigOk(s.cfg)
    && s.bufferSize == s.cfg.bufferSize && s.nCh as nat == LEGACY_CHANNELS
    && |s.buffer| == s.bufferSize
    && (forall i :: 0 <= i < |s.buffer| ==> |s.buffer[i]| == LEGACY_CHANNELS)
    && s.index < s.bufferSize && s.firstElement < s.bufferSize
    && |s.deviceName| == s.cfg.deviceNameLen && |s.rtBuffer| == s.cfg.rtLen
    && |s.channelNames| == LEGACY_CHANNELS
    && (forall i :: 0 <= i < LEGACY_CHANNELS ==> |s.channelNames[i]| == s.cfg.nameLen)
    && s.request != Misconfigured
  }

  /** `strncpy(dest, src, n)`: the string up to its first NUL, cut at `n`
      bytes, then zeros up to `n`. */
  function Strncpy(src: seq<byte>, n: nat): (r: seq<byte>)
    ensures |r| == n && r[..|StrnPrefix(src, n)|] == StrnPrefix(src, n)
    ensures forall i :: |StrnPrefix(src, n)| <= i < n ==> r[i] == 0
  {
    var c := StrnPrefix(src, n);
    c + Zeros(n - |c|)
  }

  /** The ASCII text "Device 1". */
  const DEFAULT_NAME: seq<byte> := [0x44, 0x65, 0x76, 0x69, 0x63, 0x65, 0x20, 0x31]

  /** `snprintf(name, n, "Device %d", 1)` over a zeroed field: the text, cut
      to leave room for the terminating NUL. */
  function DefaultName(n: nat): (r: seq<byte>)
    requires n >= 1
    ensures |r| == n && r[n - 1] == 0
    ensures n > |DEFAULT_NAME| ==> r[..|DEFAULT_NAME|] == DEFAULT_NAME
  {
    if n > |DEFAULT_NAME| then DEFAULT_NAME + Zeros(n - |DEFAULT_NAME|)
    else DEFAULT_NAME[..n - 1] + [0]
  }

  /** The configuration cannot fit in the reserved memory. */
  predicate Overcommitted(cfg: LegacyConfig)
  {
    cfg.bufferSize * LEGACY_CHANNELS > cfg.memory
  }

  /** `vscopeInit` on a freshly started device. `names` are the identifiers
      the `CONFIGURE_CHANNEL` lines stringify, channel by channel. */
  function Init(cfg: LegacyConfig, names: seq<seq<byte>>): (s: Scope)
    requires ConfigOk(cfg) && |names| == LEGACY_CHANNELS
    ensures Valid(s)
    ensures s.state == Misconfigured <==> Overcommitted(cfg)
    ensures s.state != Misconfigured ==> s.state == Halted
    ensures s.request == Halted && s.divider == 1 && s.preTrig == 0 && s.acqTime == cfg.bufferSize
    ensures forall ch :: 0 <= ch < LEGACY_CHANNELS ==> s.channelNames[ch] == Strncpy(names[ch], cfg.nameLen)
  {
    Scope(cfg,
      if Overcommitted(cfg) then Misconfigured else Halted, Halted,
      cfg.bufferSize, LEGACY_CHANNELS as u16,
      0, 1, cfg.bufferSize,
      0, 0,
      seq(cfg.bufferSize, _ => seq(LEGACY_CHANNELS, _ => 0)),
      DefaultName(cfg.deviceNameLen),
      seq(cfg.rtLen, _ => 0),
      seq(LEGACY_CHANNELS, ch requires 0 <= ch < LEGACY_CHANNELS => Strncpy(names[ch], cfg.nameLen)),
      0, 0)
  }

  /** `saveFrameToBuffer`: stores the current values of the channels at
      `index` and advances it, wrapping to 0 when it reaches the buffer
      size. */
  function SaveFrame(s: Scope, frame: seq<u32>): (r: Scope)
    requires Valid(s) && |frame| == LEGACY_CHANNELS
    ensures Valid(r) && r == s.(buffer := r.buffer, index := r.index)
    ensures r.index == (s.index + 1) % s.bufferSize as int
    ensures r.buffer[s.index] == frame
    ensures forall i :: 0 <= i < |s.buffer| && i != s.index ==> r.buffer[i] == s.buffer[i]
  {
    var next := s.index + 1;
    var n := s.bufferSize as int;
    if next == n then
      ModUnique(next, 1, 0, n);
      s.(buffer := s.buffer[s.index := frame], index := 0)
    else
      ModUnique(next, 0, next, n);
      s.(buffer := s.buffer[s.index := frame], index := next)
  }

  /** `vscopeTrigger`: requests a capture only while RUNNING. */
  function Trigger(s: Scope): (r: Scope)
    ensures s.state == Running ==> r == s.(request := Acquiring)
    ensures s.state != Running ==> r == s
  {
    if s.state == Running then s.(request := Acquiring) else s
  }

  /** The state machine part of `vscopeAcquire`, run once the call counter
      has reached the divider. */
  function Advance(s: Scope, frame: seq<u32>): (r: Scope)
    requires Valid(s) && |frame| == LEGACY_CHANNELS
    ensures Valid(r) && r.request == s.request && r.ticks == s.ticks
    ensures r.divider == s.divider && r.acqTime == s.acqTime && r.rtBuffer == s.rtBuffer
  {
    match s.state
    case Halted =>
      var h := s.(index := 0);
      if s.request == Running then h.(state := Running) else h
    case Running =>
      var s1 := if s.request == Halted then s.(state := Halted) else s;
      var s2 :=
        if s.request != Acquiring then s1
        else if s.acqTime == 0 then s1.(state := Halted, firstElement := s1.index)
        else s1.(state := Acquiring, runIndex := 1);
      SaveFrame(s2, frame)
    case Acquiring =>
      if s.runIndex as int == s.acqTime then s.(state := Halted, firstElement := s.index)
      else SaveFrame(s.(runIndex := (s.runIndex + 1) % U16_MODULUS), frame)
    case Misconfigured => s
  }

  /** `vscopeAcquire`: counts calls in a 16-bit counter and runs the
      trigger check and the state machine once the count reaches the
      divider. `fired` is whether the trigger check called `vscopeTrigger`. */
  function Acquire(s: Scope, frame: seq<u32>, fired: bool): (r: Scope)
    requires Valid(s) && |frame| == LEGACY_CHANNELS
    ensures Valid(r) && r.divider == s.divider && r.acqTime == s.acqTime && r.rtBuffer == s.rtBuffer
  {
    var ticks := (s.ticks + 1) % U16_MODULUS;
    if ticks < s.divider then s.(ticks := ticks)
    else
      var s1 := s.(ticks := 0);
      Advance(if fired then Trigger(s1) else s1, frame)
  }

  /** The state machine moves only on calls where the counter reaches the
      divider; the other calls only count. */
  lemma AcquireCounts(s: Scope, frame: seq<u32>, fired: bool)
    requires Valid(s) && |frame| == LEGACY_CHANNELS
    ensures (s.ticks + 1) % U16_MODULUS < s.divider ==> Acquire(s, frame, fired) == s.(ticks := (s.ticks + 1) % U16_MODULUS)
    ensures (s.ticks + 1) % U16_MODULUS >= s.divider ==> Acquire(s, frame, fired).ticks == 0
  {
  }

  /** `k` calls without a trigger. */
  function AcquireTimes(s: Scope, frame: seq<u32>, k: nat): (r: Scope)
    requires Valid(s) && |frame| == LEGACY_CHANNELS
    ensures Valid(r)
    decreases k
  {
    if k == 0 then s else AcquireTimes(Acquire(s, frame, false), frame, k - 1)
  }

  /** With a divider `d` up to 65535 and a fresh counter, the first `d - 1`
      calls only count: the state machine runs on every `d`-th call. */
  lemma {:induction false} DividerGates(s: Scope, frame: seq<u32>, k: nat)
    requires Valid(s) && |frame| == LEGACY_CHANNELS
    requires s.ticks as int + k < s.divider && s.divider < U16_MODULUS
    ensures AcquireTimes(s, frame, k) == s.(ticks := s.ticks + k)
    decreases k
  {
    if k > 0 {
      var s1 := Acquire(s, frame, false);
      assert s1 == s.(ticks := s.ticks + 1);
      DividerGates(s1, frame, k - 1);
    }
  }

  /** A divider above 65535, which SET_TIMING accepts, freezes the state
      machine: the 16-bit counter never reaches it. */
  lemma WideDividerFreezes(s: Scope, frame: seq<u32>, fired: bool)
    requires Valid(s) && |frame| == LEGACY_CHANNELS && s.divider >= U16_MODULUS
    ensures Acquire(s, frame, fired) == s.(ticks := (s.ticks + 1) % U16_MODULUS)
  {
  }

  /** The state machine, one advancing call at a time: HALTED rewinds the
      write index and moves to RUNNING exactly on request; RUNNING honours a
      HALTED request, starts a capture on an ACQUIRING request (or halts at
      once when there is nothing to capture) and records a frame either way;
      ACQUIRING records frames until `acqTime` of them, then halts and marks
      where the capture starts. */
  lemma AdvanceTransitions(s: Scope, frame: seq<u32>)
    requires Valid(s) && |frame| == LEGACY_CHANNELS
    ensures var r := Advance(s, frame);
            && (s.state == Halted ==>
                  r.index == 0 && (r.state == Running <==> s.request == Running)
                  && (r.state != Running ==> r.state == Halted) && r.buffer == s.buffer)
            && (s.state == Running && s.request == Halted ==> r.state == Halted)
            && (s.state == Running && s.request == Running ==> r.state == Running)
            && (s.state == Running && s.request == Acquiring && s.acqTime == 0 ==>
                  r.state == Halted && r.firstElement == s.index)
            && (s.state == Running && s.request == Acquiring && s.acqTime != 0 ==>
                  r.state == Acquiring && r.runIndex == 1)
            && (s.state == Running ==>
                  r.buffer[s.index] == frame && r.index == (s.index + 1) % s.bufferSize as int)
            && (s.state == Acquiring && s.runIndex as int == s.acqTime ==>
                  r.state == Halted && r.firstElement == s.index && r.buffer == s.buffer)
            && (s.state == Acquiring && s.runIndex as int != s.acqTime ==>
                  r.state == Acquiring && r.buffer[s.index] == frame
                  && r.runIndex == (s.runIndex + 1) % U16_MODULUS)
  {
  }

  /** MISCONFIGURED is never left, whatever the calls and triggers. */
  lemma MisconfiguredIsFinal(s: Scope, frame: seq<u32>, fired: bool)
    requires Valid(s) && |frame| == LEGACY_CHANNELS && s.state == Misconfigured
    ensures Acquire(s, frame, fired).state == Misconfigured
    ensures Acquire(s, frame, fired).buffer == s.buffer
  {
  }

  /** One call at divider 1 during a capture that is not yet complete. */
  lemma CaptureStep(s: Scope, frame: seq<u32>)
    requires Valid(s) && |frame| == LEGACY_CHANNELS
    requires s.state == Acquiring && s.divider == 1 && s.ticks == 0
    requires s.runIndex as int < s.acqTime < U16_MODULUS
    ensures var r := Acquire(s, frame, false);
            && r.state == Acquiring && r.runIndex == s.runIndex + 1 && r.ticks == 0 && r.divider == 1
            && r.index == (s.index + 1) % s.bufferSize as int && r.bufferSize == s.bufferSize
  {
  }

  /** A capture of `acqTime` samples: from ACQUIRING with `runIndex = r`,
      calls at divider 1 record `acqTime - r` more frames, at consecutive
      positions of the circular buffer, and the next call halts there. */
  lemma {:induction false} CaptureRuns(s: Scope, frame: seq<u32>, k: nat)
    requires Valid(s) && |frame| == LEGACY_CHANNELS
    requires s.state == Acquiring && s.divider == 1 && s.ticks == 0
    requires s.runIndex as int + k <= s.acqTime < U16_MODULUS
    ensures var r := AcquireTimes(s, frame, k);
            && r.state == Acquiring && r.runIndex as int == s.runIndex as int + k
            && r.index == (s.index + k) % s.bufferSize as int && r.ticks == 0
    decreases k
  {
    if k == 0 {
      ModUnique(s.index, 0, s.index, s.bufferSize as int);
    } else {
      var s1 := Acquire(s, frame, false);
      var n := s.bufferSize as int;
      CaptureStep(s, frame);
      assert AcquireTimes(s, frame, k) == AcquireTimes(s1, frame, k - 1);
      CaptureRuns(s1, frame, k - 1);
      ModSucc(s.index, k - 1, n);
      assert s1.index == (s.index + 1) % n && s1.bufferSize as int == n;
    }
  }

  /** After the capture the next advancing call halts, with the capture
      starting at the current write position. */
  lemma CaptureEnds(s: Scope, frame: seq<u32>, fired: bool)
    requires Valid(s) && |frame| == LEGACY_CHANNELS
    requires s.state == Acquiring && s.runIndex as int == s.acqTime
    requires (s.ticks + 1) % U16_MODULUS >= s.divider
    ensures Acquire(s, frame, fired).state == Halted
    ensures Acquire(s, frame, fired).firstElement == s.index
  {
  }

  /** A capture longer than the 16-bit run counter can count never ends:
      the counter wraps before it can equal the capture length. */
  lemma {:induction false} CaptureNeverEnds(s: Scope, frame: seq<u32>, k: nat)
    requires Valid(s) && |frame| == LEGACY_CHANNELS
    requires s.state == Acquiring && s.acqTime >= U16_MODULUS
    ensures AcquireTimes(s, frame, k).state == Acquiring
    decreases k
  {
    if k > 0 {
      var s1 := Acquire(s, frame, false);
      assert s1.state == Acquiring && s1.acqTime == s.acqTime;
      CaptureNeverEnds(s1, frame, k - 1);
    }
  }
}
