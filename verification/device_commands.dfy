/** The device's command handlers and dispatcher (onboard/vscope.c,
    `vscope_handle_*` and `vscope_handle_frame`), and `vscopeFeed` as a whole.

    A handler returns the device it leaves behind and its reply: a message
    type and the data after it. The bytes transmitted for a reply are
    `SendPayload(type, data)`. */
module DeviceCommands {
  import opened Bytes
  import opened DeviceWire
  import opened Device
  import DeviceRx

  datatype Reply = Reply(msgType: byte, data: seq<byte>)

  /** `vscope_send_error(code)`. */
  function ErrorReply(code: byte): Reply
  {
    Reply(MSG_ERROR, [code])
  }

  predicate IsError(r: Reply)
  {
    r.msgType == MSG_ERROR
  }

  datatype Handled = Handled(dev: Device, reply: Reply)

  /** What the device reads from the outside while handling frames: the
      current values of its registered variables, and the protocol version it
      was built with (`VSCOPE_PROTOCOL_VERSION` is not defined in the files
      modelled here). */
  datatype Env = Env(live: seq<u32>, protocolVersion: byte)

  /** The bytes transmitted for a reply. */
  function Wire(r: Reply): seq<byte>
  {
    SendPayload(r.msgType, r.data)
  }

  /** What every handler promises: the device stays valid, the acquisition
      engine and its capture are untouched, the reply fits in one frame and
      carries the request's type unless it is an error, and an error changes
      nothing. */
  ghost predicate Answers(d: Device, t: byte, h: Handled)
  {
    && Valid(h.dev)
    && h.dev.state == d.state && h.dev.catalog.varNames == d.catalog.varNames
    && h.dev.buffer == d.buffer && h.dev.index == d.index && h.dev.firstElement == d.firstElement
    && h.dev.snapshot == d.snapshot && h.dev.snapshotValid == d.snapshotValid
    && |h.reply.data| <= MAX_PAYLOAD
    && (h.reply.msgType == t || IsError(h.reply))
    && (IsError(h.reply) ==> h.dev == d && |h.reply.data| == 1)
  }

  // ---------------------------------------------------------------- info and timing

  /** `vscope_handle_get_info`. */
  function GetInfo(d: Device, protocolVersion: byte): (h: Handled)
    requires Valid(d)
    ensures Answers(d, MSG_GET_INFO, h) && h.dev == d
    ensures |h.reply.data| == 10 + NAME_LEN && h.reply.msgType == MSG_GET_INFO
    ensures h.reply.data[0] == protocolVersion && h.reply.data[1] as int == NUM_CHANNELS
    ensures ReadU16(h.reply.data[2..4]) == BUFFER_SIZE && ReadU16(h.reply.data[4..6]) == d.isrKhz
    ensures h.reply.data[6] as int == VarCount(d) && h.reply.data[7] as int == RtCount(d)
    ensures h.reply.data[8] as int == RT_BUFFER_LEN && h.reply.data[9] as int == NAME_LEN
    ensures h.reply.data[10..] == FixedName(Some(d.deviceName))
  {
    var data := [protocolVersion, NUM_CHANNELS as byte] + WriteU16(BUFFER_SIZE) + WriteU16(d.isrKhz)
      + [VarCount(d) as byte, RtCount(d) as byte, RT_BUFFER_LEN as byte, NAME_LEN as byte]
      + FixedName(Some(d.deviceName));
    Handled(d, Reply(MSG_GET_INFO, data))
  }

  /** The divider and pre-trigger, as `vscope_send_timing` writes them. */
  function TimingBytes(d: Device): (r: seq<byte>)
    ensures |r| == 8 && ReadU32(r[..4]) == d.divider && ReadU32(r[4..]) == d.preTrig
  {
    WriteU32(d.divider) + WriteU32(d.preTrig)
  }

  /** `vscope_handle_get_timing`. */
  function GetTiming(d: Device): (h: Handled)
    requires Valid(d)
    ensures Answers(d, MSG_GET_TIMING, h) && h.dev == d
    ensures h.reply == Reply(MSG_GET_TIMING, TimingBytes(d))
  {
    Handled(d, Reply(MSG_GET_TIMING, TimingBytes(d)))
  }

  /** `vscope_handle_set_timing`: the length is checked first, then the
      values, then that the engine is HALTED. On success the reply echoes the
      request's eight bytes. */
  function SetTiming(d: Device, p: seq<byte>): (h: Handled)
    requires Valid(d)
    ensures Answers(d, MSG_SET_TIMING, h)
    ensures |p| != 8 ==> h.reply == ErrorReply(ERR_BAD_LEN)
    ensures |p| == 8 ==>
              (!IsError(h.reply) <==> ReadU32(p[..4]) != 0 && ReadU32(p[4..]) <= BUFFER_SIZE && d.state == Halted)
    ensures |p| == 8 && IsError(h.reply) ==> h.reply == ErrorReply(ERR_BAD_PARAM)
    ensures !IsError(h.reply) ==>
              && h.dev == d.(divider := ReadU32(p[..4]), preTrig := ReadU32(p[4..]), acqTime := BUFFER_SIZE - ReadU32(p[4..]))
              && h.reply.data == p
  {
    if |p| != 8 then Handled(d, ErrorReply(ERR_BAD_LEN))
    else
      var divider := ReadU32(p[..4]);
      var preTrig := ReadU32(p[4..]);
      if divider == 0 || preTrig > BUFFER_SIZE then Handled(d, ErrorReply(ERR_BAD_PARAM))
      else if d.state != Halted then Handled(d, ErrorReply(ERR_BAD_PARAM))
      else
        var d1 := d.(divider := divider, preTrig := preTrig, acqTime := BUFFER_SIZE - preTrig);
        WordBytesRoundTrip(p[..4]);
        WordBytesRoundTrip(p[4..]);
        assert p == p[..4] + p[4..];
        Handled(d1, Reply(MSG_SET_TIMING, TimingBytes(d1)))
  }

  // ---------------------------------------------------------------- state

  /** `vscope_handle_get_state`. */
  function GetState(d: Device): (h: Handled)
    requires Valid(d)
    ensures Answers(d, MSG_GET_STATE, h) && h.dev == d
    ensures h.reply == Reply(MSG_GET_STATE, [StateCode(d.state)])
  {
    Handled(d, Reply(MSG_GET_STATE, [StateCode(d.state)]))
  }

  /** `vscope_handle_set_state`: only codes up to ACQUIRING are accepted, and
      only the request changes; the reply reports the current state, which
      the acquisition routine has not yet moved. */
  function SetState(d: Device, p: seq<byte>): (h: Handled)
    requires Valid(d)
    ensures Answers(d, MSG_SET_STATE, h)
    ensures |p| != 1 ==> h.reply == ErrorReply(ERR_BAD_LEN)
    ensures |p| == 1 && p[0] > 2 ==> h.reply == ErrorReply(ERR_BAD_PARAM)
    ensures |p| == 1 && p[0] <= 2 ==>
              && h.dev == d.(request := h.dev.request) && StateCode(h.dev.request) == p[0]
              && h.reply == Reply(MSG_SET_STATE, [StateCode(d.state)])
  {
    if |p| != 1 then Handled(d, ErrorReply(ERR_BAD_LEN))
    else if p[0] > 2 then Handled(d, ErrorReply(ERR_BAD_PARAM))
    else Handled(d.(request := RequestOfCode(p[0])), Reply(MSG_SET_STATE, [StateCode(d.state)]))
  }

  /** `vscope_handle_trigger`: acknowledged whether or not the engine was
      RUNNING. */
  function TriggerCommand(d: Device): (h: Handled)
    requires Valid(d)
    ensures Answers(d, MSG_TRIGGER, h)
    ensures h.dev == Trigger(d) && h.reply == Reply(MSG_TRIGGER, [])
  {
    Handled(Trigger(d), Reply(MSG_TRIGGER, []))
  }

  /** `vscope_handle_get_frame`: the current value of each channel. */
  function GetFrame(d: Device, live: seq<u32>): (h: Handled)
    requires Valid(d) && |live| == VarCount(d)
    ensures Answers(d, MSG_GET_FRAME, h) && h.dev == d
    ensures h.reply.msgType == MSG_GET_FRAME && |h.reply.data| == 4 * NUM_CHANNELS
    ensures forall ch :: 0 <= ch < NUM_CHANNELS ==> ReadU32(h.reply.data[4 * ch..4 * ch + 4]) == Sample(d, live, ch)
  {
    Handled(d, Reply(MSG_GET_FRAME, Words(CurrentRow(d, live))))
  }

  // ---------------------------------------------------------------- snapshot

  /** `vscope_handle_get_snapshot_header`: the configuration recorded when
      the capture started, then the rt values copied at that moment. */
  function GetSnapshotHeader(d: Device): (h: Handled)
    requires Valid(d)
    ensures Answers(d, MSG_GET_SNAPSHOT_HEADER, h) && h.dev == d
    ensures !d.snapshotValid <==> h.reply == ErrorReply(ERR_NOT_READY)
    ensures d.snapshotValid ==>
              var m := d.snapshot;
              && |h.reply.data| == 19 + 4 * |m.rtValues|
              && h.reply.data[..5] == m.channelMap
              && ReadU32(h.reply.data[5..9]) == m.divider && ReadU32(h.reply.data[9..13]) == m.preTrig
              && ReadU32(h.reply.data[13..17]) == m.threshold
              && h.reply.data[17] == m.trigChannel && h.reply.data[18] == ModeCode(m.trigMode)
              && h.reply.data[19..] == Words(m.rtValues)
  {
    if !d.snapshotValid then Handled(d, ErrorReply(ERR_NOT_READY))
    else
      var m := d.snapshot;
      var data := m.channelMap + WriteU32(m.divider) + WriteU32(m.preTrig) + WriteU32(m.threshold)
        + [m.trigChannel, ModeCode(m.trigMode)] + Words(m.rtValues);
      Handled(d, Reply(MSG_GET_SNAPSHOT_HEADER, data))
  }

  /** The most samples one reply carries: 12 rows of 5 four-byte values. */
  const MAX_SAMPLES: nat := 12

  /** The buffer row holding the `i`-th sample after `start`, counted from the
      oldest sample of the capture. */
  function SnapshotRow(d: Device, start: nat, i: nat): (row: seq<u32>)
    requires Valid(d)
    ensures |row| == NUM_CHANNELS
  {
    d.buffer[(d.firstElement + start + i) % BUFFER_SIZE]
  }

  /** The samples of a reply, five words each. */
  function SampleBlocks(d: Device, start: nat, count: nat): (bs: seq<seq<byte>>)
    requires Valid(d)
    ensures |bs| == count
    ensures forall i :: 0 <= i < count ==> bs[i] == Words(SnapshotRow(d, start, i)) && |bs[i]| == 20
  {
    seq(count, i requires 0 <= i < count => Words(SnapshotRow(d, start, i)))
  }

  /** `count` consecutive samples in capture order, each as five words. */
  function SampleBytes(d: Device, start: nat, count: nat): (r: seq<byte>)
    requires Valid(d)
    ensures |r| == 20 * count
  {
    var bs := SampleBlocks(d, start, count);
    ConcatLength(bs, 20);
    Concat(bs)
  }

  /** `vscope_handle_get_snapshot_data`: `count` samples from `start`, both
      counted within the capture. */
  function GetSnapshotData(d: Device, p: seq<byte>): (h: Handled)
    requires Valid(d)
    ensures Answers(d, MSG_GET_SNAPSHOT_DATA, h) && h.dev == d
    ensures !d.snapshotValid ==> h.reply == ErrorReply(ERR_NOT_READY)
    ensures d.snapshotValid && |p| != 3 ==> h.reply == ErrorReply(ERR_BAD_LEN)
    ensures d.snapshotValid && |p| == 3 ==>
              var start, count := ReadU16(p[..2]), p[2] as int;
              && (count == 0 || start + count > BUFFER_SIZE ==> h.reply == ErrorReply(ERR_BAD_PARAM))
              && (1 <= count && start + count <= BUFFER_SIZE && count > MAX_SAMPLES ==> h.reply == ErrorReply(ERR_BAD_LEN))
              && (!IsError(h.reply) <==> 1 <= count <= MAX_SAMPLES && start + count <= BUFFER_SIZE)
              && (!IsError(h.reply) ==> h.reply.data == SampleBytes(d, start, count))
  {
    if !d.snapshotValid then Handled(d, ErrorReply(ERR_NOT_READY))
    else if |p| != 3 then Handled(d, ErrorReply(ERR_BAD_LEN))
    else
      var start := ReadU16(p[..2]);
      var count := p[2] as int;
      if start >= BUFFER_SIZE || count == 0 || count > BUFFER_SIZE then Handled(d, ErrorReply(ERR_BAD_PARAM))
      else if start + count > BUFFER_SIZE then Handled(d, ErrorReply(ERR_BAD_PARAM))
      else if count > MAX_SAMPLES then Handled(d, ErrorReply(ERR_BAD_LEN))
      else Handled(d, Reply(MSG_GET_SNAPSHOT_DATA, SampleBytes(d, start, count)))
  }

  /** Each channel of sample `i` of a snapshot reply is the buffered value at
      the circular position `(firstElement + start + i) % BUFFER_SIZE`. */
  lemma SnapshotDataLayout(d: Device, p: seq<byte>, i: nat, ch: nat)
    requires Valid(d)
    requires !IsError(GetSnapshotData(d, p).reply)
    requires i < p[2] as int && ch < NUM_CHANNELS
    ensures var data := GetSnapshotData(d, p).reply.data;
            var k := 20 * i + 4 * ch;
            k + 4 <= |data| <= MAX_SAMPLES * 20
            && ReadU32(data[k..k + 4]) == d.buffer[(d.firstElement + ReadU16(p[..2]) + i) % BUFFER_SIZE][ch]
  {
    var start, count := ReadU16(p[..2]), p[2] as int;
    assert GetSnapshotData(d, p).reply.data == SampleBytes(d, start, count);
    SampleWord(d, start, count, i, ch);
  }

  /** Channel `ch` of sample `i` sits at byte 20i + 4ch of the samples. */
  lemma SampleWord(d: Device, start: nat, count: nat, i: nat, ch: nat)
    requires Valid(d) && i < count && ch < NUM_CHANNELS
    ensures 20 * i + 4 * ch + 4 <= 20 * count
    ensures var data := SampleBytes(d, start, count);
            ReadU32(data[20 * i + 4 * ch..20 * i + 4 * ch + 4]) == d.buffer[(d.firstElement + start + i) % BUFFER_SIZE][ch]
  {
    var data, row := SampleBytes(d, start, count), SnapshotRow(d, start, i);
    SampleAt(d, start, count, i);
    assert 4 * |row| == 20;
    BlockWord(data, 20 * i, row, ch);
  }

  /** A word of a block of words found at offset `b` is found again at
      `b + 4ch` of the enclosing bytes. */
  lemma BlockWord(data: seq<byte>, b: nat, row: seq<u32>, ch: nat)
    requires ch < |row| && b + 4 * |row| <= |data| && data[b..b + 4 * |row|] == Words(row)
    ensures ReadU32(data[b + 4 * ch..b + 4 * ch + 4]) == row[ch]
  {
    SliceOfSlice(data, b, b + 4 * |row|, 4 * ch, 4 * ch + 4);
  }

  /** Sample `i` of a reply is the five words of its row. */
  lemma SampleAt(d: Device, start: nat, count: nat, i: nat)
    requires Valid(d) && i < count
    ensures 20 * i + 20 <= 20 * count
    ensures SampleBytes(d, start, count)[20 * i..20 * i + 20] == Words(SnapshotRow(d, start, i))
  {
    var bs := SampleBlocks(d, start, count);
    ConcatLength(bs, 20);
    ConcatBlock(bs, 20, i);
  }

  // ---------------------------------------------------------------- name lists

  /** The most entries of 1 + NAME_LEN bytes after a 3-byte header. */
  const MAX_LIST_ENTRIES: nat := 14

  /** One list entry: the id, then the name as `vscope_write_str_fixed`
      writes it. */
  function Entry(names: seq<seq<byte>>, start: nat, i: nat): (e: seq<byte>)
    requires start + i < |names| <= 255
    ensures |e| == 1 + NAME_LEN && e[0] as int == start + i
  {
    [(start + i) as byte] + FixedName(Some(names[start + i]))
  }

  /** The entries of a list, one block each. */
  function EntryBlocks(names: seq<seq<byte>>, start: nat, count: nat): (bs: seq<seq<byte>>)
    requires start + count <= |names| <= 255
    ensures |bs| == count
    ensures forall i :: 0 <= i < count ==> bs[i] == Entry(names, start, i) && |bs[i]| == 17
  {
    seq(count, i requires 0 <= i < count => Entry(names, start, i))
  }

  function Entries(names: seq<seq<byte>>, start: nat, count: nat): (r: seq<byte>)
    requires start + count <= |names| <= 255
    ensures |r| == 17 * count
    ensures forall i :: 0 <= i < count ==> 17 * i + 17 <= |r| && r[17 * i..17 * i + 17] == Entry(names, start, i)
  {
    var bs := EntryBlocks(names, start, count);
    ConcatUniform(bs, 17);
    Concat(bs)
  }

  function Min(a: nat, b: nat): nat
  {
    if a < b then a else b
  }

  /** A list reply: the total, the first id, the number of entries, then
      the entries themselves. */
  function ListReply(t: byte, names: seq<seq<byte>>, start: nat, count: nat): (r: Reply)
    requires start + count <= |names| <= MAX_VARIABLES && count <= MAX_LIST_ENTRIES
    ensures r.msgType == t && |r.data| == 3 + 17 * count <= MAX_PAYLOAD
    ensures r.data[0] as int == |names| && r.data[1] as int == start && r.data[2] as int == count
    ensures r.data[3..] == Entries(names, start, count)
  {
    var e := Entries(names, start, count);
    var head := [|names| as byte, start as byte, count as byte];
    assert 17 * count <= 17 * 14;
    assert (head + e)[3..] == e;
    Reply(t, head + e)
  }

  /** How many entries a list request receives: as many as requested (0xFF
      meaning "all"), available from `start`, and fitting in one reply. */
  function ListCount(n: nat, start: nat, requested: byte): (count: nat)
    requires start <= n
    ensures count <= MAX_LIST_ENTRIES && start + count <= n
    ensures requested != 0xFF ==> count <= requested as int
    ensures count == requested as int || count == n - start || count == MAX_LIST_ENTRIES
  {
    var desired := if requested == 0xFF then n - start else requested as int;
    Min(desired, Min(n - start, MAX_LIST_ENTRIES))
  }

  /** The shared shape of `vscope_handle_get_var_list` and
      `vscope_handle_get_rt_labels`: an optional start index and an optional
      count (0xFF, the default, meaning "all"). */
  function NameList(t: byte, names: seq<seq<byte>>, p: seq<byte>): (r: Reply)
    requires |names| <= MAX_VARIABLES && t != MSG_ERROR
    ensures |p| > 2 ==> r == ErrorReply(ERR_BAD_LEN)
    ensures |p| <= 2 ==> (IsError(r) <==> (|p| >= 1 && p[0] as int > |names|))
    ensures IsError(r) ==> |r.data| == 1
    ensures !IsError(r) ==>
              var start := if |p| >= 1 then p[0] as int else 0;
              var requested := if |p| >= 2 then p[1] else 0xFF;
              start <= |names| && r == ListReply(t, names, start, ListCount(|names|, start, requested))
  {
    if |p| > 2 then ErrorReply(ERR_BAD_LEN)
    else
      var start := if |p| >= 1 then p[0] as int else 0;
      var requested := if |p| >= 2 then p[1] else 0xFF;
      if start > |names| then ErrorReply(ERR_BAD_PARAM)
      else ListReply(t, names, start, ListCount(|names|, start, requested))
  }

  /** Every entry of a list reply names an existing item, by its own id. */
  lemma ListEntries(t: byte, names: seq<seq<byte>>, start: nat, count: nat, i: nat)
    requires start + count <= |names| <= MAX_VARIABLES && count <= MAX_LIST_ENTRIES && i < count
    ensures 3 + 17 * i + 17 <= |ListReply(t, names, start, count).data|
    ensures ListReply(t, names, start, count).data[3 + 17 * i..3 + 17 * i + 17] == Entry(names, start, i)
    ensures ListReply(t, names, start, count).data[3 + 17 * i] as int == start + i < |names|
  {
    EntryAt(ListReply(t, names, start, count).data, names, start, count, i);
  }

  /** Entry `i` of a list body placed after a three-byte header. */
  lemma EntryAt(data: seq<byte>, names: seq<seq<byte>>, start: nat, count: nat, i: nat)
    requires start + count <= |names| <= 255 && i < count
    requires |data| == 3 + 17 * count && data[3..] == Entries(names, start, count)
    ensures 3 + 17 * i + 17 <= |data|
    ensures data[3 + 17 * i..3 + 17 * i + 17] == Entry(names, start, i)
    ensures data[3 + 17 * i] as int == start + i < |names|
  {
    var e := Entries(names, start, count);
    var k := 17 * i;
    MulSucc(17, i);
    MulMonotone(17, i + 1, count);
    assert e[k..k + 17] == Entry(names, start, i);
    SliceOfSuffix(data, 3, k, k + 17);
    assert data[3 + k] == Entry(names, start, i)[0];
  }

  /** A slice of a suffix is a slice of the whole. */
  lemma SliceOfSuffix(s: seq<byte>, j: nat, x: nat, y: nat)
    requires j + y <= |s| && x <= y
    ensures s[j..][x..y] == s[j + x..j + y]
  {
  }

  lemma SliceOfSlice(s: seq<byte>, a: nat, b: nat, x: nat, y: nat)
    requires a <= b <= |s| && x <= y <= b - a
    ensures s[a..b][x..y] == s[a + x..a + y]
  {
    var l, r := s[a..b][x..y], s[a + x..a + y];
    assert |l| == |r|;
    forall i | 0 <= i < |l|
      ensures l[i] == r[i]
    {
      assert l[i] == s[a..b][x + i] == s[a + x + i];
    }
  }

  /** `vscope_handle_get_var_list`. */
  function GetVarList(d: Device, p: seq<byte>): (h: Handled)
    requires Valid(d)
    ensures Answers(d, MSG_GET_VAR_LIST, h) && h.dev == d
    ensures h.reply == NameList(MSG_GET_VAR_LIST, d.catalog.varNames, p)
  {
    Handled(d, NameList(MSG_GET_VAR_LIST, d.catalog.varNames, p))
  }

  /** `vscope_handle_get_rt_labels`. */
  function GetRtLabels(d: Device, p: seq<byte>): (h: Handled)
    requires Valid(d)
    ensures Answers(d, MSG_GET_RT_LABELS, h) && h.dev == d
    ensures h.reply == NameList(MSG_GET_RT_LABELS, d.catalog.rtNames, p)
  {
    Handled(d, NameList(MSG_GET_RT_LABELS, d.catalog.rtNames, p))
  }

  // ---------------------------------------------------------------- channels

  /** `vscope_handle_get_channel_map`. */
  function GetChannelMap(d: Device): (h: Handled)
    requires Valid(d)
    ensures Answers(d, MSG_GET_CHANNEL_MAP, h) && h.dev == d
    ensures h.reply == Reply(MSG_GET_CHANNEL_MAP, d.channelMap)
  {
    Handled(d, Reply(MSG_GET_CHANNEL_MAP, d.channelMap))
  }

  /** `vscope_handle_set_channel_map`: five ids, all naming registered
      variables, or nothing changes. */
  function SetChannelMap(d: Device, p: seq<byte>): (h: Handled)
    requires Valid(d)
    ensures Answers(d, MSG_SET_CHANNEL_MAP, h)
    ensures |p| != NUM_CHANNELS ==> h.reply == ErrorReply(ERR_BAD_LEN)
    ensures |p| == NUM_CHANNELS ==>
              (!IsError(h.reply) <==> forall i :: 0 <= i < NUM_CHANNELS ==> (p[i] as int) < VarCount(d))
    ensures |p| == NUM_CHANNELS && IsError(h.reply) ==> h.reply == ErrorReply(ERR_BAD_PARAM)
    ensures !IsError(h.reply) ==> h.dev == d.(channelMap := p) && h.reply.data == p
  {
    if |p| != NUM_CHANNELS then Handled(d, ErrorReply(ERR_BAD_LEN))
    else
      var u := UpdateChannelMap(d, p);
      UpdateChannelMapValid(d, p);
      if !u.0 then Handled(d, ErrorReply(ERR_BAD_PARAM))
      else Handled(u.1, Reply(MSG_SET_CHANNEL_MAP, u.1.channelMap))
  }

  /** The label of one channel: its variable's name, or zeros. */
  function ChannelLabel(d: Device, ch: nat): (r: seq<byte>)
    requires Valid(d) && ch < NUM_CHANNELS
    ensures |r| == NAME_LEN
  {
    var id := d.channelMap[ch] as int;
    if id < VarCount(d) then FixedName(Some(d.catalog.varNames[id])) else Zeros(NAME_LEN)
  }

  /** `vscope_handle_get_channel_labels`. */
  function GetChannelLabels(d: Device): (h: Handled)
    requires Valid(d)
    ensures Answers(d, MSG_GET_CHANNEL_LABELS, h) && h.dev == d
    ensures h.reply.msgType == MSG_GET_CHANNEL_LABELS && |h.reply.data| == NUM_CHANNELS * NAME_LEN
    ensures forall ch :: 0 <= ch < NUM_CHANNELS ==> h.reply.data[16 * ch..16 * ch + 16] == ChannelLabel(d, ch)
  {
    var bs := seq(NUM_CHANNELS, ch requires 0 <= ch < NUM_CHANNELS => ChannelLabel(d, ch));
    ConcatUniform(bs, 16);
    assert forall ch :: 0 <= ch < NUM_CHANNELS ==> bs[ch] == ChannelLabel(d, ch);
    Handled(d, Reply(MSG_GET_CHANNEL_LABELS, Concat(bs)))
  }

  // ---------------------------------------------------------------- rt buffer

  /** `vscope_handle_get_rt_buffer`. */
  function GetRtBuffer(d: Device, p: seq<byte>): (h: Handled)
    requires Valid(d)
    ensures Answers(d, MSG_GET_RT_BUFFER, h) && h.dev == d
    ensures |p| != 1 ==> h.reply == ErrorReply(ERR_BAD_LEN)
    ensures |p| == 1 && p[0] as int >= RtCount(d) ==> h.reply == ErrorReply(ERR_RANGE)
    ensures |p| == 1 && (p[0] as int) < RtCount(d) ==>
              h.reply == Reply(MSG_GET_RT_BUFFER, WriteU32(d.catalog.rtValues[p[0]]))
  {
    if |p| != 1 then Handled(d, ErrorReply(ERR_BAD_LEN))
    else if p[0] as int >= RtCount(d) then Handled(d, ErrorReply(ERR_RANGE))
    else Handled(d, Reply(MSG_GET_RT_BUFFER, WriteU32(d.catalog.rtValues[p[0]])))
  }

  /** `vscope_handle_set_rt_buffer`: stores the word and echoes it. */
  function SetRtBuffer(d: Device, p: seq<byte>): (h: Handled)
    requires Valid(d)
    ensures Answers(d, MSG_SET_RT_BUFFER, h)
    ensures |p| != 5 ==> h.reply == ErrorReply(ERR_BAD_LEN)
    ensures |p| == 5 && p[0] as int >= RtCount(d) ==> h.reply == ErrorReply(ERR_RANGE)
    ensures |p| == 5 && (p[0] as int) < RtCount(d) ==>
              && h.dev == d.(catalog := d.catalog.(rtValues := d.catalog.rtValues[p[0] := ReadU32(p[1..])]))
              && h.reply == Reply(MSG_SET_RT_BUFFER, p[1..])
  {
    if |p| != 5 then Handled(d, ErrorReply(ERR_BAD_LEN))
    else if p[0] as int >= RtCount(d) then Handled(d, ErrorReply(ERR_RANGE))
    else
      var idx := p[0] as int;
      var value := ReadU32(p[1..]);
      var d1 := d.(catalog := d.catalog.(rtValues := d.catalog.rtValues[idx := value]));
      WordBytesRoundTrip(p[1..]);
      Handled(d1, Reply(MSG_SET_RT_BUFFER, WriteU32(d1.catalog.rtValues[idx])))
  }

  // ---------------------------------------------------------------- trigger

  function TriggerBytes(d: Device): (r: seq<byte>)
    ensures |r| == 6 && ReadU32(r[..4]) == d.threshold && r[4] == d.trigChannel && r[5] == ModeCode(d.trigMode)
  {
    WriteU32(d.threshold) + [d.trigChannel, ModeCode(d.trigMode)]
  }

  /** `vscope_handle_get_trigger`. */
  function GetTrigger(d: Device): (h: Handled)
    requires Valid(d)
    ensures Answers(d, MSG_GET_TRIGGER, h) && h.dev == d
    ensures h.reply == Reply(MSG_GET_TRIGGER, TriggerBytes(d))
  {
    Handled(d, Reply(MSG_GET_TRIGGER, TriggerBytes(d)))
  }

  /** `vscope_handle_set_trigger`: a channel below NUM_CHANNELS and a mode up
      to BOTH; the next trigger check only records the sample. On success the
      reply echoes the request. */
  function SetTrigger(d: Device, p: seq<byte>): (h: Handled)
    requires Valid(d)
    ensures Answers(d, MSG_SET_TRIGGER, h)
    ensures |p| != 6 ==> h.reply == ErrorReply(ERR_BAD_LEN)
    ensures |p| == 6 ==> (!IsError(h.reply) <==> (p[4] as int) < NUM_CHANNELS && p[5] <= 3)
    ensures |p| == 6 && IsError(h.reply) ==> h.reply == ErrorReply(ERR_BAD_PARAM)
    ensures !IsError(h.reply) ==>
              && h.dev == d.(threshold := ReadU32(p[..4]), trigChannel := p[4], trigMode := h.dev.trigMode, triggerInvalid := true)
              && ModeCode(h.dev.trigMode) == p[5]
              && h.reply.data == p
  {
    if |p| != 6 then Handled(d, ErrorReply(ERR_BAD_LEN))
    else if p[4] as int >= NUM_CHANNELS || p[5] > 3 then Handled(d, ErrorReply(ERR_BAD_PARAM))
    else
      var d1 := d.(threshold := ReadU32(p[..4]), trigChannel := p[4], trigMode := ModeOfCode(p[5]), triggerInvalid := true);
      WordBytesRoundTrip(p[..4]);
      assert p == p[..4] + [p[4], p[5]];
      Handled(d1, Reply(MSG_SET_TRIGGER, TriggerBytes(d1)))
  }

  // ---------------------------------------------------------------- dispatch

  /** The commands that take no argument. */
  predicate NoArgument(t: byte)
  {
    t in {MSG_GET_INFO, MSG_GET_TIMING, MSG_GET_STATE, MSG_TRIGGER, MSG_GET_FRAME,
          MSG_GET_SNAPSHOT_HEADER, MSG_GET_CHANNEL_MAP, MSG_GET_CHANNEL_LABELS, MSG_GET_TRIGGER}
  }

  /** Every message type the device answers. */
  predicate Known(t: byte)
  {
    0x01 <= t <= 0x12
  }

  /** A command without argument is refused when a payload comes with it. */
  function NoArgs(d: Device, p: seq<byte>, h: Handled): Handled
  {
    if |p| != 0 then Handled(d, ErrorReply(ERR_BAD_LEN)) else h
  }

  /** `vscope_handle_frame`. */
  function HandleFrame(d: Device, env: Env, f: DeviceRx.Frame): (h: Handled)
    requires Valid(d) && |env.live| == VarCount(d)
    ensures Answers(d, f.msgType, h)
  {
    var t, p := f.msgType, f.payload;
    if t == MSG_GET_INFO then NoArgs(d, p, GetInfo(d, env.protocolVersion))
    else if t == MSG_GET_TIMING then NoArgs(d, p, GetTiming(d))
    else if t == MSG_SET_TIMING then SetTiming(d, p)
    else if t == MSG_GET_STATE then NoArgs(d, p, GetState(d))
    else if t == MSG_SET_STATE then SetState(d, p)
    else if t == MSG_TRIGGER then NoArgs(d, p, TriggerCommand(d))
    else if t == MSG_GET_FRAME then NoArgs(d, p, GetFrame(d, env.live))
    else if t == MSG_GET_SNAPSHOT_HEADER then NoArgs(d, p, GetSnapshotHeader(d))
    else if t == MSG_GET_SNAPSHOT_DATA then GetSnapshotData(d, p)
    else if t == MSG_GET_VAR_LIST then GetVarList(d, p)
    else if t == MSG_GET_CHANNEL_MAP then NoArgs(d, p, GetChannelMap(d))
    else if t == MSG_SET_CHANNEL_MAP then SetChannelMap(d, p)
    else if t == MSG_GET_CHANNEL_LABELS then NoArgs(d, p, GetChannelLabels(d))
    else if t == MSG_GET_RT_LABELS then GetRtLabels(d, p)
    else if t == MSG_GET_RT_BUFFER then GetRtBuffer(d, p)
    else if t == MSG_SET_RT_BUFFER then SetRtBuffer(d, p)
    else if t == MSG_GET_TRIGGER then NoArgs(d, p, GetTrigger(d))
    else if t == MSG_SET_TRIGGER then SetTrigger(d, p)
    else Handled(d, ErrorReply(ERR_BAD_PARAM))
  }

  /** A command without argument that arrives with a payload is refused with
      BAD_LEN and changes nothing; an unknown type is refused with BAD_PARAM. */
  lemma DispatchRejects(d: Device, env: Env, f: DeviceRx.Frame)
    requires Valid(d) && |env.live| == VarCount(d)
    ensures NoArgument(f.msgType) && |f.payload| > 0 ==> HandleFrame(d, env, f) == Handled(d, ErrorReply(ERR_BAD_LEN))
    ensures !Known(f.msgType) ==> HandleFrame(d, env, f) == Handled(d, ErrorReply(ERR_BAD_PARAM))
  {
  }

  /** Commands never move the acquisition state machine: in particular a
      MISCONFIGURED device stays so whatever it is sent. */
  lemma CommandsKeepState(d: Device, env: Env, f: DeviceRx.Frame)
    requires Valid(d) && |env.live| == VarCount(d)
    ensures HandleFrame(d, env, f).dev.state == d.state
    ensures d.state == Misconfigured ==> HandleFrame(d, env, f).dev.state == Misconfigured
  {
  }

  /** Every reply fits in one frame, so `vscope_send_payload` never has to
      replace it with a BAD_LEN error, and the frame carries the reply. */
  lemma RepliesFit(d: Device, env: Env, f: DeviceRx.Frame)
    requires Valid(d) && |env.live| == VarCount(d)
    ensures var r := HandleFrame(d, env, f).reply;
            Wire(r) == SendFrame(r.msgType, r.data) && |Wire(r)| == |r.data| + 4
  {
  }

  // ---------------------------------------------------------------- round trips

  /** A timing accepted by SET_TIMING is what GET_TIMING then reports. */
  lemma SetThenGetTiming(d: Device, p: seq<byte>)
    requires Valid(d)
    requires !IsError(SetTiming(d, p).reply)
    ensures GetTiming(SetTiming(d, p).dev).reply.data == p
  {
    var d1 := SetTiming(d, p).dev;
    assert TimingBytes(d1) == WriteU32(ReadU32(p[..4])) + WriteU32(ReadU32(p[4..]));
    WordBytesRoundTrip(p[..4]);
    WordBytesRoundTrip(p[4..]);
    assert p == p[..4] + p[4..];
  }

  /** A trigger configuration accepted by SET_TRIGGER is what GET_TRIGGER
      then reports. */
  lemma SetThenGetTrigger(d: Device, p: seq<byte>)
    requires Valid(d)
    requires !IsError(SetTrigger(d, p).reply)
    ensures GetTrigger(SetTrigger(d, p).dev).reply.data == p
  {
    WordBytesRoundTrip(p[..4]);
    assert p == p[..4] + [p[4], p[5]];
  }

  /** A channel map accepted by SET_CHANNEL_MAP is what GET_CHANNEL_MAP then
      reports, and a refused one leaves the old map in place. */
  lemma SetThenGetChannelMap(d: Device, p: seq<byte>)
    requires Valid(d)
    ensures !IsError(SetChannelMap(d, p).reply) ==> GetChannelMap(SetChannelMap(d, p).dev).reply.data == p
    ensures IsError(SetChannelMap(d, p).reply) ==> GetChannelMap(SetChannelMap(d, p).dev).reply.data == d.channelMap
  {
  }

  /** A value written by SET_RT_BUFFER is what GET_RT_BUFFER then reads. */
  lemma SetThenGetRtBuffer(d: Device, p: seq<byte>)
    requires Valid(d)
    requires !IsError(SetRtBuffer(d, p).reply)
    ensures GetRtBuffer(SetRtBuffer(d, p).dev, p[..1]).reply.data == p[1..]
  {
    WordBytesRoundTrip(p[1..]);
  }

  /** The device name GET_INFO reports is the one stored by `vscopeInit`:
      writing a fixed name again changes nothing. */
  lemma InfoReportsStoredName(c: Catalog, name: Option<seq<byte>>, isrKhz: u16, pv: byte)
    requires |c.varNames| <= MAX_VARIABLES && |c.rtNames| == |c.rtValues| <= RT_BUFFER_LEN
    ensures GetInfo(Init(c, name, isrKhz), pv).reply.data[10..] == FixedName(name)
  {
    FixedNameIdempotent(name);
  }

  // ---------------------------------------------------------------- feeding

  /** The parser and the engine together. */
  datatype Scope = Scope(rx: DeviceRx.Rx, dev: Device)

  ghost predicate ScopeValid(s: Scope)
  {
    DeviceRx.Valid(s.rx) && Valid(s.dev)
  }

  datatype Served = Served(dev: Device, output: seq<byte>)

  /** Handles dispatched frames in order, collecting the bytes transmitted. */
  function HandleAll(d: Device, env: Env, frames: seq<DeviceRx.Frame>): (r: Served)
    requires Valid(d) && |env.live| == VarCount(d)
    ensures Valid(r.dev) && r.dev.state == d.state && VarCount(r.dev) == VarCount(d)
    decreases |frames|
  {
    if |frames| == 0 then Served(d, [])
    else
      var h := HandleFrame(d, env, frames[0]);
      var rest := HandleAll(h.dev, env, frames[1..]);
      Served(rest.dev, Wire(h.reply) + rest.output)
  }

  /** `vscopeFeed`, parser and handlers together. */
  function FeedScope(s: Scope, env: Env, data: seq<byte>, now: u32): (r: (Scope, seq<byte>))
    requires ScopeValid(s) && |env.live| == VarCount(s.dev)
    ensures ScopeValid(r.0)
    ensures r.0.dev.state == s.dev.state
    ensures |data| == 0 ==> r == (s, [])
  {
    var fed := DeviceRx.Feed(s.rx, data, now);
    var served := HandleAll(s.dev, env, fed.frames);
    (Scope(fed.rx, served.dev), served.output)
  }
}
