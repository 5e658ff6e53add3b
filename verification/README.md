# v2scope serial protocol, in Dafny

v2scope is an oscilloscope for embedded targets. A desktop host (Rust,
`src-tauri/src/serial.rs` and `src-tauri/src/error.rs`) talks to firmware
(C, `onboard/vscope.c`) over a serial line. Both sides use one framing,
`[0xC8, len, type, payload…, crc8]`, protected by a table-driven CRC-8. An
older firmware variant (`onboard/logger.c`, `onboard/interface.c`) uses a
fixed 9-byte message format instead.

This project models that protocol as pure functions over immutable
datatypes and proves properties of the model:

- `Bytes`: bytes (`byte`, a newtype over 0..255), 16- and 32-bit words, and
  byte-string concatenation.
- `SerialErrors`: the `SerialError` enum and its two `From` conversions.
- `FrameCodec`: the host's `crc8`, `build_frame` and `read_frame`. The
  wall-clock deadline of `read_frame` becomes a fuel count, one unit per
  resync iteration. Input that runs out is a timed-out `read_exact`, which
  reports `Timeout`.
- `PortRegistry`: the handle registry, run sequentially, as a map and a
  `next_id` counter.
- `DeviceSession`: `open_device`, `close_device`, `flush_device` and
  `send_request`. Lock poisoning is a per-handle flag. The port is an
  `Exchange`, which holds an optional write fault, the bytes the device
  answers, and the read fuel.
- `DeviceWire`: the firmware's constants, CRC, little-endian words,
  fixed-length names, and the transmit path.
- `DeviceRx`: the firmware's receive parser, `vscopeFeed`.
- `Device`: the firmware's acquisition engine: registration, `vscopeInit`,
  the channel map, `vscopeTrigger`, and the `vscopeAcquire` state machine
  over the circular buffer.
- `DeviceCommands`: the eighteen command handlers, `vscope_handle_frame`,
  and the parser and handlers run together.
- `WireCompat`: theorems across the two sides. The CRC tables are equal,
  each side decodes what the other encodes, and a whole request/response
  exchange returns the handler's reply.
- `LegacyLogger`: the acquisition state machine of `onboard/logger.c`.
- `LegacyInterface`: `U32_FROM_MSG` and `vscopeProcessMessage` of
  `onboard/interface.c`. The output is the sequence of emitted characters
  and words.

Floats are opaque 32-bit words throughout. Where the firmware reads a value
through a pointer, the value is a parameter:
- `live` carries the registered variables' current values;
- `frame` carries the legacy channel values;
- `Crossing` and `fired` carry the outcome of the floating-point trigger
  comparison.

The configuration constants of the current firmware are those of
`onboard/vscope.h`:
- 5 channels;
- a 1000-sample buffer;
- 32 variables;
- 16 rt-buffer entries;
- 16-byte names;
- a 10 ms frame timeout;
- a 252-byte payload limit.

The header of the legacy variant is not part of this model. Its constants
are a `LegacyConfig` parameter, and its channel count is fixed at ten
(logger.c:48-57).

## Model

| member | source | states |
|---|---|---|
| SerialErrors.FromIo | src-tauri/src/error.rs:32-41 | An I/O error becomes Timeout exactly when its kind is TimedOut. Every other kind becomes IoError carrying the error's text. |
| SerialErrors.FromPort | src-tauri/src/error.rs:43-66 | The mapping runs in both directions. NoDevice is exactly PortNotFound, Io(TimedOut) exactly Timeout, and Io(PermissionDenied) exactly PortBusy. InvalidInput is exactly InvalidConfig, and every remaining kind is IoError. |
| SerialErrors.ConversionsNeverYieldProtocolErrors | src-tauri/src/error.rs:32-66 | Neither conversion ever yields InvalidHandle, CrcMismatch or PayloadTooLarge. |
| SerialErrors.PortIoAgreesWithIo | src-tauri/src/error.rs:49-57 | A port I/O error of any kind but PermissionDenied classifies as the same I/O error converted directly. |
| FrameCodec.CrcFromAppend | src-tauri/src/serial.rs:269-275 | The CRC fold over `a + b` continues the fold over `a` with `b`. |
| FrameCodec.CrcSnoc | src-tauri/src/serial.rs:269-275 | Appending a byte applies one table step `LUT[crc xor b]` to the CRC so far. |
| FrameCodec.ComputeCrc8 | src-tauri/src/serial.rs:269-275 | The loop that updates the register byte by byte computes the CRC fold. |
| FrameCodec.CrcVectors | src-tauri/src/serial.rs:281-299 | The CRC of each test vector: [] gives 0x00, [0x00] 0x00, [0x01] 0xD5, [0xFF] 0xF9, and [1,2,3] 0x3F. [1,2,3] and [3,2,1] differ. |
| FrameCodec.CrcSingleBytes | src-tauri/src/serial.rs:287-291 | The single-byte vectors 0x00, 0x01 and 0xFF. |
| FrameCodec.CrcOneTwoThree | src-tauri/src/serial.rs:294-299 | The CRC of [1,2,3] is 0x3F. |
| FrameCodec.CrcThreeTwoOne | src-tauri/src/serial.rs:294-299 | The CRC of [3,2,1] is 0x93, so the order of the bytes matters. |
| FrameCodec.Encode | src-tauri/src/serial.rs:205-212 | For a payload `p` of `n` bytes, the frame is the sync byte, then the length `n+1`, then `p`, then `crc8(p)`: `n+3` bytes in all. |
| FrameCodec.BuildFrame | src-tauri/src/serial.rs:199-213 | The frame is built exactly when the payload has at most 253 bytes, and otherwise the error is PayloadTooLarge. When built, it has the Encode layout. An empty payload is not rejected. |
| FrameCodec.BuildFrameBoundary | src-tauri/src/serial.rs:301-339 | 253 bytes give length byte 254. 254 bytes give PayloadTooLarge. The test frames [0x42] and [1,2,3] carry length bytes 2 and 4. |
| FrameCodec.ReadFrame | src-tauri/src/serial.rs:215-248 | Without fuel, the result is Timeout. Input that runs out is a timed-out read, so the only errors are Timeout and CrcMismatch. A decoded payload has 1 to 253 bytes. |
| FrameCodec.ReadFrameSound | src-tauri/src/serial.rs:215-248 | Every decoded payload sits in the input as a well-formed frame: sync byte, valid length, payload, matching CRC. |
| FrameCodec.ReadSkipsNoise | src-tauri/src/serial.rs:223-227 | Bytes other than the sync byte are discarded one resync iteration each. |
| FrameCodec.BadLengthResumes | src-tauri/src/serial.rs:229-234 | A length byte outside [2, 254] is consumed, and scanning resumes after it. |
| FrameCodec.FrameBodyDecides | src-tauri/src/serial.rs:236-246 | A bad CRC yields CrcMismatch at once, with no resync. Otherwise the first `len-1` bytes are returned. |
| FrameCodec.RoundTrip | src-tauri/src/serial.rs:199-248 | For a payload `p` of 1 to 253 bytes and sync-free noise `g`, `read_frame(g + build_frame(p) + rest)` returns `p`. |
| FrameCodec.NoSyncTimesOut | src-tauri/src/serial.rs:218-227 | Input with no sync byte ends in Timeout, whatever the fuel. |
| FrameCodec.MoreFuelSameAnswer | src-tauri/src/serial.rs:216-221 | Once a read reaches an answer other than Timeout, a later deadline gives the same answer. |
| PortRegistry.New | src-tauri/src/serial.rs:61-66 | The registry starts empty, unpoisoned, with next id 1. |
| PortRegistry.PoisonedRegistryLock | src-tauri/src/serial.rs:46-50 | A poisoned registry lock is reported as an IoError, never a protocol error, whose text ends with the name of the operation. |
| PortRegistry.Insert | src-tauri/src/serial.rs:68-76 | The counter is incremented even when the lock is poisoned. Otherwise the old counter value is returned as the id of a new healthy slot. No other key changes. |
| PortRegistry.Get | src-tauri/src/serial.rs:78-84 | A poisoned lock gives an error for context "get". Otherwise the result is the slot, or None. |
| PortRegistry.Remove | src-tauri/src/serial.rs:86-92 | Afterwards the id is absent, and the removed slot, if any, is returned. An unknown id changes nothing. No other key changes, and the counter is untouched. |
| PortRegistry.NextIdIsFresh | src-tauri/src/serial.rs:60-93 | Under the registry invariant, the next id is never already in use. |
| PortRegistry.RunIdsStrictlyIncrease | src-tauri/src/serial.rs:68-92 | Over any sequence of inserts and removes, returned ids strictly increase, and each lies between the starting and final counter. |
| PortRegistry.IdsAreNotReused | src-tauri/src/serial.rs:68-92 | An example run: three inserts, removing id 2, then a fourth insert return ids 1, 2, 3 and 4. A freed id is not handed out again. |
| DeviceSession.OpenDevice | src-tauri/src/serial.rs:136-152 | NoDevice is reported as PortNotFound(path) and PermissionDenied as PortBusy(path). Every other open error goes through the serialport conversion. A failed open leaves the registry alone. A successful open registers the port under the current counter. On a poisoned registry lock it still uses up that id and reports "insert". |
| DeviceSession.CloseDevice | src-tauri/src/serial.rs:155-158 | Close succeeds and the id is gone. An unknown id changes nothing. A poisoned registry lock reports "remove". No other handle changes. |
| DeviceSession.Decimal | src-tauri/src/serial.rs:52-58 | The handle id is written as a non-empty run of decimal digits with no leading zero. |
| DeviceSession.DecimalValue | src-tauri/src/serial.rs:52-58 | The digits of the handle id spell the id back. |
| DeviceSession.PoisonedDeviceLock | src-tauri/src/serial.rs:52-58 | A poisoned device lock is reported as an IoError, never a protocol error, whose text carries the digits of the evicted handle at a fixed place after the operation name. |
| DeviceSession.LockDevice | src-tauri/src/serial.rs:181-187 | An unknown id gives InvalidHandle. A poisoned device lock evicts that id and reports it. A healthy handle yields its port. |
| DeviceSession.FlushDevice | src-tauri/src/serial.rs:161-171 | Flush succeeds exactly on a healthy known handle whose clear does not fail. A failing clear on a healthy handle reports the serialport conversion of its error and changes nothing. An unknown id gives InvalidHandle. A poisoned registry lock gives the "get" poisoning error and changes nothing. A poisoned device lock evicts the handle and gives the device-lock error for "flush_device". The registry changes only by evicting this id. |
| DeviceSession.SendRequest | src-tauri/src/serial.rs:174-197 | An empty payload is rejected with InvalidConfig before the registry is consulted. An unknown id gives InvalidHandle. A poisoned registry lock gives the "get" poisoning error, changes nothing and writes nothing. A poisoned device lock evicts the handle, gives the device-lock error for "send_request" and writes nothing; it is the only eviction. On a healthy handle, a payload over 253 bytes gives PayloadTooLarge with nothing written. A write or flush fault gives its I/O conversion. Otherwise the result is exactly what read_frame makes of the incoming bytes, so a Timeout or CrcMismatch reaches the caller. Bytes written are the built frame. |
| DeviceSession.SendRoundTrip | src-tauri/src/serial.rs:174-248 | On a healthy handle whose device answers with a frame built for `reply`, after sync-free noise, send_request returns `reply`. |
| DeviceSession.SendKeepsHealthyHandles | src-tauri/src/serial.rs:161-197 | Send and flush never evict a handle whose device lock is healthy, whether or not the registry lock is poisoned. |
| DeviceSession.CommandsIsolateHandles | src-tauri/src/serial.rs:155-197 | Send, flush and close change no handle other than their own. |
| DeviceWire.DeviceCrcFromAppend | onboard/vscope.c:148-154 | The device CRC over `a + b` continues the CRC over `a` with `b`. |
| DeviceWire.ReadU16 | onboard/vscope.c:157-160 | The low byte of the result is the first byte, the high byte the second. |
| DeviceWire.ReadU32 | onboard/vscope.c:162-165 | Byte `k` of the result, counting from the least significant, is input byte `k`. |
| DeviceWire.ComputeDeviceCrc8 | onboard/vscope.c:148-154 | The loop of `vscope_crc8` computes the CRC fold. |
| DeviceWire.WriteU16 | onboard/vscope.c:157-178 | `vscope_write_u16` is read back by `vscope_read_u16`. |
| DeviceWire.WriteU32 | onboard/vscope.c:162-186 | `vscope_write_u32` is read back by `vscope_read_u32`. |
| DeviceWire.WordBytesRoundTrip | onboard/vscope.c:162-186 | Four bytes read as a word and written back are the same bytes. |
| DeviceWire.HalfWordBytesRoundTrip | onboard/vscope.c:157-178 | Two bytes read as a half-word and written back are the same bytes. |
| DeviceWire.Words | onboard/vscope.c:181-186 | A run of words is each word's four little-endian bytes in turn, and each word reads back at offset `4i`. |
| DeviceWire.StrnPrefix | onboard/vscope.c:196-202 | The copied part of a name is its longest NUL-free prefix of at most `n` bytes. When it stops short, it stops at a NUL. |
| DeviceWire.FixedName | onboard/vscope.c:196-202 | A fixed name has 16 bytes and always a final NUL. It is the name's prefix of up to 15 bytes, padded with zeros. A missing name gives all zeros. |
| DeviceWire.StrnPrefixOfTerminated | onboard/vscope.c:196-202 | A NUL-free string followed by a NUL copies back as itself. |
| DeviceWire.FixedNameIdempotent | onboard/vscope.c:196-202 | Fixing an already fixed name changes nothing. |
| DeviceWire.SendFrame | onboard/vscope.c:236-257 | A payload over 252 bytes sends nothing. Otherwise the frame is 4 bytes longer than the payload. |
| DeviceWire.SendFrameFields | onboard/vscope.c:242-256 | The frame is the sync byte, then length `n+2`, the type, the payload, and the CRC of type and payload. |
| DeviceWire.SendError | onboard/vscope.c:260-263 | An error goes out as a five-byte frame: sync, length 3, the ERROR type, the code, and the CRC of type and code. |
| DeviceWire.SendPayload | onboard/vscope.c:265-271 | A payload that fits goes out as a frame. Anything longer becomes an ERROR frame carrying BAD_LEN. The result is always 4 to 256 bytes. |
| DeviceRx.PowerOn | onboard/vscope.c:123-127 | The zero-initialised parser is idle and satisfies the parser invariant. |
| DeviceRx.Reset | onboard/vscope.c:229-233 | A reset parser is idle and keeps its timestamp. |
| DeviceRx.Dispatched | onboard/vscope.c:842-850 | A complete buffer yields a frame exactly when its last byte is the CRC of the rest. The frame's type followed by its payload is that rest. |
| DeviceRx.Step | onboard/vscope.c:822-857 | Each byte preserves the invariant, so the stored bytes never exceed 254. A frame comes out only on the last expected data byte. Any non-idle state carries the current timestamp. |
| DeviceRx.FeedBytes | onboard/vscope.c:819-858 | The invariant is kept, at most one frame is dispatched per byte, and a non-idle parser ends stamped with `now`. |
| DeviceRx.Elapsed | onboard/vscope.c:815 | `now - last` in unsigned 32-bit arithmetic, wrapping when the clock has wrapped. |
| DeviceRx.Feed | onboard/vscope.c:810-817 | An empty call changes nothing. Otherwise the invariant is kept. |
| DeviceRx.IdleWaitsForSync | onboard/vscope.c:823-828 | When idle, every byte but 0xC8 is ignored, and 0xC8 moves to LEN. |
| DeviceRx.LengthByte | onboard/vscope.c:829-838 | A length outside [2, 254] returns to idle. Otherwise the parser enters DATA with an empty buffer. |
| DeviceRx.LastDataByte | onboard/vscope.c:839-853 | The last data byte always returns to idle. A frame is dispatched exactly when the CRC matches. |
| DeviceRx.FeedBytesAppend | onboard/vscope.c:819-858 | Feeding `a + b` equals feeding `a`, then `b`. |
| DeviceRx.IdleSkipsNoise | onboard/vscope.c:823-828 | An idle parser fed sync-free bytes stays exactly as it was. |
| DeviceRx.DataAccumulates | onboard/vscope.c:839-842 | Data bytes short of the expected length are stored in order. |
| DeviceRx.DataCompletes | onboard/vscope.c:839-853 | Completing the expected length dispatches the frame if its CRC holds, and always returns to idle. |
| DeviceRx.ReceiveFrame | onboard/vscope.c:819-858 | An idle parser fed a sync byte, a valid length and that many bytes dispatches the frame if its CRC holds, and ends idle. |
| DeviceRx.StaleFrameDropped | onboard/vscope.c:815-817 | A partial frame older than the timeout is abandoned before the new bytes are parsed. |
| DeviceRx.FeedSplit | onboard/vscope.c:810-859 | Two calls at the same timestamp dispatch the same frames as one call with both halves. |
| Device.StateCode | onboard/vscope.c:361-365 | The wire code of a state is at most 3. |
| Device.RequestOfCode | onboard/vscope.c:367-381 | Decoding a request code 0..2 and re-encoding it gives the code back. |
| Device.ModeOfCode | onboard/vscope.c:664-684 | Decoding a trigger-mode code 0..3 and re-encoding it gives the code back. |
| Device.RegisterVar | onboard/vscope.c:784-795 | Registration does nothing exactly when registration is locked, the catalog is full, or the pointer is missing. Otherwise it appends the fixed name. |
| Device.RegisterRtBuffer | onboard/vscope.c:797-808 | Likewise for rt-buffer entries, appending both the name and the value. |
| Device.DefaultMap | onboard/vscope.c:895-905 | Channel `i` maps to variable `i` when that variable exists, else to 0. |
| Device.Init | onboard/vscope.c:861-912 | Init locks registration. It gives MISCONFIGURED when fewer variables than channels are registered, else HALTED. Timing, trigger and snapshot are set to their defaults, and the name is stored fixed. The sample rate is stored, the channel map is the default map, the write index and first element are 0, threshold and trigger channel are 0, and every buffer row is zero. |
| Device.RegistrationLockedAfterInit | onboard/vscope.c:784-808 | After init, registering a variable or an rt-buffer entry changes nothing. |
| Device.UpdateChannelMap | onboard/vscope.c:282-295 | All or nothing: the map is replaced exactly when every id is below the variable count, and otherwise the device is unchanged. |
| Device.UpdateChannelMapValid | onboard/vscope.c:282-295 | Updating the channel map preserves the device invariant. |
| Device.CurrentRow | onboard/vscope.c:914-923 | The saved row holds, per channel, the value of the mapped variable. |
| Device.SaveFrame | onboard/vscope.c:914-923 | The row lands at `index`, `index` advances modulo BUFFER_SIZE, and every other row and field is unchanged. |
| Device.Capture | onboard/vscope.c:212-226 | The snapshot records the divider, pre-trigger, channel map, trigger settings and rt values current at capture. On a valid device it has five map entries and at most RT_BUFFER_LEN rt values. |
| Device.Trigger | onboard/vscope.c:1008-1012 | Only the request changes, and only while RUNNING, when it becomes ACQUIRING. |
| Device.CheckTrigger | onboard/vscope.c:925-954 | The first check after a trigger change only clears the invalid flag. After that, a firing crossing triggers. |
| Device.Tick | onboard/vscope.c:966-1005 | One divided step keeps the invariant and the timing configuration. |
| Device.Acquire | onboard/vscope.c:956-1006 | Below the divider, a call only counts. At the divider the count resets to 0. The invariant, which includes `index < BUFFER_SIZE`, is preserved. |
| Device.AcquireTimes | onboard/vscope.c:956-1006 | Repeated calls keep the invariant and the catalog. |
| Device.AcquireCountsCalls | onboard/vscope.c:960-963 | Calls that stay below the divider only count, so work happens only on every divider-th call. |
| Device.MisconfiguredIsFinal | onboard/vscope.c:1003-1004 | MISCONFIGURED is never left, and only the divider counter and trigger flag change. |
| Device.LeavingHalted | onboard/vscope.c:969-975 | HALTED is left only for RUNNING on request RUNNING, and doing so clears `snapshot_valid`. At the divider, the index resets to 0. |
| Device.SnapshotOnlyAtCaptureEnd | onboard/vscope.c:976-1002 | `snapshot_valid` is set only when a capture ends in HALTED, recording `first_element = index`. |
| Device.AcquiringProgress | onboard/vscope.c:993-1002 | ACQUIRING saves a row and counts until `run_index == acq_time`. Then it halts with a valid snapshot and an untouched buffer. |
| Device.TriggerStartsCapture | onboard/vscope.c:976-992 | A requested capture records the snapshot metadata, enters ACQUIRING with `run_index = 1`, and saves the current row. |
| DeviceCommands.GetInfo | onboard/vscope.c:297-314 | The reply holds the protocol version, channel count, buffer size, ISR rate, variable and rt counts, RT_BUFFER_LEN and NAME_LEN at bytes 8 and 9, then the fixed device name. |
| DeviceCommands.TimingBytes | onboard/vscope.c:323-328 | The timing reply is the divider, then the pre-trigger, each as a little-endian word. |
| DeviceCommands.GetTiming | onboard/vscope.c:316-321 | GET_TIMING replies with the timing bytes and changes nothing. |
| DeviceCommands.SetTiming | onboard/vscope.c:330-353 | Length 8, else BAD_LEN. Then BAD_PARAM unless the divider is nonzero, the pre-trigger is at most BUFFER_SIZE and the state is HALTED. On success `acq_time = BUFFER_SIZE - pre_trig`, and the payload is echoed. |
| DeviceCommands.GetState | onboard/vscope.c:355-365 | GET_STATE replies with the state code. |
| DeviceCommands.SetState | onboard/vscope.c:367-381 | Length 1, else BAD_LEN. A value above 2 gives BAD_PARAM. Otherwise only the request is written, and the reply is the current state. |
| DeviceCommands.TriggerCommand | onboard/vscope.c:383-386 | TRIGGER runs `vscopeTrigger` and replies with an empty payload. |
| DeviceCommands.GetFrame | onboard/vscope.c:388-398 | The reply is one word per channel, each the channel's current value. |
| DeviceCommands.GetSnapshotHeader | onboard/vscope.c:400-428 | NOT_READY exactly without a snapshot. Otherwise the reply is the captured channel map, divider, pre-trigger, threshold, trigger channel, mode and rt values, at their offsets. |
| DeviceCommands.SampleAt | onboard/vscope.c:454-470 | Sample `i` occupies bytes `20i..20i+20`, as the five words of buffer row `(first_element + start + i) % BUFFER_SIZE`. |
| DeviceCommands.SampleWord | onboard/vscope.c:454-470 | Channel `ch` of sample `i` is the word at byte `20i + 4ch`, and it is channel `ch` of that buffer row. |
| DeviceCommands.GetSnapshotData | onboard/vscope.c:430-473 | NOT_READY without a snapshot, and BAD_LEN unless the length is 3. A count of 0, or a range past the buffer, gives BAD_PARAM. A count of 13 or more inside the buffer gives BAD_LEN. The reply succeeds exactly for `1 <= count <= 12` within the buffer, with the samples in capture order. |
| DeviceCommands.SnapshotDataLayout | onboard/vscope.c:444-470 | The reply holds at most 240 bytes. Word `ch` of sample `i` is channel `ch` of the circular buffer row `(first_element + start + i) % BUFFER_SIZE`. |
| DeviceCommands.Entry | onboard/vscope.c:508-513 | A list entry is 17 bytes, starting with its id. |
| DeviceCommands.Entries | onboard/vscope.c:502-513 | Entry `i` occupies bytes `17i..17i+17` of the list body. |
| DeviceCommands.ListReply | onboard/vscope.c:496-515 | A list reply holds the total, the first id and the count, then the entries, in `3 + 17*count <= 252` bytes. |
| DeviceCommands.ListCount | onboard/vscope.c:491-500 | The count is at most 14, stays within the list, and is at most the request unless the request is 0xFF. It is the request, the remainder of the list, or 14. |
| DeviceCommands.NameList | onboard/vscope.c:475-516 | More than 2 payload bytes give BAD_LEN. The reply is an error exactly when the start is past the end. Otherwise it is the list reply from `start` with the computed count. |
| DeviceCommands.ListEntries | onboard/vscope.c:502-513 | Entry `i` of a list reply sits at byte `3 + 17i`, and its id `start + i` is below the number of names. |
| DeviceCommands.GetVarList | onboard/vscope.c:475-516 | GET_VAR_LIST lists the registered variable names. |
| DeviceCommands.GetRtLabels | onboard/vscope.c:565-606 | GET_RT_LABELS lists the rt-buffer names by the same rules. |
| DeviceCommands.GetChannelMap | onboard/vscope.c:518-532 | GET_CHANNEL_MAP replies with the channel map. |
| DeviceCommands.SetChannelMap | onboard/vscope.c:534-546 | Length 5, else BAD_LEN. BAD_PARAM exactly when some id is not a registered variable, and then nothing changes. Otherwise the map is replaced and echoed. |
| DeviceCommands.ChannelLabel | onboard/vscope.c:548-563 | Each channel label is a 16-byte name. |
| DeviceCommands.GetChannelLabels | onboard/vscope.c:548-563 | Label `ch` occupies bytes `16ch..16ch+16` of the reply. |
| DeviceCommands.GetRtBuffer | onboard/vscope.c:608-629 | Length 1, else BAD_LEN. An index at or past the rt count gives RANGE. Otherwise the reply is the entry's value. |
| DeviceCommands.SetRtBuffer | onboard/vscope.c:631-646 | Length 5, else BAD_LEN, then RANGE for an unknown index. Otherwise exactly that entry is written, and the value is echoed. |
| DeviceCommands.TriggerBytes | onboard/vscope.c:656-662 | The trigger reply is the threshold word, the channel and the mode code. |
| DeviceCommands.GetTrigger | onboard/vscope.c:648-662 | GET_TRIGGER replies with the trigger bytes. |
| DeviceCommands.SetTrigger | onboard/vscope.c:664-684 | Length 6, else BAD_LEN. Success exactly when the channel is below 5 and the mode is at most 3, else BAD_PARAM. It stores the threshold, channel and mode, marks the trigger invalid, and echoes the payload. |
| DeviceCommands.HandleFrame | onboard/vscope.c:686-782 | Every command keeps the device invariant and leaves the acquisition engine and capture untouched. It replies with its own type or an error, in at most 252 bytes. An error changes nothing. |
| DeviceCommands.DispatchRejects | onboard/vscope.c:686-782 | A zero-argument command with a payload gives BAD_LEN, and an unknown type gives BAD_PARAM, with no change. |
| DeviceCommands.CommandsKeepState | onboard/vscope.c:686-782 | No command changes the acquisition state. In particular MISCONFIGURED stays. |
| DeviceCommands.RepliesFit | onboard/vscope.c:265-271 | Every reply fits one frame, so `vscope_send_payload` never substitutes BAD_LEN. |
| DeviceCommands.SetThenGetTiming | onboard/vscope.c:330-353 | After an accepted SET_TIMING, GET_TIMING returns the same 8 bytes. |
| DeviceCommands.SetThenGetTrigger | onboard/vscope.c:648-684 | After an accepted SET_TRIGGER, GET_TRIGGER returns the same 6 bytes. |
| DeviceCommands.SetThenGetChannelMap | onboard/vscope.c:518-546 | GET_CHANNEL_MAP returns the map SET_CHANNEL_MAP accepted. A rejected map leaves the old one. |
| DeviceCommands.SetThenGetRtBuffer | onboard/vscope.c:608-646 | After an accepted SET_RT_BUFFER, GET_RT_BUFFER at that index returns the value written. |
| DeviceCommands.InfoReportsStoredName | onboard/vscope.c:297-314 | GET_INFO after init reports the fixed form of the name given to init. |
| DeviceCommands.HandleAll | onboard/vscope.c:849 | Handling a run of frames keeps the invariant, the state and the variable count. |
| DeviceCommands.FeedScope | onboard/vscope.c:810-859 | Parser and handlers together keep both invariants and the acquisition state. An empty call does nothing. |
| WireCompat.TablesAgree | onboard/vscope.c:132-145 | The device's CRC table equals the host's (serial.rs:250-267) entry for entry. |
| WireCompat.CrcFoldsAgree | onboard/vscope.c:148-154 | The two CRC folds agree from every starting register. |
| WireCompat.CrcAgree | onboard/vscope.c:148-154 | `vscope_crc8` and the host's `crc8` agree on every input. |
| WireCompat.DeviceFrameIsHostFrame | onboard/vscope.c:236-257 | The device's frame for type `t` and payload `q` is the host's `build_frame([t] + q)`. |
| WireCompat.HostReadsDeviceFrame | src-tauri/src/serial.rs:215-248 | The host decodes any device frame, after sync-free noise, into `[t] + q`. |
| WireCompat.DeviceReadsHostFrame | onboard/vscope.c:819-858 | An idle device parser fed `build_frame(p)` dispatches exactly `(p[0], p[1..])` and ends idle. |
| WireCompat.DeviceFeedReadsHostFrame | onboard/vscope.c:810-859 | The same holds through `vscopeFeed`, after sync-free noise. |
| WireCompat.ExchangeDeliversReply | onboard/vscope.c:810-859 | Across a whole exchange, the device state after the request is the handler's result. The bytes sent back are the handler's reply frame, which the host decodes to that reply. |
| WireCompat.AnswerIsHostFrame | onboard/vscope.c:265-271 | The device's answer to a host-built request is the frame the host would build for the reply. |
| WireCompat.SendGetsAnswer | src-tauri/src/serial.rs:174-197 | `send_request` returns the reply framed by the incoming bytes. |
| WireCompat.SendRequestToDevice | src-tauri/src/serial.rs:174-197 | `send_request` on a healthy handle, against the device, returns exactly the reply the device's handler computed. |
| LegacyLogger.Strncpy | onboard/logger.c:19-20 | The copied name is the NUL-free prefix of at most `n` bytes, followed by zeros up to `n`. |
| LegacyLogger.DefaultName | onboard/logger.c:41 | The default name "Device 1" is cut to fit and always NUL-terminated. |
| LegacyLogger.Init | onboard/logger.c:23-58 | MISCONFIGURED exactly when `buffer_size * channels > VSCOPE_MEMORY`, else HALTED. Request HALTED, divider 1, pre-trigger 0, and `acq_time = buffer_size`. Channel names are copied with strncpy. |
| LegacyLogger.SaveFrame | onboard/logger.c:60-71 | The frame lands at `index`, and `index` advances modulo `buffer_size`, so it stays below `buffer_size`. Every other row is unchanged. |
| LegacyLogger.Trigger | onboard/logger.c:160-164 | The request becomes ACQUIRING while RUNNING. Otherwise nothing changes. |
| LegacyLogger.Advance | onboard/logger.c:113-157 | The state machine keeps the invariant, the request and the configuration. |
| LegacyLogger.Acquire | onboard/logger.c:97-158 | A call keeps the invariant and the timing configuration. |
| LegacyLogger.AcquireCounts | onboard/logger.c:105-109 | Below the divider, a call only counts in the 16-bit counter. At the divider the counter resets. |
| LegacyLogger.AcquireTimes | onboard/logger.c:97-158 | Repeated calls keep the invariant. |
| LegacyLogger.DividerGates | onboard/logger.c:105-109 | Calls that stay below the divider only count: work happens every divider-th call. |
| LegacyLogger.WideDividerFreezes | onboard/logger.c:98-108 | A divider of 2^16 or more is never reached by the 16-bit counter, so the state machine never runs. |
| LegacyLogger.AdvanceTransitions | onboard/logger.c:113-151 | HALTED resets the index and moves to RUNNING only on request RUNNING. RUNNING halts on request HALTED and starts a capture on ACQUIRING: `run_index = 1`, or straight to HALTED with `first_element = index` when `acq_time = 0`. It always saves a frame. ACQUIRING saves until `run_index == acq_time`, then halts recording `first_element`. |
| LegacyLogger.MisconfiguredIsFinal | onboard/logger.c:153-156 | MISCONFIGURED is never left, and the buffer is untouched. |
| LegacyLogger.CaptureStep | onboard/logger.c:142-149 | With divider 1, one capture step counts `run_index` up and advances the index. |
| LegacyLogger.CaptureRuns | onboard/logger.c:142-151 | `k` capture steps advance `run_index` by `k` and the index by `k` modulo `buffer_size`. |
| LegacyLogger.CaptureEnds | onboard/logger.c:142-146 | When `run_index == acq_time` at the divider, the capture halts with `first_element = index`. |
| LegacyLogger.CaptureNeverEnds | onboard/logger.c:142-149 | A capture whose length is 2^16 or more stays ACQUIRING for every number of calls. |
| LegacyInterface.Chars | onboard/interface.c:37-39 | One emitted character per byte, in order. |
| LegacyInterface.WordsOut | onboard/interface.c:96-98 | One emitted word per value, in order. |
| LegacyInterface.CharValue | onboard/interface.c:7-10 | A `char` is its byte where `char` is unsigned, and may be negative otherwise. |
| LegacyInterface.U32FromMsg | onboard/interface.c:7-10 | The word read at `i` is the little-endian word whose bytes are `msg[i..i+4]`. |
| LegacyInterface.U32FromMsgUnsignedChars | onboard/interface.c:7-10 | Where `char` is unsigned, the macro as written reads exactly that word. |
| LegacyInterface.U32FromMsgAsWritten | onboard/interface.c:7-10 | A lone low byte below 0x80, or any lone low byte where `char` is unsigned, reads as itself. Where `char` is signed, a lone byte `b >= 0x80` reads as `0xFFFFFF00 + b`. |
| LegacyInterface.U32FromMsgSignExtends | onboard/interface.c:7-10 | Where `char` is signed, the macro as written reads 0xFF,0,0,0 as 0xFFFFFFFF, not 0xFF. |
| LegacyInterface.U32FromMsgReadsWritten | onboard/interface.c:7-10 | A word written little-endian into a message reads back. |
| LegacyInterface.SetStateAccepts | onboard/interface.c:63-65 | A request byte is accepted exactly when it is 0, 1 or 2, the codes of HALTED, RUNNING and ACQUIRING, and never MISCONFIGURED. |
| LegacyInterface.SetStateCheckSignedness | onboard/interface.c:64 | With unsigned chars, the check as written is `msg[8] < 3`. With signed chars it also accepts 0xFF. |
| LegacyInterface.SetStateAcceptsAsWritten | onboard/interface.c:64 | The check as written accepts 0, 1 and 2, and also every byte from 0x80 up where `char` is signed. |
| LegacyInterface.Handshake | onboard/interface.c:30-41 | The channel count and buffer size go out as low and high bytes, then exactly the device-name bytes. Nothing changes. |
| LegacyInterface.GetTiming | onboard/interface.c:43-47 | GET_TIMING emits the divider, then the pre-trigger. |
| LegacyInterface.SetTiming | onboard/interface.c:49-56 | The divider comes from bytes 1-4 and the pre-trigger from bytes 5-8. `acq_time = buffer_size - pre_trig` with no range check, wrapping modulo 2^32 for a larger pre-trigger. The reply is 0. |
| LegacyInterface.GetState | onboard/interface.c:58-61 | GET_STATE emits the state code. |
| LegacyInterface.SetState | onboard/interface.c:63-71 | A value below 3 becomes the request and the reply is 0. Otherwise the reply is 1 and nothing changes. This is the check where `char` is unsigned. |
| LegacyInterface.GetBuff | onboard/interface.c:73-80 | The rt entry at the address from bytes 5-8, or 0 past the end. Nothing changes. |
| LegacyInterface.SetBuff | onboard/interface.c:82-93 | Writes the value from bytes 5-8 at the address from bytes 1-4 and replies 0 when in range. Otherwise it replies 1 and writes nothing. |
| LegacyInterface.GetFrame | onboard/interface.c:95-100 | GET_FRAME emits one word per channel. |
| LegacyInterface.LabelChars | onboard/interface.c:105-114 | The name up to its first NUL or `n` characters, with a NUL appended only when shorter than `n`. |
| LegacyInterface.GetLabel | onboard/interface.c:102-118 | The label of the channel from bytes 5-8. Nothing for a channel of 10 or more. |
| LegacyInterface.LabelOfConfiguredChannel | onboard/interface.c:102-118 | After init, GET_LABEL emits the channel's configured name, cut at the name length, NUL-terminated when shorter. |
| LegacyInterface.StrncpyPrefix | onboard/logger.c:19-20 | Reading back a strncpy'd name up to its NUL gives the source's prefix. |
| LegacyInterface.PrefixThenNul | onboard/interface.c:105-107 | A NUL-free prefix padded with NULs reads back as that prefix. |
| LegacyInterface.DumpLayout | onboard/interface.c:120-132 | Word `i` of row `k` of a download is channel `i` of buffer row `(first_element + k) % buffer_size`. |
| LegacyInterface.SendRow | onboard/interface.c:122-124 | The inner loop emits the row's channels in order. |
| LegacyInterface.Download | onboard/interface.c:120-132 | The loop emits `buffer_size * n_ch` words in circular order from `first_element`, and leaves `first_element` where it started. |
| LegacyInterface.DownloadAll | onboard/interface.c:120-132 | DOWNLOAD emits `buffer_size * n_ch` words and leaves the scope unchanged. |
| LegacyInterface.ProcessMessage | onboard/interface.c:25-134 | No message changes the state, the buffer, the index or `first_element`. The invariant is kept, with words and the SET_STATE check read as for unsigned `char`. |
| LegacyInterface.UnknownKeyIgnored | onboard/interface.c:29-133 | A key outside the ten commands emits nothing and changes nothing. |
| LegacyInterface.SetThenGetTiming | onboard/interface.c:43-56 | GET_TIMING after SET_TIMING emits the two words the message carried. |
| LegacyInterface.SetThenGetBuff | onboard/interface.c:73-93 | GET_BUFF at the address SET_BUFF wrote returns the value written. |
| LegacyInterface.OversizedPreTriggerNeverEnds | onboard/interface.c:49-53 | A pre-trigger beyond the buffer, up to 2^32 - 2^16, gives `acq_time >= 2^16`. Any capture running with that length stays ACQUIRING for every number of calls, because the 16-bit `run_index` of logger.c:143-147 never reaches it. |

## Left out

- I/O: the `serialport` builder, `list_ports`, `write_all`/`flush`/`clear` and `read_exact`. The port is an `Exchange`: an optional write fault plus the bytes the device answers. The clear in `flush_device` is an optional fault. The ignored input clear of `send_request` has no effect in the model.
- `vscopeTxBytes`, `serialSendChar` and `serialSend32Bit`: device output is the sequence of frames or emitted items. `serialSend32Bit`'s byte order is hidden inside `Word`.
- Concurrency: `RwLock`, `Mutex`, `Arc` and `OnceLock`. The registry is run sequentially, and lock poisoning is a flag, on the registry and per handle.
- PortRegistry.Insert: ids are unbounded, so the wrap-around of the `AtomicU64` counter after 2^64 inserts is not modelled.
- Wall-clock time: the deadline of `read_frame` is fuel, one unit per resync iteration, checked where the source checks it.
- `VSCOPE_PROTOCOL_VERSION` is a parameter of GET_INFO; its value is not part of this model.
- Floating point: the threshold-crossing detection of `vscope_check_trigger` (vscope.c:925-954) and `vscopeCheckTrigger` (logger.c:73-95) is reduced to its outcome (`Crossing`, `fired`). Floats travel as opaque 32-bit words.
- The float casts that reload the legacy trigger settings from the rt buffer (logger.c:101-103) are left out.
- Pointers: variable, channel and rt values are read through pointers in the source. In the model they are parameters (`live`, `frame`) or state (`rtValues`, `rtBuffer`).
- `vscopeGetRtBuffer` (vscope.c:1014-1019) is the application's accessor. The same lookup is modelled inside GET_RT_BUFFER.
- LegacyLogger.Scope: the widths of the legacy `VscopeStruct` fields are declared in the old `vscope.h`, which is not part of this model. The model takes `buffer_size` and `n_ch` as 16-bit and `pre_trig`, `divider` and `acq_time` as 32-bit. The two-byte sends of `n_ch` and `buffer_size` at interface.c:31-34 and the 32-bit sends of `divider` and `pre_trig` at interface.c:44-45 support this; the width of `acq_time` is assumed. LegacyLogger.WideDividerFreezes, LegacyLogger.CaptureNeverEnds and LegacyInterface.OversizedPreTriggerNeverEnds depend on these widths: with a 16-bit `divider` or `acq_time` their premises could not arise.
- Legacy header: the old `vscope.h` that logger.c and interface.c were written against is not part of this model. Its buffer size, memory size, rt-buffer length, name lengths and default name become `LegacyConfig`.
- The legacy rt buffer is taken to start at zero, since only three entries are initialised in logger.c:44-46.
- LegacyInterface.ProcessMessage requires a message of at least 9 bytes, the fixed message length the host sends. A shorter buffer would be read past its end.
- FrameCodec.ReadFrame: only a timed-out read is modelled. Any other `io::Error` from the reads at serial.rs:224, 230 and 237, such as an adapter unplugged mid-frame, becomes IoError through error.rs:36-38. The model has no such read fault, so its errors are only Timeout and CrcMismatch.
- LegacyInterface.SetTiming: reads both words as for unsigned `char`. Where `char` is signed, interface.c:50-51 sign-extend bytes of 0x80 and above: bytes `80 00 00 00` store 0xFFFFFF80, not 0x80. LegacyInterface.U32FromMsgUnsignedChars shows the two agree for unsigned `char`.
- LegacyInterface.SetState: accepts only 0, 1 and 2, the check for unsigned `char`. Where `char` is signed, interface.c:64-65 also accept and store 0x80..0xFF. LegacyInterface.SetStateCheckSignedness shows the two agree for unsigned `char`.
- LegacyInterface.SetBuff: reads the value word as for unsigned `char`. Where `char` is signed, interface.c:84 alters a value with a byte of 0x80 or above, for example 1.0f (`00 00 80 3F`).
- LegacyInterface.SetThenGetTiming: the words read back are the unsigned-`char` reading of the message, which is what interface.c stores only where `char` is unsigned.
- LegacyInterface.SetThenGetBuff: the same unsigned-`char` reading of the value word.
- LegacyInterface.ProcessMessage: dispatches to the unsigned-`char` readings above. Where `char` is signed, SET_STATE can store a request that names no state, so the invariant would not hold.
- LegacyInterface.DownloadAll states the output's length and the unchanged scope. The row-by-row content, and `first_element` coming back to its start, are stated by LegacyInterface.Download and LegacyInterface.DumpLayout.
- Static counters (`divider_ticks`, `run_index`, and the legacy `divider`) live in the device state. Re-running init does not reset them in the source; the model does not cover a second init.
- `db.rs` and `lib.rs`: storage and application wiring, no protocol logic.

## Findings

| source | as written | input that shows it | evidently intended | confidence | as-written member | corrected member |
|---|---|---|---|---|---|---|
| onboard/interface.c:7-10 | `U32_FROM_MSG` converts each `char` straight to `uint32_t`. Where `char` is signed, bytes of 0x80 and above are sign-extended before the shift and add. | A SET_TIMING message with bytes 1-4 = `FF 00 00 00` reads divider 0xFFFFFFFF instead of 0xFF. | The little-endian word of the four bytes, converting each through `uint8_t` first. | not executed; only where plain `char` is signed | LegacyInterface.U32FromMsgSignExtends | LegacyInterface.U32FromMsg |
| onboard/interface.c:64 | `msg[8] < (char)VSCOPE_MISCONFIGURED` compares a plain `char`. Where `char` is signed, 0x80..0xFF are negative and pass. | SET_STATE with byte 8 = 0xFF is accepted and stores the request `(VscopeState)(char)0xFF`, a negative value that names no state. | Accept only the request codes 0, 1 and 2. | not executed; only where plain `char` is signed | LegacyInterface.SetStateCheckSignedness | LegacyInterface.SetStateAccepts |
