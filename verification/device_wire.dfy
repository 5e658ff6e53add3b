/** The device's wire vocabulary (onboard/vscope.h, and the helpers at the
    top of onboard/vscope.c): configuration constants, message types and
    error codes, the CRC, little-endian words, fixed-length names, and the
    transmit path. */
module DeviceWire {
  import opened Bytes

  // ---------------------------------------------------------------- constants

  const MAX_VARIABLES: nat := 32
  const NUM_CHANNELS: nat := 5
  const NAME_LEN: nat := 16
  const BUFFER_SIZE: nat := 1000
  const FRAME_TIMEOUT_US: nat := 10000
  const RT_BUFFER_LEN: nat := 16

  /** The largest payload a frame carries after its type byte. */
  const MAX_PAYLOAD: nat := 252
  const SYNC_BYTE: byte := 0xC8

  const MSG_GET_INFO: byte := 0x01
  const MSG_GET_TIMING: byte := 0x02
  const MSG_SET_TIMING: byte := 0x03
  const MSG_GET_STATE: byte := 0x04
  const MSG_SET_STATE: byte := 0x05
  const MSG_TRIGGER: byte := 0x06
  const MSG_GET_FRAME: byte := 0x07
  const MSG_GET_SNAPSHOT_HEADER: byte := 0x08
  const MSG_GET_SNAPSHOT_DATA: byte := 0x09
  const MSG_GET_VAR_LIST: byte := 0x0A
  const MSG_GET_CHANNEL_MAP: byte := 0x0B
  const MSG_SET_CHANNEL_MAP: byte := 0x0C
  const MSG_GET_CHANNEL_LABELS: byte := 0x0D
  const MSG_GET_RT_LABELS: byte := 0x0E
  const MSG_GET_RT_BUFFER: byte := 0x0F
  const MSG_SET_RT_BUFFER: byte := 0x10
  const MSG_GET_TRIGGER: byte := 0x11
  const MSG_SET_TRIGGER: byte := 0x12
  const MSG_ERROR: byte := 0xFF

  const ERR_BAD_LEN: byte := 1
  const ERR_BAD_PARAM: byte := 2
  const ERR_RANGE: byte := 4
  const ERR_NOT_READY: byte := 5

  // ---------------------------------------------------------------- CRC-8

  /** `crc8_lut`, regrouped sixteen entries to a row. */
  const DEVICE_CRC8_LUT: seq<byte> :=
    [0x00, 0xD5, 0x7F, 0xAA, 0xFE, 0x2B, 0x81, 0x54, 0x29, 0xFC, 0x56, 0x83, 0xD7, 0x02, 0xA8, 0x7D]
    + [0x52, 0x87, 0x2D, 0xF8, 0xAC, 0x79, 0xD3, 0x06, 0x7B, 0xAE, 0x04, 0xD1, 0x85, 0x50, 0xFA, 0x2F]
    + [0xA4, 0x71, 0xDB, 0x0E, 0x5A, 0x8F, 0x25, 0xF0, 0x8D, 0x58, 0xF2, 0x27, 0x73, 0xA6, 0x0C, 0xD9]
    + [0xF6, 0x23, 0x89, 0x5C, 0x08, 0xDD, 0x77, 0xA2, 0xDF, 0x0A, 0xA0, 0x75, 0x21, 0xF4, 0x5E, 0x8B]
    + [0x9D, 0x48, 0xE2, 0x37, 0x63, 0xB6, 0x1C, 0xC9, 0xB4, 0x61, 0xCB, 0x1E, 0x4A, 0x9F, 0x35, 0xE0]
    + [0xCF, 0x1A, 0xB0, 0x65, 0x31, 0xE4, 0x4E, 0x9B, 0xE6, 0x33, 0x99, 0x4C, 0x18, 0xCD, 0x67, 0xB2]
    + [0x39, 0xEC, 0x46, 0x93, 0xC7, 0x12, 0xB8, 0x6D, 0x10, 0xC5, 0x6F, 0xBA, 0xEE, 0x3B, 0x91, 0x44]
    + [0x6B, 0xBE, 0x14, 0xC1, 0x95, 0x40, 0xEA, 0x3F, 0x42, 0x97, 0x3D, 0xE8, 0xBC, 0x69, 0xC3, 0x16]
    + [0xEF, 0x3A, 0x90, 0x45, 0x11, 0xC4, 0x6E, 0xBB, 0xC6, 0x13, 0xB9, 0x6C, 0x38, 0xED, 0x47, 0x92]
    + [0xBD, 0x68, 0xC2, 0x17, 0x43, 0x96, 0x3C, 0xE9, 0x94, 0x41, 0xEB, 0x3E, 0x6A, 0xBF, 0x15, 0xC0]
    + [0x4B, 0x9E, 0x34, 0xE1, 0xB5, 0x60, 0xCA, 0x1F, 0x62, 0xB7, 0x1D, 0xC8, 0x9C, 0x49, 0xE3, 0x36]
    + [0x19, 0xCC, 0x66, 0xB3, 0xE7, 0x32, 0x98, 0x4D, 0x30, 0xE5, 0x4F, 0x9A, 0xCE, 0x1B, 0xB1, 0x64]
    + [0x72, 0xA7, 0x0D, 0xD8, 0x8C, 0x59, 0xF3, 0x26, 0x5B, 0x8E, 0x24, 0xF1, 0xA5, 0x70, 0xDA, 0x0F]
    + [0x20, 0xF5, 0x5F, 0x8A, 0xDE, 0x0B, 0xA1, 0x74, 0x09, 0xDC, 0x76, 0xA3, 0xF7, 0x22, 0x88, 0x5D]
    + [0xD6, 0x03, 0xA9, 0x7C, 0x28, 0xFD, 0x57, 0x82, 0xFF, 0x2A, 0x80, 0x55, 0x01, 0xD4, 0x7E, 0xAB]
    + [0x84, 0x51, 0xFB, 0x2E, 0x7A, 0xAF, 0x05, 0xD0, 0xAD, 0x78, 0xD2, 0x07, 0x53, 0x86, 0x2C, 0xF9]

  /** The register after folding `data` into it with the device's table. */
  function DeviceCrcFrom(acc: byte, data: seq<byte>): byte
    decreases |data|
  {
    if |data| == 0 then acc else DeviceCrcFrom(DEVICE_CRC8_LUT[Xor(acc, data[0])], data[1..])
  }

  /** `vscope_crc8`. */
  function DeviceCrc8(data: seq<byte>): byte
  {
    DeviceCrcFrom(0, data)
  }

  /** Folding a concatenation folds its parts in turn. */
  lemma {:induction false} DeviceCrcFromAppend(acc: byte, a: seq<byte>, b: seq<byte>)
    ensures DeviceCrcFrom(acc, a + b) == DeviceCrcFrom(DeviceCrcFrom(acc, a), b)
    decreases |a|
  {
    if |a| > 0 {
      assert (a + b)[1..] == a[1..] + b;
      DeviceCrcFromAppend(DEVICE_CRC8_LUT[Xor(acc, a[0])], a[1..], b);
    } else {
      assert a + b == b;
    }
  }

  /** The loop of `vscope_crc8`, computing the fold. */
  method ComputeDeviceCrc8(data: seq<byte>) returns (crc: byte)
    ensures crc == DeviceCrc8(data)
  {
    crc := 0;
    var i := 0;
    while i < |data|
      invariant 0 <= i <= |data|
      invariant DeviceCrcFrom(0, data[..i]) == crc
    {
      DeviceCrcFromAppend(0, data[..i], [data[i]]);
      assert data[..i + 1] == data[..i] + [data[i]];
      assert [data[i]][1..] == [];
      crc := DEVICE_CRC8_LUT[Xor(crc, data[i])];
      i := i + 1;
    }
    assert data[..i] == data;
  }

  // ---------------------------------------------------------------- words

  /** `vscope_read_u16`: two bytes, least significant first. */
  function ReadU16(d: seq<byte>): (r: u16)
    requires |d| >= 2
    ensures r % 256 == d[0] as int && r / 256 == d[1] as int
  {
    ModUnique(d[0] as int + 256 * d[1] as int, d[1] as int, d[0] as int, 256);
    d[0] as int + 256 * d[1] as int
  }

  /** `vscope_read_u32` (and `vscope_read_f32`, whose result is the same four
      bytes reinterpreted): four bytes, least significant first. */
  function ReadU32(d: seq<byte>): (r: u32)
    requires |d| >= 4
    ensures r % 256 == d[0] as int && r / 256 % 256 == d[1] as int
    ensures r / 0x1_0000 % 256 == d[2] as int && r / 0x100_0000 == d[3] as int
  {
    var b0, b1, b2, b3 := d[0] as int, d[1] as int, d[2] as int, d[3] as int;
    var r2 := b2 + 256 * b3;
    var r1 := b1 + 256 * r2;
    var v := b0 + 256 * r1;
    ModUnique(v, r1, b0, 256);
    ModUnique(r1, r2, b1, 256);
    ModUnique(r2, b3, b2, 256);
    ModUnique(v, r2, b0 + 256 * b1, 0x1_0000);
    ModUnique(v, b3, b0 + 256 * b1 + 0x1_0000 * b2, 0x100_0000);
    v
  }

  /** `vscope_write_u16`: the inverse of ReadU16. */
  function WriteU16(v: u16): (r: seq<byte>)
    ensures |r| == 2 && ReadU16(r) == v
  {
    [(v % 256) as byte, (v / 256) as byte]
  }

  /** `vscope_write_u32` (and `vscope_write_f32`): the inverse of ReadU32. */
  function WriteU32(v: u32): (r: seq<byte>)
    ensures |r| == 4 && ReadU32(r) == v
  {
    var r1 := v / 256;
    var r2 := r1 / 256;
    [(v % 256) as byte, (r1 % 256) as byte, (r2 % 256) as byte, (r2 / 256) as byte]
  }

  /** Reading then writing back reproduces the bytes: the two encodings are
      mutually inverse. */
  lemma WordBytesRoundTrip(d: seq<byte>)
    requires |d| == 4
    ensures WriteU32(ReadU32(d)) == d
  {
    var v := ReadU32(d);
    var r2 := d[2] as int + 256 * d[3] as int;
    var r1 := d[1] as int + 256 * r2;
    ModUnique(v, r1, d[0] as int, 256);
    ModUnique(r1, r2, d[1] as int, 256);
    ModUnique(r2, d[3] as int, d[2] as int, 256);
    assert WriteU32(v) == [d[0], d[1], d[2], d[3]];
  }

  lemma HalfWordBytesRoundTrip(d: seq<byte>)
    requires |d| == 2
    ensures WriteU16(ReadU16(d)) == d
  {
  }

  /** Consecutive words, as the handlers write them at a growing offset;
      word `i` reads back from bytes `4 * i` to `4 * i + 4`. */
  function Words(ws: seq<u32>): (r: seq<byte>)
    ensures |r| == 4 * |ws|
    ensures forall i :: 0 <= i < |ws| ==> 4 * i + 4 <= |r| && r[4 * i..4 * i + 4] == WriteU32(ws[i])
    ensures forall i :: 0 <= i < |ws| ==> 4 * i + 4 <= |r| && ReadU32(r[4 * i..4 * i + 4]) == ws[i]
  {
    var bs := WordBlocks(ws);
    ConcatUniform(bs, 4);
    Concat(bs)
  }

  /** The words of a reply, four bytes each. */
  function WordBlocks(ws: seq<u32>): (bs: seq<seq<byte>>)
    ensures |bs| == |ws|
    ensures forall i :: 0 <= i < |ws| ==> bs[i] == WriteU32(ws[i]) && |bs[i]| == 4
  {
    seq(|ws|, i requires 0 <= i < |ws| => WriteU32(ws[i]))
  }

  // ---------------------------------------------------------------- names

  /** What `strncpy(dest, src, n)` copies out of `src`: its bytes up to the
      first NUL, at most `n` of them. */
  function StrnPrefix(src: seq<byte>, n: nat): (r: seq<byte>)
    ensures |r| <= n && |r| <= |src| && r == src[..|r|]
    ensures forall i :: 0 <= i < |r| ==> r[i] != 0
    ensures |r| < n && |r| < |src| ==> src[|r|] == 0
    decreases n
  {
    if n == 0 || |src| == 0 || src[0] == 0 then [] else [src[0]] + StrnPrefix(src[1..], n - 1)
  }

  /** `vscope_write_str_fixed(dest, src, NAME_LEN)`: the string's first
      `NAME_LEN - 1` bytes (stopping at a NUL) followed by zeros; a NULL
      string (`None`) leaves all zeros. */
  function FixedName(src: Option<seq<byte>>): (r: seq<byte>)
    ensures |r| == NAME_LEN && r[NAME_LEN - 1] == 0
    ensures src.None? ==> r == Zeros(NAME_LEN)
    ensures src.Some? ==> var c := StrnPrefix(src.value, NAME_LEN - 1);
              r[..|c|] == c && forall i :: |c| <= i < NAME_LEN ==> r[i] == 0
  {
    match src
    case None => Zeros(NAME_LEN)
    case Some(s) =>
      var c := StrnPrefix(s, NAME_LEN - 1);
      c + Zeros(NAME_LEN - |c|)
  }

  /** A NUL-free string followed by a NUL (or by nothing) is copied whole. */
  lemma {:induction false} StrnPrefixOfTerminated(c: seq<byte>, z: seq<byte>, n: nat)
    requires |c| <= n
    requires forall i :: 0 <= i < |c| ==> c[i] != 0
    requires |c| < n && |z| > 0 ==> z[0] == 0
    ensures StrnPrefix(c + z, n) == c
    decreases n
  {
    if |c| > 0 {
      assert (c + z)[1..] == c[1..] + z;
      StrnPrefixOfTerminated(c[1..], z, n - 1);
    } else if n > 0 && |z| > 0 {
      assert (c + z)[0] == z[0];
    }
  }

  /** Writing an already fixed name again changes nothing. */
  lemma FixedNameIdempotent(src: Option<seq<byte>>)
    ensures FixedName(Some(FixedName(src))) == FixedName(src)
  {
    var r := FixedName(src);
    match src
    case None =>
      StrnPrefixOfTerminated([], r, NAME_LEN - 1);
    case Some(s) =>
      var c := StrnPrefix(s, NAME_LEN - 1);
      assert r == c + Zeros(NAME_LEN - |c|);
      StrnPrefixOfTerminated(c, Zeros(NAME_LEN - |c|), NAME_LEN - 1);
  }

  // ---------------------------------------------------------------- transmit

  /** The bytes `vscope_send_frame(type, payload, n)` hands to the transmit
      hook: the length byte counts the type, the payload and the CRC, which
      covers the type and the payload. An over-long payload sends nothing. */
  function SendFrame(msgType: byte, payload: seq<byte>): (frame: seq<byte>)
    ensures |payload| > MAX_PAYLOAD ==> frame == []
    ensures |payload| <= MAX_PAYLOAD ==> |frame| == |payload| + 4
  {
    if |payload| > MAX_PAYLOAD then []
    else [SYNC_BYTE, (|payload| + 2) as byte, msgType] + payload + [DeviceCrc8([msgType] + payload)]
  }

  /** `vscope_send_error`. */
  function SendError(code: byte): (frame: seq<byte>)
    ensures |frame| == 5 && frame[..3] == [SYNC_BYTE, 3, MSG_ERROR] && frame[3] == code
    ensures frame[4] == DeviceCrc8([MSG_ERROR, code])
  {
    SendFrame(MSG_ERROR, [code])
  }

  /** `vscope_send_payload`: an over-long reply becomes a BAD_LEN error frame,
      so something is always sent. */
  function SendPayload(msgType: byte, data: seq<byte>): (frame: seq<byte>)
    ensures |data| <= MAX_PAYLOAD ==> frame == SendFrame(msgType, data)
    ensures |data| > MAX_PAYLOAD ==> frame == SendError(ERR_BAD_LEN)
    ensures 4 <= |frame| <= MAX_PAYLOAD + 4
  {
    if |data| > MAX_PAYLOAD then SendError(ERR_BAD_LEN) else SendFrame(msgType, data)
  }

  /** The frame fields, read back out of a sent frame. */
  lemma SendFrameFields(msgType: byte, payload: seq<byte>)
    requires |payload| <= MAX_PAYLOAD
    ensures var f := SendFrame(msgType, payload);
            && f[0] == SYNC_BYTE && f[1] as int == |payload| + 2 && f[2] == msgType
            && f[3..|payload| + 3] == payload
            && f[|payload| + 3] == DeviceCrc8([msgType] + payload)
  {
  }
}
