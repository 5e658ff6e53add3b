/** The host's frame codec (src-tauri/src/serial.rs): the table-driven CRC-8,
    `build_frame`, and `read_frame` with its resynchronising scan.

    A wire frame is `[SYNC, n + 1] ++ payload ++ [crc8(payload)]` where `n` is
    the payload length; the length byte counts the payload and the CRC byte. */
module FrameCodec {
  import opened Bytes
  import opened SerialErrors

  const SYNC_BYTE: byte := 0xC8
  /** Largest accepted length byte. */
  const MAX_FRAME_LEN: nat := 254
  const MAX_PAYLOAD_LEN: nat := 252
  /** `build_frame` admits one byte more than MAX_PAYLOAD_LEN: the payload
      includes the message-type byte. */
  const MAX_BUILD_LEN: nat := 1 + MAX_PAYLOAD_LEN

  /** `CRC8_LUT`, one row per source line. */
  const CRC8_LUT: seq<byte> :=
    [0x00, 0xD5, 0x7F, 0xAA, 0xFE, 0x2B, 0x81, 0x54, 0x29, 0xFC, 0x56, 0x83, 0xD7, 0x02, 0xA8, 0x7D]
    + [0x52, 0x87, 0x2D, 0xF8, 0xAC, 0x79, 0xD3, 0x06, 0x7B, 0xAE, 0x04, 0xD1, 0x85, 0x50, 0xFA, 0x2F]
    + [0xA4, 0x71, 0xDB, 0x0E, 0x5A, 0x8F, 0x25, 0xF0, 0x8D, 0x58, 0xF2, 0x27, 0x73, 0xA6, 0x0C, 0xD9]
    + [0xF6, 0x23, 0x89, 0x5C, 0x08, 0xDD, 0x77, 0xA2, 0xDF, 0x0A, 0xA0, 0x75, 0x21, 0xF4, 0x5E, 0x8B]
    + [0x9D, 0x48, 0xE2, 0x37, 0x63, 0xB6, 0x1C, 0xC9, 0xB4, 0x61, 0xCB, 0x1E, 0x4A, 0x9F, 0x35, 0xE0]
    + [0xCF, 0x1A, 0xB0, 0x65, 0x31, 0xE4, 0x4E, 0x9B, 0xE6, 0x33, 0x99, 0x4C, 0x18, 0xCD, 0x67, 0xB2]
    + [0x39, 0xEC, 0x46, 0x93, 0xC7, 0x12, 0xB8, 0x6D, 0x10, 0xC5, 0x6F, 0xBA, 0xEE, 0x3B, 0x91, 0x44]
    + [0x6B, 0xBE, 0x14, 0xC1, 0x95, 0x40, 0xEA, 0x3F, 0x42, 0x97, 0x3D, 0xE8, 0xBC, 0x69, 0xC3, 0x16]
    + [0xEF, 0x3A, 0x90, 0x45, 0x11, 0xC4, 0x6E, 0xBB, 0xC6, 0x13, 0xB9, 0x6C, 0x38, 0xED, 0x47, 0x92]
    + [0xBD, 0x68, 0xC2, 0x17, 0x43, 0x96, 0x3C, 0xE9, 0x94, 0x41, 0xEB, 0x3E, 0x6A, 0xBF, 0x15, 0xC0]
    + [0x4B, 0x9E, 0x34, 0xE1, 0xB5, 0x60, 0xCA, 0x1F, 0x62, 0xB7, 0x1D, 0xC8, 0x9C, 0x49, 0xE3, 0x36]
    + [0x19, 0xCC, 0x66, 0xB3, 0xE7, 0x32, 0x98, 0x4D, 0x30, 0xE5, 0x4F, 0x9A, 0xCE, 0x1B, 0xB1, 0x64]
    + [0x72, 0xA7, 0x0D, 0xD8, 0x8C, 0x59, 0xF3, 0x26, 0x5B, 0x8E, 0x24, 0xF1, 0xA5, 0x70, 0xDA, 0x0F]
    + [0x20, 0xF5, 0x5F, 0x8A, 0xDE, 0x0B, 0xA1, 0x74, 0x09, 0xDC, 0x76, 0xA3, 0xF7, 0x22, 0x88, 0x5D]
    + [0xD6, 0x03, 0xA9, 0x7C, 0x28, 0xFD, 0x57, 0x82, 0xFF, 0x2A, 0x80, 0x55, 0x01, 0xD4, 0x7E, 0xAB]
    + [0x84, 0x51, 0xFB, 0x2E, 0x7A, 0xAF, 0x05, 0xD0, 0xAD, 0x78, 0xD2, 0x07, 0x53, 0x86, 0x2C, 0xF9]

  // ---------------------------------------------------------------- CRC-8

  /** The CRC register after folding `data` into it, one table step per byte. */
  function CrcFrom(acc: byte, data: seq<byte>): byte
    decreases |data|
  {
    if |data| == 0 then acc else CrcFrom(CRC8_LUT[Xor(acc, data[0])], data[1..])
  }

  /** `crc8`: the fold started from a zero register. */
  function Crc8(data: seq<byte>): byte
  {
    CrcFrom(0, data)
  }

  /** Folding a concatenation is folding its two parts in turn, so a CRC can be
      extended byte by byte. */
  lemma {:induction false} CrcFromAppend(acc: byte, a: seq<byte>, b: seq<byte>)
    ensures CrcFrom(acc, a + b) == CrcFrom(CrcFrom(acc, a), b)
    decreases |a|
  {
    if |a| > 0 {
      assert (a + b)[1..] == a[1..] + b;
      CrcFromAppend(CRC8_LUT[Xor(acc, a[0])], a[1..], b);
    } else {
      assert a + b == b;
    }
  }

  /** The one-byte step of the register: appending `b` to the data applies one
      table lookup to the previous CRC. */
  lemma CrcSnoc(data: seq<byte>, b: byte)
    ensures Crc8(data + [b]) == CRC8_LUT[Xor(Crc8(data), b)]
  {
    CrcFromAppend(0, data, [b]);
  }

  /** The loop of `crc8`, computing the same register as the fold. */
  method ComputeCrc8(data: seq<byte>) returns (crc: byte)
    ensures crc == Crc8(data)
  {
    crc := 0;
    var i := 0;
    while i < |data|
      invariant 0 <= i <= |data|
      invariant CrcFrom(crc, data[i..]) == Crc8(data)
    {
      assert data[i..][1..] == data[i + 1..];
      crc := CRC8_LUT[Xor(crc, data[i])];
      i := i + 1;
    }
  }

  /** The reference vectors of the source's unit tests. */
  lemma CrcVectors()
    ensures Crc8([]) == 0x00
    ensures Crc8([0x00]) == 0x00
    ensures Crc8([0x01]) == 0xD5
    ensures Crc8([0xFF]) == 0xF9
    ensures Crc8([0x01, 0x02, 0x03]) == 0x3F
    ensures Crc8([0x01, 0x02, 0x03]) != Crc8([0x03, 0x02, 0x01])
  {
    CrcSingleBytes();
    CrcOneTwoThree();
    CrcThreeTwoOne();
  }

  lemma CrcSingleBytes()
    ensures Crc8([0x00]) == 0x00 && Crc8([0x01]) == 0xD5 && Crc8([0xFF]) == 0xF9
  {
    assert [0x00][1..] == [] && [0x01][1..] == [] && [0xFF][1..] == [];
    assert Xor(0, 0x00) == 0x00 && Xor(0, 0x01) == 0x01 && Xor(0, 0xFF) == 0xFF;
  }

  lemma CrcOneTwoThree()
    ensures Crc8([0x01, 0x02, 0x03]) == 0x3F
  {
    assert [0x01, 0x02, 0x03][1..] == [0x02, 0x03] && [0x02, 0x03][1..] == [0x03];
    assert Xor(0, 0x01) == 0x01 && CRC8_LUT[0x01] == 0xD5;
    assert Xor(0xD5, 0x02) == 0xD7 && CRC8_LUT[0xD7] == 0x74;
    assert Xor(0x74, 0x03) == 0x77 && CRC8_LUT[0x77] == 0x3F;
    assert CrcFrom(0, [0x01, 0x02, 0x03]) == CrcFrom(0xD5, [0x02, 0x03]);
    assert CrcFrom(0xD5, [0x02, 0x03]) == CrcFrom(0x74, [0x03]);
  }

  lemma CrcThreeTwoOne()
    ensures Crc8([0x03, 0x02, 0x01]) == 0x93
  {
    assert [0x03, 0x02, 0x01][1..] == [0x02, 0x01] && [0x02, 0x01][1..] == [0x01];
    assert Xor(0, 0x03) == 0x03 && CRC8_LUT[0x03] == 0xAA;
    assert Xor(0xAA, 0x02) == 0xA8 && CRC8_LUT[0xA8] == 0x62;
    assert Xor(0x62, 0x01) == 0x63 && CRC8_LUT[0x63] == 0x93;
    assert CrcFrom(0, [0x03, 0x02, 0x01]) == CrcFrom(0xAA, [0x02, 0x01]);
    assert CrcFrom(0xAA, [0x02, 0x01]) == CrcFrom(0x62, [0x01]);
  }

  // ---------------------------------------------------------------- encoding

  /** The bytes of the frame carrying `payload`. */
  function Encode(payload: seq<byte>): (frame: seq<byte>)
    requires |payload| <= MAX_BUILD_LEN
    ensures |frame| == |payload| + 3
    ensures frame[0] == SYNC_BYTE && frame[1] as int == |payload| + 1
    ensures frame[2..|payload| + 2] == payload && frame[|payload| + 2] == Crc8(payload)
  {
    [SYNC_BYTE, (|payload| + 1) as byte] + payload + [Crc8(payload)]
  }

  /** `build_frame`: rejects only payloads longer than 253 bytes; an empty
      payload is not its concern. */
  function BuildFrame(payload: seq<byte>): (r: Result<seq<byte>>)
    ensures r.Ok? <==> |payload| <= MAX_BUILD_LEN
    ensures r.Err? ==> r.error == PayloadTooLarge
    ensures r.Ok? ==> |r.value| == |payload| + 3
    ensures r.Ok? ==> r.value[0] == SYNC_BYTE && r.value[1] as int == |payload| + 1
    ensures r.Ok? ==> r.value[2..|payload| + 2] == payload && r.value[|payload| + 2] == Crc8(payload)
  {
    if |payload| > MAX_BUILD_LEN then Err(PayloadTooLarge) else Ok(Encode(payload))
  }

  /** The length byte of every frame `build_frame` accepts lies in the range
      `read_frame` accepts, with 254 reached by a 253-byte payload. */
  lemma BuildFrameBoundary()
    ensures BuildFrame(seq(253, _ => 0xAA)).Ok?
    ensures BuildFrame(seq(253, _ => 0xAA)).value[1] == 254
    ensures BuildFrame(seq(254, _ => 0xAA)) == Err(PayloadTooLarge)
    ensures BuildFrame([0x42]).value[1] == 2 && |BuildFrame([0x42]).value| == 4
    ensures BuildFrame([0x01, 0x02, 0x03]).value[1] == 4
  {
  }

  // ---------------------------------------------------------------- decoding

  /** The error `read_exact` surfaces when the port yields no more bytes
      before its timeout. */
  const ReadTimedOut: SerialError := FromIo(StdIoError(TimedOut, "timed out"))

  /** `read_frame` over the bytes the port will deliver. `fuel` counts the
      iterations of the resynchronising loop the deadline still allows: it is
      checked only at the top of each iteration, never between the reads of
      one iteration. Running out of input is a timed-out read. */
  function ReadFrame(input: seq<byte>, fuel: nat): (r: Result<seq<byte>>)
    ensures fuel == 0 ==> r == Err(Timeout)
    ensures r.Err? ==> r.error == Timeout || r.error == CrcMismatch
    ensures r.Ok? ==> 1 <= |r.value| <= MAX_FRAME_LEN - 1
    decreases fuel
  {
    if fuel == 0 then Err(Timeout)
    else if |input| == 0 then Err(ReadTimedOut)
    else if input[0] != SYNC_BYTE then ReadFrame(input[1..], fuel - 1)
    else if |input| < 2 then Err(ReadTimedOut)
    else
      var len := input[1] as int;
      if !(2 <= len <= MAX_FRAME_LEN) then ReadFrame(input[2..], fuel - 1)
      else if |input| < 2 + len then Err(ReadTimedOut)
      else
        var buf := input[2..2 + len];
        if buf[len - 1] != Crc8(buf[..len - 1]) then Err(CrcMismatch)
        else Ok(buf[..len - 1])
  }

  /** True when the frame of `payload` occurs in `input` at offset `k`. */
  ghost predicate FrameAt(input: seq<byte>, k: nat, payload: seq<byte>)
  {
    && 1 <= |payload| <= MAX_BUILD_LEN
    && k + |payload| + 3 <= |input|
    && input[k..k + |payload| + 3] == Encode(payload)
  }

  /** Soundness of the decoder: a payload it returns was framed, with a
      matching CRC, somewhere in the input. */
  lemma {:induction false} ReadFrameSound(input: seq<byte>, fuel: nat)
    ensures ReadFrame(input, fuel).Ok? ==> exists k: nat :: FrameAt(input, k, ReadFrame(input, fuel).value)
    decreases fuel
  {
    var r := ReadFrame(input, fuel);
    if fuel == 0 || |input| == 0 || !r.Ok? {
    } else if input[0] != SYNC_BYTE {
      ReadFrameSound(input[1..], fuel - 1);
      var k: nat :| FrameAt(input[1..], k, r.value);
      FrameAtShift(input, 1, k, r.value);
    } else if !(2 <= input[1] as int <= MAX_FRAME_LEN) {
      ReadFrameSound(input[2..], fuel - 1);
      var k: nat :| FrameAt(input[2..], k, r.value);
      FrameAtShift(input, 2, k, r.value);
    } else {
      FrameAtStart(input, r.value);
    }
  }

  lemma FrameAtShift(input: seq<byte>, j: nat, k: nat, p: seq<byte>)
    requires j <= |input|
    requires FrameAt(input[j..], k, p)
    ensures FrameAt(input, k + j, p)
  {
    assert input[k + j..k + j + |p| + 3] == input[j..][k..k + |p| + 3];
  }

  lemma FrameAtStart(input: seq<byte>, p: seq<byte>)
    requires |input| >= 2 && input[0] == SYNC_BYTE
    requires 2 <= input[1] as int <= MAX_FRAME_LEN
    requires |input| >= 2 + input[1] as int
    requires |p| == input[1] as int - 1
    requires input[2..2 + |p|] == p
    requires input[2 + |p|] == Crc8(p)
    ensures FrameAt(input, 0, p)
  {
    var e := Encode(p);
    assert forall i :: 0 <= i < |p| + 3 ==> input[i] == e[i] by {
      forall i | 0 <= i < |p| + 3
        ensures input[i] == e[i]
      {
        if 2 <= i < |p| + 2 {
          assert input[i] == input[2..2 + |p|][i - 2];
          assert e[i] == e[2..|p| + 2][i - 2];
        }
      }
    }
    assert input[0..|p| + 3] == e;
  }

  /** Bytes other than the sync byte are discarded one loop iteration each. */
  lemma {:induction false} ReadSkipsNoise(g: seq<byte>, s: seq<byte>, fuel: nat)
    requires Free(g, SYNC_BYTE)
    requires fuel >= |g|
    ensures ReadFrame(g + s, fuel) == ReadFrame(s, fuel - |g|)
    decreases |g|
  {
    if |g| > 0 {
      assert (g + s)[1..] == g[1..] + s;
      ReadSkipsNoise(g[1..], s, fuel - 1);
    } else {
      assert g + s == s;
    }
  }

  /** A length byte outside [2, 254] is consumed and scanning resumes after
      it, at the cost of one iteration. */
  lemma BadLengthResumes(len: byte, s: seq<byte>, fuel: nat)
    requires fuel >= 1
    requires !(2 <= len as int <= MAX_FRAME_LEN)
    ensures ReadFrame([SYNC_BYTE, len] + s, fuel) == ReadFrame(s, fuel - 1)
  {
    assert ([SYNC_BYTE, len] + s)[2..] == s;
  }

  /** Once a sync byte and an acceptable length `L` are read, the next `L`
      bytes decide the call: a wrong last byte is reported at once as a CRC
      mismatch with no further resynchronisation; otherwise the first `L - 1`
      bytes are the result. */
  lemma FrameBodyDecides(len: byte, body: seq<byte>, rest: seq<byte>, fuel: nat)
    requires fuel >= 1
    requires 2 <= len as int <= MAX_FRAME_LEN
    requires |body| == len as int
    ensures body[|body| - 1] != Crc8(body[..|body| - 1]) ==>
              ReadFrame([SYNC_BYTE, len] + body + rest, fuel) == Err(CrcMismatch)
    ensures body[|body| - 1] == Crc8(body[..|body| - 1]) ==>
              ReadFrame([SYNC_BYTE, len] + body + rest, fuel) == Ok(body[..|body| - 1])
  {
    var input := [SYNC_BYTE, len] + body + rest;
    assert input[2..2 + |body|] == body;
  }

  /** The frame of an accepted payload decodes to that payload, after any
      run of noise that holds no sync byte and whatever follows it. */
  lemma RoundTrip(g: seq<byte>, p: seq<byte>, rest: seq<byte>, fuel: nat)
    requires Free(g, SYNC_BYTE)
    requires 1 <= |p| <= MAX_BUILD_LEN
    requires fuel > |g|
    ensures ReadFrame(g + BuildFrame(p).value + rest, fuel) == Ok(p)
  {
    var frame := BuildFrame(p).value;
    assert g + frame + rest == g + (frame + rest);
    ReadSkipsNoise(g, frame + rest, fuel);
    assert frame + rest == [SYNC_BYTE, (|p| + 1) as byte] + (p + [Crc8(p)]) + rest;
    FrameBodyDecides((|p| + 1) as byte, p + [Crc8(p)], rest, fuel - |g|);
    assert (p + [Crc8(p)])[..|p|] == p;
  }

  /** A source that never produces the sync byte ends in a timeout, however
      much time is allowed. */
  lemma {:induction false} NoSyncTimesOut(input: seq<byte>, fuel: nat)
    requires Free(input, SYNC_BYTE)
    ensures ReadFrame(input, fuel) == Err(Timeout)
    decreases fuel
  {
    if fuel > 0 && |input| > 0 {
      NoSyncTimesOut(input[1..], fuel - 1);
    }
  }

  /** More time never changes an answer that was not a timeout. */
  lemma {:induction false} MoreFuelSameAnswer(input: seq<byte>, fuel: nat, more: nat)
    requires ReadFrame(input, fuel) != Err(Timeout)
    requires more >= fuel
    ensures ReadFrame(input, more) == ReadFrame(input, fuel)
    decreases fuel
  {
    if |input| > 0 && input[0] != SYNC_BYTE {
      MoreFuelSameAnswer(input[1..], fuel - 1, more - 1);
    } else if |input| >= 2 && input[0] == SYNC_BYTE && !(2 <= input[1] as int <= MAX_FRAME_LEN) {
      MoreFuelSameAnswer(input[2..], fuel - 1, more - 1);
    }
  }
}
