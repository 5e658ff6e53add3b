/** The older device variant's command interpreter (onboard/interface.c,
    `vscopeProcessMessage`). A message is a key character followed by two
    little-endian words, at offsets 1 and 5. The interpreter's output is
    the sequence of `serialSendChar` and `serialSend32Bit` calls it makes. */
module LegacyInterface {
  import opened Bytes
  import opened DeviceWire
  import Device
  import opened LegacyLogger

  /** One call to the serial layer: a character or a 32-bit word. */
  datatype Emit = Char(c: byte) | Word(w: u32)

  /** The message keys, as ASCII codes. */
  const HANDSHAKE: byte := 0x68   // 'h'
  const GET_TIMING: byte := 0x74  // 't'
  const SET_TIMING: byte := 0x54  // 'T'
  const GET_STATE: byte := 0x73   // 's'
  const SET_STATE: byte := 0x53   // 'S'
  const GET_BUFF: byte := 0x62    // 'b'
  const SET_BUFF: byte := 0x42    // 'B'
  const GET_FRAME: byte := 0x66   // 'f'
  const GET_LABEL: byte := 0x6C   // 'l'
  const DOWNLOAD: byte := 0x64    // 'd'

  /** A message: the key and the eight bytes of its two words. */
  const MSG_LEN: nat := 9

  function Chars(bs: seq<byte>): (r: seq<Emit>)
    ensures |r| == |bs| && forall i :: 0 <= i < |bs| ==> r[i] == Char(bs[i])
  {
    seq(|bs|, i requires 0 <= i < |bs| => Char(bs[i]))
  }

  function WordsOut(ws: seq<u32>): (r: seq<Emit>)
    ensures |r| == |ws| && forall i :: 0 <= i < |ws| ==> r[i] == Word(ws[i])
  {
    seq(|ws|, i requires 0 <= i < |ws| => Word(ws[i]))
  }

  // ---------------------------------------------------------------- words in messages

  /** The value C gives a plain `char` holding `b`: the same on targets where
      `char` is unsigned, `b - 256` for the upper half where it is signed. */
  function CharValue(b: byte, signedChar: bool): (v: int)
    ensures -128 <= v < 256
    ensures !signedChar ==> v == b as int
  {
    if signedChar && b >= 128 then b as int - 256 else b as int
  }

  /** `(uint32_t)` applied to such a value. */
  function ToU32(v: int): u32
  {
    v % U32_MODULUS
  }

  /** `U32_FROM_MSG(msg, i)` as written: each `char` is converted to
      `uint32_t` before shifting, which sign-extends bytes of 0x80 and above
      where `char` is signed. */
  function U32FromMsgAsWritten(msg: seq<byte>, i: nat, signedChar: bool): (r: u32)
    requires i + 4 <= |msg|
    ensures signedChar && msg[i] >= 0x80 && msg[i + 1] == 0 && msg[i + 2] == 0 && msg[i + 3] == 0 ==>
              r == 0xFFFF_FF00 + msg[i] as int
    ensures (!signedChar || msg[i] < 0x80) && msg[i + 1] == 0 && msg[i + 2] == 0 && msg[i + 3] == 0 ==>
              r == msg[i] as int
  {
    var b0 := ToU32(CharValue(msg[i], signedChar));
    var b1 := ToU32(CharValue(msg[i + 1], signedChar)) * 0x100 % U32_MODULUS;
    var b2 := ToU32(CharValue(msg[i + 2], signedChar)) * 0x1_0000 % U32_MODULUS;
    var b3 := ToU32(CharValue(msg[i + 3], signedChar)) * 0x100_0000 % U32_MODULUS;
    (b0 + b1 + b2 + b3) % U32_MODULUS
  }

  /** The little-endian word the macro is meant to read. */
  function U32FromMsg(msg: seq<byte>, i: nat): (v: u32)
    requires i + 4 <= |msg|
    ensures WriteU32(v) == msg[i..i + 4]
  {
    WordBytesRoundTrip(msg[i..i + 4]);
    ReadU32(msg[i..i + 4])
  }

  /** Where `char` is unsigned the macro reads exactly that word. */
  lemma U32FromMsgUnsignedChars(msg: seq<byte>, i: nat)
    requires i + 4 <= |msg|
    ensures U32FromMsgAsWritten(msg, i, false) == U32FromMsg(msg, i)
  {
    var b0, b1, b2, b3 := msg[i] as int, msg[i + 1] as int, msg[i + 2] as int, msg[i + 3] as int;
    assert ToU32(CharValue(msg[i], false)) == b0;
    assert ToU32(CharValue(msg[i + 1], false)) * 0x100 % U32_MODULUS == b1 * 0x100;
    assert ToU32(CharValue(msg[i + 2], false)) * 0x1_0000 % U32_MODULUS == b2 * 0x1_0000;
    assert ToU32(CharValue(msg[i + 3], false)) * 0x100_0000 % U32_MODULUS == b3 * 0x100_0000;
    assert U32FromMsgAsWritten(msg, i, false) == b0 + b1 * 0x100 + b2 * 0x1_0000 + b3 * 0x100_0000;
    var w := msg[i..i + 4];
    assert w[0] as int == b0 && w[1] as int == b1 && w[2] as int == b2 && w[3] as int == b3;
    assert ReadU32(w) == b0 + 256 * (b1 + 256 * (b2 + 256 * b3));
  }

  /** Where `char` is signed it does not: a byte 0xFF in the lowest position
      reads as 0xFFFFFFFF instead of 0xFF. */
  lemma U32FromMsgSignExtends()
    ensures var msg: seq<byte> := [SET_TIMING, 0xFF, 0, 0, 0, 0, 0, 0, 0];
            U32FromMsgAsWritten(msg, 1, true) == 0xFFFF_FFFF && U32FromMsg(msg, 1) == 0xFF
  {
    var msg: seq<byte> := [SET_TIMING, 0xFF, 0, 0, 0, 0, 0, 0, 0];
    assert msg[1..5] == [0xFF, 0, 0, 0];
  }

  /** A word written little-endian into a message is read back. */
  lemma U32FromMsgReadsWritten(pre: seq<byte>, v: u32, post: seq<byte>)
    ensures U32FromMsg(pre + WriteU32(v) + post, |pre|) == v
  {
    assert (pre + WriteU32(v) + post)[|pre|..|pre| + 4] == WriteU32(v);
  }

  /** SET_STATE's range check as written: the request byte is compared as a
      `char` against MISCONFIGURED. */
  predicate SetStateAcceptsAsWritten(b: byte, signedChar: bool): (ok: bool)
    ensures ok <==> b <= 2 || (signedChar && b >= 0x80)
  {
    CharValue(b, signedChar) < Device.StateCode(Device.Misconfigured) as int
  }

  /** The check it is meant to make: the byte names HALTED, RUNNING or
      ACQUIRING. */
  predicate SetStateAccepts(b: byte): (ok: bool)
    ensures ok <==> b <= 2
    ensures ok ==> Device.StateCode(Device.RequestOfCode(b)) == b && Device.RequestOfCode(b) != Device.Misconfigured
  {
    b < Device.StateCode(Device.Misconfigured)
  }

  /** Where `char` is unsigned the two checks agree; where it is signed,
      0xFF passes, though it names no state. */
  lemma SetStateCheckSignedness(b: byte)
    ensures SetStateAcceptsAsWritten(b, false) <==> SetStateAccepts(b)
    ensures SetStateAcceptsAsWritten(0xFF, true) && !SetStateAccepts(0xFF)
  {
  }

  // ---------------------------------------------------------------- commands

  datatype Processed = Processed(scope: Scope, out: seq<Emit>)

  /** HANDSHAKE: the channel count and the buffer size, low byte first, then
      the device name. */
  function Handshake(s: Scope): (p: Processed)
    requires Valid(s)
    ensures p.scope == s && |p.out| == 4 + s.cfg.deviceNameLen
    ensures p.out[0] == Char(LEGACY_CHANNELS as byte) && p.out[1] == Char(0)
    ensures p.out[2].Char? && p.out[3].Char?
    ensures p.out[2].c as int + 256 * p.out[3].c as int == s.bufferSize
    ensures p.out[4..] == Chars(s.deviceName)
  {
    var head := [Char((s.nCh % 256) as byte), Char((s.nCh / 256 % 256) as byte),
                 Char((s.bufferSize % 256) as byte), Char((s.bufferSize / 256 % 256) as byte)];
    Processed(s, head + Chars(s.deviceName))
  }

  /** GET_TIMING. */
  function GetTiming(s: Scope): (p: Processed)
    ensures p == Processed(s, [Word(s.divider), Word(s.preTrig)])
  {
    Processed(s, [Word(s.divider), Word(s.preTrig)])
  }

  /** SET_TIMING: stores both words without any range check and recomputes
      the capture length in unsigned arithmetic. */
  function SetTiming(s: Scope, msg: seq<byte>): (p: Processed)
    requires Valid(s) && |msg| >= MSG_LEN
    ensures Valid(p.scope) && p.out == [Char(0)]
    ensures p.scope == s.(divider := U32FromMsg(msg, 1), preTrig := U32FromMsg(msg, 5), acqTime := p.scope.acqTime)
    ensures U32FromMsg(msg, 5) <= s.bufferSize ==> p.scope.acqTime == s.bufferSize - U32FromMsg(msg, 5)
    ensures U32FromMsg(msg, 5) > s.bufferSize ==> p.scope.acqTime == U32_MODULUS + s.bufferSize - U32FromMsg(msg, 5)
  {
    var preTrig := U32FromMsg(msg, 5);
    Processed(s.(divider := U32FromMsg(msg, 1), preTrig := preTrig,
                 acqTime := (s.bufferSize - preTrig) % U32_MODULUS), [Char(0)])
  }

  /** GET_STATE. */
  function GetState(s: Scope): (p: Processed)
    ensures p == Processed(s, [Char(Device.StateCode(s.state))])
  {
    Processed(s, [Char(Device.StateCode(s.state))])
  }

  /** SET_STATE: the request is the last byte of the message. */
  function SetState(s: Scope, msg: seq<byte>): (p: Processed)
    requires Valid(s) && |msg| >= MSG_LEN
    ensures Valid(p.scope)
    ensures SetStateAccepts(msg[8]) ==>
              p.scope == s.(request := p.scope.request) && Device.StateCode(p.scope.request) == msg[8] && p.out == [Char(0)]
    ensures !SetStateAccepts(msg[8]) ==> p == Processed(s, [Char(1)])
  {
    if SetStateAccepts(msg[8]) then Processed(s.(request := Device.RequestOfCode(msg[8])), [Char(0)])
    else Processed(s, [Char(1)])
  }

  /** GET_BUFF: the word at the address in the second word, or 0.0 (all
      zero bits) past the end. */
  function GetBuff(s: Scope, msg: seq<byte>): (p: Processed)
    requires Valid(s) && |msg| >= MSG_LEN
    ensures p.scope == s && |p.out| == 1
    ensures U32FromMsg(msg, 5) < s.cfg.rtLen ==> p.out == [Word(s.rtBuffer[U32FromMsg(msg, 5)])]
    ensures U32FromMsg(msg, 5) >= s.cfg.rtLen ==> p.out == [Word(0)]
  {
    var address := U32FromMsg(msg, 5);
    Processed(s, [Word(if address < s.cfg.rtLen then s.rtBuffer[address] else 0)])
  }

  /** SET_BUFF: writes the second word at the address in the first; an
      address past the end is refused and writes nothing. */
  function SetBuff(s: Scope, msg: seq<byte>): (p: Processed)
    requires Valid(s) && |msg| >= MSG_LEN
    ensures Valid(p.scope)
    ensures U32FromMsg(msg, 1) < s.cfg.rtLen ==>
              p == Processed(s.(rtBuffer := s.rtBuffer[U32FromMsg(msg, 1) := U32FromMsg(msg, 5)]), [Char(0)])
    ensures U32FromMsg(msg, 1) >= s.cfg.rtLen ==> p == Processed(s, [Char(1)])
  {
    var address := U32FromMsg(msg, 1);
    if address < s.cfg.rtLen then Processed(s.(rtBuffer := s.rtBuffer[address := U32FromMsg(msg, 5)]), [Char(0)])
    else Processed(s, [Char(1)])
  }

  /** GET_FRAME: the current value of every channel. */
  function GetFrame(s: Scope, frame: seq<u32>): (p: Processed)
    requires Valid(s) && |frame| == LEGACY_CHANNELS
    ensures p == Processed(s, WordsOut(frame))
  {
    Processed(s, WordsOut(frame[..s.nCh]))
  }

  /** The characters GET_LABEL sends for one stored name: up to the first
      NUL or the full field, then a NUL only when the field was not full. */
  function LabelChars(name: seq<byte>, n: nat): (r: seq<Emit>)
    ensures |StrnPrefix(name, n)| < n ==> r == Chars(StrnPrefix(name, n)) + [Char(0)]
    ensures |StrnPrefix(name, n)| == n ==> r == Chars(StrnPrefix(name, n))
  {
    var c := StrnPrefix(name, n);
    Chars(c) + (if |c| < n then [Char(0)] else [])
  }

  /** GET_LABEL: the name of the channel in the second word; nothing for a
      channel that does not exist. */
  function GetLabel(s: Scope, msg: seq<byte>): (p: Processed)
    requires Valid(s) && |msg| >= MSG_LEN
    ensures p.scope == s
    ensures U32FromMsg(msg, 5) >= LEGACY_CHANNELS ==> p.out == []
    ensures U32FromMsg(msg, 5) < LEGACY_CHANNELS ==>
              p.out == LabelChars(s.channelNames[U32FromMsg(msg, 5)], s.cfg.nameLen)
  {
    var channel := U32FromMsg(msg, 5);
    if channel < LEGACY_CHANNELS then Processed(s, LabelChars(s.channelNames[channel], s.cfg.nameLen))
    else Processed(s, [])
  }

  /** A stored name read back through GET_LABEL is the configured
      identifier, cut to the field, and NUL-terminated when it fits. */
  lemma LabelOfConfiguredChannel(cfg: LegacyConfig, names: seq<seq<byte>>, ch: nat, msg: seq<byte>)
    requires ConfigOk(cfg) && |names| == LEGACY_CHANNELS && ch < LEGACY_CHANNELS
    requires |msg| >= MSG_LEN && U32FromMsg(msg, 5) == ch
    ensures var c := StrnPrefix(names[ch], cfg.nameLen);
            GetLabel(Init(cfg, names), msg).out == Chars(c) + (if |c| < cfg.nameLen then [Char(0)] else [])
  {
    var field := Strncpy(names[ch], cfg.nameLen);
    StrncpyPrefix(names[ch], cfg.nameLen);
  }

  /** Reading a `strncpy` field back stops where the copied string stopped. */
  lemma {:induction false} StrncpyPrefix(src: seq<byte>, n: nat)
    ensures StrnPrefix(Strncpy(src, n), n) == StrnPrefix(src, n)
  {
    var c := StrnPrefix(src, n);
    var f := Strncpy(src, n);
    assert f == c + Zeros(n - |c|);
    PrefixThenNul(c, Zeros(n - |c|), n);
  }

  /** StrnPrefix of a NUL-free string followed by zeros, within bound `n`,
      is that string. */
  lemma {:induction false} PrefixThenNul(c: seq<byte>, z: seq<byte>, n: nat)
    requires |c| <= n && |c| + |z| == n
    requires forall i :: 0 <= i < |c| ==> c[i] != 0
    requires forall i :: 0 <= i < |z| ==> z[i] == 0
    ensures StrnPrefix(c + z, n) == c
    decreases |c|
  {
    if |c| == 0 {
      assert c + z == z;
    } else {
      assert (c + z)[1..] == c[1..] + z;
      assert (c + z)[0] == c[0];
      PrefixThenNul(c[1..], z, n - 1);
    }
  }

  // ---------------------------------------------------------------- download

  /** The buffer row sent `j`-th by DOWNLOAD: the oldest sample first. */
  function DumpRow(s: Scope, j: nat): (row: seq<u32>)
    requires Valid(s)
    ensures |row| == LEGACY_CHANNELS
  {
    s.buffer[(s.firstElement + j) % s.bufferSize as int]
  }

  /** The first `j` rows of a download, each as ten words. */
  function Dump(s: Scope, j: nat): (r: seq<Emit>)
    requires Valid(s)
    ensures |r| == LEGACY_CHANNELS * j
    decreases j
  {
    if j == 0 then [] else Dump(s, j - 1) + WordsOut(DumpRow(s, j - 1))
  }

  /** Word `i` of row `k` of a download is that row's channel `i`. */
  lemma {:induction false} DumpLayout(s: Scope, j: nat, k: nat, i: nat)
    requires Valid(s) && k < j && i < LEGACY_CHANNELS
    ensures LEGACY_CHANNELS * k + i < |Dump(s, j)|
    ensures Dump(s, j)[LEGACY_CHANNELS * k + i] == Word(DumpRow(s, k)[i])
    decreases j
  {
    if k < j - 1 {
      DumpLayout(s, j - 1, k, i);
    }
  }

  /** The inner loop of DOWNLOAD: one `serialSend32Bit` per channel. */
  method SendRow(row: seq<u32>) returns (words: seq<Emit>)
    ensures words == WordsOut(row)
  {
    words := [];
    var i: nat := 0;
    while i < |row|
      invariant i <= |row|
      invariant words == WordsOut(row[..i])
    {
      words := words + [Word(row[i])];
      i := i + 1;
      assert row[..i] == row[..i - 1] + [row[i - 1]];
    }
    assert row[..i] == row;
  }

  /** DOWNLOAD: every row of the buffer in circular order from
      `firstElement`, which is advanced once per row and so ends where it
      started. */
  method Download(s: Scope) returns (out: seq<Emit>, first: nat)
    requires Valid(s)
    ensures out == Dump(s, s.bufferSize) && |out| == LEGACY_CHANNELS * s.bufferSize
    ensures first == s.firstElement
  {
    var n := s.bufferSize as nat;
    out := [];
    first := s.firstElement;
    ModUnique(first, 0, first, n);
    var j: nat := 0;
    while j < n
      invariant j <= n && first < n
      invariant first == (s.firstElement + j) % n
      invariant out == Dump(s, j)
    {
      var words := SendRow(s.buffer[first]);
      out := out + words;
      ModStep(s.firstElement + j, n);
      first := first + 1;
      if first == n {
        first := 0;
      }
      j := j + 1;
    }
    ModUnique(s.firstElement + n, 1, s.firstElement, n);
  }

  /** DOWNLOAD as one step: the rows in order, `firstElement` unchanged. */
  function DownloadAll(s: Scope): (p: Processed)
    requires Valid(s)
    ensures p.scope == s && |p.out| == LEGACY_CHANNELS * s.bufferSize
  {
    Processed(s, Dump(s, s.bufferSize))
  }

  // ---------------------------------------------------------------- dispatch

  /** `vscopeProcessMessage`. An unknown key does nothing. */
  function ProcessMessage(s: Scope, msg: seq<byte>, frame: seq<u32>): (p: Processed)
    requires Valid(s) && |msg| >= MSG_LEN && |frame| == LEGACY_CHANNELS
    ensures Valid(p.scope)
    ensures p.scope.state == s.state && p.scope.buffer == s.buffer && p.scope.index == s.index
    ensures p.scope.firstElement == s.firstElement
  {
    var k := msg[0];
    if k == HANDSHAKE then Handshake(s)
    else if k == GET_TIMING then GetTiming(s)
    else if k == SET_TIMING then SetTiming(s, msg)
    else if k == GET_STATE then GetState(s)
    else if k == SET_STATE then SetState(s, msg)
    else if k == GET_BUFF then GetBuff(s, msg)
    else if k == SET_BUFF then SetBuff(s, msg)
    else if k == GET_FRAME then GetFrame(s, frame)
    else if k == GET_LABEL then GetLabel(s, msg)
    else if k == DOWNLOAD then DownloadAll(s)
    else Processed(s, [])
  }

  /** Keys other than the ten commands neither answer nor change anything. */
  lemma UnknownKeyIgnored(s: Scope, msg: seq<byte>, frame: seq<u32>)
    requires Valid(s) && |msg| >= MSG_LEN && |frame| == LEGACY_CHANNELS
    requires msg[0] !in {HANDSHAKE, GET_TIMING, SET_TIMING, GET_STATE, SET_STATE, GET_BUFF, SET_BUFF, GET_FRAME, GET_LABEL, DOWNLOAD}
    ensures ProcessMessage(s, msg, frame) == Processed(s, [])
  {
  }

  /** The timing SET_TIMING stores is what GET_TIMING sends back. */
  lemma SetThenGetTiming(s: Scope, msg: seq<byte>)
    requires Valid(s) && |msg| >= MSG_LEN
    ensures GetTiming(SetTiming(s, msg).scope).out == [Word(U32FromMsg(msg, 1)), Word(U32FromMsg(msg, 5))]
  {
  }

  /** A word SET_BUFF accepts is what GET_BUFF at the same address sends
      back. */
  lemma SetThenGetBuff(s: Scope, store: seq<byte>, load: seq<byte>)
    requires Valid(s) && |store| >= MSG_LEN && |load| >= MSG_LEN
    requires U32FromMsg(store, 1) < s.cfg.rtLen && U32FromMsg(load, 5) == U32FromMsg(store, 1)
    ensures GetBuff(SetBuff(s, store).scope, load).out == [Word(U32FromMsg(store, 5))]
  {
  }

  /** A pre-trigger beyond the buffer, which SET_TIMING accepts, wraps the
      capture length. Up to 2^32 - 2^16 the wrapped length is at least 2^16,
      past anything the 16-bit run counter can reach: a capture running with
      that length, whenever it starts, stays ACQUIRING however often the
      engine is called. */
  lemma OversizedPreTriggerNeverEnds(s: Scope, msg: seq<byte>, u: Scope, frame: seq<u32>, k: nat)
    requires Valid(s) && |msg| >= MSG_LEN && |frame| == LEGACY_CHANNELS
    requires s.bufferSize < U32FromMsg(msg, 5) <= U32_MODULUS - U16_MODULUS
    requires Valid(u) && u.state == Device.Acquiring && u.acqTime == SetTiming(s, msg).scope.acqTime
    ensures SetTiming(s, msg).scope.acqTime >= U16_MODULUS
    ensures AcquireTimes(u, frame, k).state == Device.Acquiring
  {
    CaptureNeverEnds(u, frame, k);
  }
}
