/**
 * The frame format shared by the firmware (protocol.c) and the host (protocol.py):
 *
 *   0xAA | length (big-endian, 2 bytes) | version 2 | command | payload | CRC-8 | 0xBB
 *
 * where the length counts the whole frame (payload + 7) and the CRC-8 is computed over
 * the whole frame with the CRC byte itself set to 0.
 */
module Frames {
  import opened Bytes
  import opened Crc8

  const START: byte := 0xAA
  const END: byte := 0xBB
  const VERSION: byte := 2
  /** Header (5 bytes) plus CRC and end marker: the length of a frame with no payload. */
  const OVERHEAD: nat := 7

  const CMD_ACK: byte := 0x61    // 'a'
  const CMD_CLOSE: byte := 0x63  // 'c'
  const CMD_DATA: byte := 0x64   // 'd'
  const CMD_ECHO: byte := 0x65   // 'e'
  const CMD_OPEN: byte := 0x6F   // 'o'
  const CMD_TEST: byte := 0x74   // 't'

  datatype Option<T> = None | Some(value: T)

  /** The error codes carried by acknowledgement frames (`enum errors` of protocol.h). */
  datatype ErrorCode = NoError | CrcError | VersionError | EndingError | TypeError | Opened | Closed

  function Code(e: ErrorCode): (c: byte)
    ensures c < 7
  {
    match e
    case NoError => 0
    case CrcError => 1
    case VersionError => 2
    case EndingError => 3
    case TypeError => 4
    case Opened => 5
    case Closed => 6
  }

  /** The seven codes are distinct bytes: an acknowledgement's code byte names one error. */
  lemma CodeInjective(e1: ErrorCode, e2: ErrorCode)
    ensures Code(e1) == Code(e2) <==> e1 == e2
  {
  }

  // ---------------------------------------------------------------------------------
  // Length bytes

  /** `len >> 8` stored into a `uint8_t`. */
  function HighByte(len: nat): (b: byte)
    ensures Value(b) == (len / 0x100) % 0x100
  {
    Truncate(len / 0x100)
  }

  /** `len` stored into a `uint8_t`. */
  function LowByte(len: nat): (b: byte)
    ensures Value(b) == len % 0x100
  {
    Truncate(len)
  }

  /** The big-endian 16-bit value of two length bytes, `(hi << 8) + lo`. */
  function Declared(hi: byte, lo: byte): (n: nat)
    ensures n < 0x10000
  {
    ValueBound(hi);
    ValueBound(lo);
    Value(hi) * 0x100 + Value(lo)
  }

  /** Writing a length into two bytes and reading it back gives the length modulo 2^16. */
  lemma DeclaredOfBytes(len: nat)
    ensures Declared(HighByte(len), LowByte(len)) == len % 0x10000
  {
    var q, r := len / 0x10000, len % 0x10000;
    assert len == 0x10000 * q + r;
    assert len / 0x100 == 0x100 * q + r / 0x100;
    assert (len / 0x100) % 0x100 == r / 0x100;
    assert len % 0x100 == r % 0x100;
  }

  /** A length that fits 16 bits is read back unchanged. */
  lemma DeclaredOfLength(len: nat)
    requires len < 0x10000
    ensures Declared(HighByte(len), LowByte(len)) == len
  {
    DeclaredOfBytes(len);
  }

  /** A length below 256 has a zero high byte. */
  lemma SmallLength(len: nat)
    requires len < 0x100
    ensures HighByte(len) == 0 && Value(LowByte(len)) == len
  {
    ValueOfFromValue(0);
    ValueInjective(HighByte(len), 0);
  }

  /** Reading two length bytes and writing the value back gives the same two bytes. */
  lemma BytesOfDeclared(hi: byte, lo: byte)
    ensures HighByte(Declared(hi, lo)) == hi && LowByte(Declared(hi, lo)) == lo
  {
    var n := Declared(hi, lo);
    ValueBound(hi);
    ValueBound(lo);
    assert n / 0x100 == Value(hi) && n % 0x100 == Value(lo);
    assert Value(HighByte(n)) == Value(hi);
    assert Value(LowByte(n)) == Value(lo);
    ValueInjective(HighByte(n), hi);
    ValueInjective(LowByte(n), lo);
  }

  // ---------------------------------------------------------------------------------
  // Frames

  /** The five header bytes of a frame of `len` bytes carrying command `cmd`. */
  function Header(cmd: byte, len: nat): (h: seq<byte>)
    ensures |h| == 5
  {
    [START, HighByte(len), LowByte(len), VERSION, cmd]
  }

  /** A frame as the senders lay it out before the CRC is known: CRC slot 0. */
  function Unsealed(cmd: byte, payload: seq<byte>): (u: seq<byte>)
    ensures |u| == |payload| + OVERHEAD
  {
    Header(cmd, |payload| + OVERHEAD) + payload + [0, END]
  }

  /** The frame every sender emits: the unsealed frame with its CRC put into the slot. */
  function Frame(cmd: byte, payload: seq<byte>): (f: seq<byte>)
    ensures |f| == |payload| + OVERHEAD
  {
    Header(cmd, |payload| + OVERHEAD) + payload + [Crc(Unsealed(cmd, payload)), END]
  }

  /**
   * An acknowledgement: the 8 bytes `[0xAA, 0, 8, 2, 'a', code, crc, 0xBB]`, written out
   * with the CRC of each code worked out (`AckIsFrame` shows it is the 'a' frame).
   */
  function AckFrame(e: ErrorCode): (f: seq<byte>)
    ensures |f| == 8 && f[5] == Code(e)
  {
    [START, 0, 8, VERSION, CMD_ACK, Code(e), AckCrc(e), END]
  }

  /** The CRC byte of the acknowledgement carrying `e`. */
  function AckCrc(e: ErrorCode): byte {
    match e
    case NoError => 0x8F
    case CrcError => 0xE4
    case VersionError => 0x59
    case EndingError => 0x32
    case TypeError => 0x24
    case Opened => 0x4F
    case Closed => 0xF2
  }

  /** The position of the CRC byte in a frame with an `n`-byte payload. */
  function CrcSlot(n: nat): nat {
    n + 5
  }

  /** `f` with the byte at `i` replaced by `b`. */
  function Put(f: seq<byte>, i: nat, b: byte): (g: seq<byte>)
    requires i < |f|
    ensures |g| == |f| && g[i] == b && forall j :: 0 <= j < |f| && j != i ==> g[j] == f[j]
  {
    f[i := b]
  }

  /**
   * The layout of every frame, field by field: start marker, the length `|payload| + 7`
   * in big-endian order (modulo 2^16, as the `uint8_t` stores truncate it), version 2,
   * the command, the payload unchanged, and the end marker.
   */
  lemma FrameLayout(cmd: byte, payload: seq<byte>)
    ensures var f := Frame(cmd, payload);
      f[0] == START && f[3] == VERSION && f[4] == cmd &&
      Declared(f[1], f[2]) == (|payload| + OVERHEAD) % 0x10000 &&
      f[5..CrcSlot(|payload|)] == payload && f[|payload| + 6] == END
  {
    var f := Frame(cmd, payload);
    DeclaredOfBytes(|payload| + OVERHEAD);
    assert f[5..CrcSlot(|payload|)] == payload;
  }

  /** A frame whose length fits the 16-bit field starts with 0xAA and declares its length. */
  lemma FrameLength(cmd: byte, payload: seq<byte>)
    requires |payload| + OVERHEAD < 0x10000
    ensures var f := Frame(cmd, payload);
      f[0] == START && Declared(f[1], f[2]) == |f|
  {
    var n := |payload| + OVERHEAD;
    var f := Frame(cmd, payload);
    assert f[1] == HighByte(n) && f[2] == LowByte(n);
    DeclaredOfLength(n);
  }

  /**
   * The CRC byte of a frame is the CRC-8 of the same frame with that byte set to 0: the
   * property the receiver checks.
   */
  lemma CrcSlotProperty(cmd: byte, payload: seq<byte>)
    ensures var f := Frame(cmd, payload);
      f[CrcSlot(|payload|)] == Crc(Put(f, CrcSlot(|payload|), 0))
  {
    var f := Frame(cmd, payload);
    assert Put(f, CrcSlot(|payload|), 0) == Unsealed(cmd, payload);
  }

  /** Setting the CRC byte of a frame back to 0 gives its unsealed form. */
  lemma Unseal(cmd: byte, payload: seq<byte>)
    ensures var f := Frame(cmd, payload);
      f[..|f| - 2] + [0, END] == Unsealed(cmd, payload)
  {
    var f := Frame(cmd, payload);
    assert f[..|f| - 2] == Header(cmd, |payload| + OVERHEAD) + payload;
  }

  /** A frame is its unsealed form with the CRC of that form stored in the CRC slot. */
  lemma Seal(cmd: byte, payload: seq<byte>)
    ensures var u := Unsealed(cmd, payload);
      Frame(cmd, payload) == u[CrcSlot(|payload|) := Crc(u)]
  {
  }

  /**
   * A frame is determined by its command and payload, and both can be read back from it:
   * two frames are equal only if they carry the same command and payload.
   */
  lemma FrameInjective(c1: byte, p1: seq<byte>, c2: byte, p2: seq<byte>)
    requires Frame(c1, p1) == Frame(c2, p2)
    ensures c1 == c2 && p1 == p2
  {
    FrameLayout(c1, p1);
    FrameLayout(c2, p2);
  }

  /** The header of an 8-byte frame. */
  lemma EightByteHeader(cmd: byte)
    ensures Header(cmd, 8) == [START, 0, 8, VERSION, cmd]
  {
    SmallLength(8);
    ValueOfFromValue(8);
    ValueInjective(LowByte(8), 8);
  }

  /**
   * A frame with a one-byte payload `c` is the 8 bytes `[0xAA, 0, 8, 2, cmd, c, crc, 0xBB]`,
   * where `crc` is taken over `header ++ [c, 0, 0xBB]`.
   */
  lemma OneByteLayout(cmd: byte, c: byte)
    ensures Unsealed(cmd, [c]) == [START, 0, 8, VERSION, cmd] + [c, 0, END]
    ensures Frame(cmd, [c]) == [START, 0, 8, VERSION, cmd] + [c, Crc(Unsealed(cmd, [c])), END]
  {
    EightByteHeader(cmd);
  }

  /**
   * The acknowledgement of `e` is the frame with command 'a' and the one-byte payload
   * `code`: its CRC byte is the CRC-8 of `header ++ [code, 0, 0xBB]`, what `send_ack` of
   * protocol.py computes.
   */
  lemma AckIsFrame(e: ErrorCode)
    ensures AckFrame(e) == Frame(CMD_ACK, [Code(e)])
    ensures AckCrc(e) == Crc([START, 0, 8, VERSION, CMD_ACK] + [Code(e), 0, END])
  {
    OneByteLayout(CMD_ACK, Code(e));
    AckCrcValue(e);
  }

  lemma AckCrcValue(e: ErrorCode)
    ensures AckCrc(e) == Crc([START, 0, 8, VERSION, CMD_ACK] + [Code(e), 0, END])
  {
    AckHeaderCrc();
    CrcAppend(0, [START, 0, 8, VERSION, CMD_ACK], [Code(e), 0, END]);
    match e
    case NoError => TailCrc(0x75, 0, 0x4C, 0xE3, 0x8F);
    case CrcError => TailCrc(0x75, 1, 0x4B, 0xF6, 0xE4);
    case VersionError => TailCrc(0x75, 2, 0x42, 0xC9, 0x59);
    case EndingError => TailCrc(0x75, 3, 0x45, 0xDC, 0x32);
    case TypeError => TailCrc(0x75, 4, 0x50, 0xB7, 0x24);
    case Opened => TailCrc(0x75, 5, 0x57, 0xA2, 0x4F);
    case Closed => TailCrc(0x75, 6, 0x5E, 0x9D, 0xF2);
  }

  /** The CRC register after the five header bytes of an acknowledgement. */
  lemma AckHeaderCrc()
    ensures CrcFrom(0, [START, 0, 8, VERSION, CMD_ACK]) == 0x75
  {
    var s := [START, 0, 8, VERSION, CMD_ACK];
    assert s[..0] == [];
    NextByte(0, s, 0, 0xAA, 0x00, 0x5F);
    NextByte(0, s, 1, 0x00, 0x5F, 0x9A);
    NextByte(0, s, 2, 0x08, 0x9A, 0xF7);
    NextByte(0, s, 3, 0x02, 0xF7, 0xC5);
    NextByte(0, s, 4, 0x61, 0xC5, 0x75);
    assert s[..5] == s;
  }


  /** The frame `protocol_send_open` sends: command 'o' and no payload, written out. */
  function OpenFrame(): (f: seq<byte>)
    ensures |f| == OVERHEAD
  {
    [START, 0, 7, VERSION, CMD_OPEN, 0xD7, END]
  }

  /** The frame `protocol_send_close` sends: command 'c' and no payload, written out. */
  function CloseFrame(): (f: seq<byte>)
    ensures |f| == OVERHEAD
  {
    [START, 0, 7, VERSION, CMD_CLOSE, 0x2D, END]
  }

  /** The frame the `test` method of protocol.py sends: command 't' and no payload, written out. */
  function TestFrame(): (f: seq<byte>)
    ensures |f| == OVERHEAD
  {
    [START, 0, 7, VERSION, CMD_TEST, 0x99, END]
  }

  /** The open, close and test frames are the frames of 'o', 'c' and 't' with no payload. */
  lemma EmptyFrames()
    ensures OpenFrame() == Frame(CMD_OPEN, []) && CloseFrame() == Frame(CMD_CLOSE, [])
    ensures TestFrame() == Frame(CMD_TEST, [])
  {
    EmptyLayout(CMD_OPEN);
    EmptyLayout(CMD_CLOSE);
    EmptyLayout(CMD_TEST);
    EmptyHeaderCrc();
    CrcAppend(0, [START, 0, 7, VERSION], [CMD_OPEN, 0, END]);
    CrcAppend(0, [START, 0, 7, VERSION], [CMD_CLOSE, 0, END]);
    CrcAppend(0, [START, 0, 7, VERSION], [CMD_TEST, 0, END]);
    TailCrc(0x06, CMD_OPEN, 0x18, 0x48, 0xD7);
    TailCrc(0x06, CMD_CLOSE, 0x3C, 0xB4, 0x2D);
    TailCrc(0x06, CMD_TEST, 0x59, 0x88, 0x99);
  }

  /** A frame with no payload is `[0xAA, 0, 7, 2, cmd, crc, 0xBB]`. */
  lemma EmptyLayout(cmd: byte)
    ensures Unsealed(cmd, []) == [START, 0, 7, VERSION] + [cmd, 0, END]
    ensures Frame(cmd, []) == [START, 0, 7, VERSION, cmd, Crc(Unsealed(cmd, [])), END]
  {
    SmallLength(7);
    ValueOfFromValue(7);
    ValueInjective(LowByte(7), 7);
  }

  /** The CRC register after the first four bytes of a frame with no payload. */
  lemma EmptyHeaderCrc()
    ensures CrcFrom(0, [START, 0, 7, VERSION]) == 0x06
  {
    var s := [START, 0, 7, VERSION];
    assert s[..0] == [];
    NextByte(0, s, 0, 0xAA, 0x00, 0x5F);
    NextByte(0, s, 1, 0x00, 0x5F, 0x9A);
    NextByte(0, s, 2, 0x07, 0x9A, 0xDA);
    NextByte(0, s, 3, 0x02, 0xDA, 0x06);
    assert s[..4] == s;
  }

  /**
   * The CRC register after the last three bytes of a short frame, the command or code `x`,
   * the zeroed CRC slot and the end marker, from a register holding `c0`.
   */
  lemma TailCrc(c0: byte, x: byte, c1: byte, c2: byte, d: byte)
    requires Shift(Shift(Shift(Shift(Shift(Shift(Shift(Shift(c0 ^ x)))))))) == c1
    requires Shift(Shift(Shift(Shift(Shift(Shift(Shift(Shift(c1 ^ 0)))))))) == c2
    requires Shift(Shift(Shift(Shift(Shift(Shift(Shift(Shift(c2 ^ END)))))))) == d
    ensures CrcFrom(c0, [x, 0, END]) == d
  {
    ShiftsEight(c0 ^ x);
    ShiftsEight(c1 ^ 0);
    ShiftsEight(c2 ^ END);
    assert [x, 0, END][1..] == [0, END] && [0, END][1..] == [END] && [END][1..] == [];
    assert CrcFrom(c2, [END]) == d;
    assert CrcFrom(c1, [0, END]) == d;
  }

  // ---------------------------------------------------------------------------------
  // The receiver's checks, shared by protocol.c and protocol.py


  /** The payload of a packet: the bytes between the command and the CRC byte. */
  function Payload(f: seq<byte>): (p: seq<byte>)
    requires |f| >= OVERHEAD
    ensures |p| == |f| - OVERHEAD && f == f[..5] + p + f[|f| - 2..]
  {
    f[5..|f| - 2]
  }

  /** The CRC the receiver computes: over the packet with its CRC byte 0 and end byte 0xBB. */
  function Computed(f: seq<byte>): byte
    requires |f| >= OVERHEAD
  {
    Crc(f[..|f| - 2] + [0, END])
  }

  /** The three checks, in the order the receiver makes them: error codes of the failed ones. */
  function Checks(f: seq<byte>): (errs: seq<ErrorCode>)
    requires |f| >= OVERHEAD
    ensures |errs| <= 3
  {
    (if f[3] != VERSION then [VersionError] else []) +
    (if f[|f| - 2] != Computed(f) then [CrcError] else []) +
    (if f[|f| - 1] != END then [EndingError] else [])
  }

  /**
   * Each check fails exactly when its field is wrong: the version is not 2, the CRC byte is
   * not the CRC the receiver computes, or the end byte is not 0xBB. The failures are listed
   * in the order the receiver checks.
   */
  lemma ChecksMeaning(f: seq<byte>)
    requires |f| >= OVERHEAD
    ensures var errs := Checks(f);
      (VersionError in errs <==> f[3] != VERSION) &&
      (CrcError in errs <==> f[|f| - 2] != Computed(f)) &&
      (EndingError in errs <==> f[|f| - 1] != END) &&
      forall i, j :: 0 <= i < j < |errs| ==> Stage(errs[i]) < Stage(errs[j])
  {
  }

  /** The order in which the receiver checks: version, CRC, end byte. */
  function Stage(e: ErrorCode): nat {
    match e
    case VersionError => 0
    case CrcError => 1
    case EndingError => 2
    case _ => 3
  }

  /** One acknowledgement frame per error code, in order. */
  function Acks(errs: seq<ErrorCode>): (r: seq<byte>)
    ensures |r| == 8 * |errs|
  {
    if |errs| == 0 then [] else AckFrame(errs[0]) + Acks(errs[1..])
  }

  lemma {:induction false} AcksAppend(a: seq<ErrorCode>, b: seq<ErrorCode>)
    ensures Acks(a + b) == Acks(a) + Acks(b)
    decreases |a|
  {
    if |a| == 0 {
      assert a + b == b;
    } else {
      assert (a + b)[0] == a[0] && (a + b)[1..] == a[1..] + b;
      AcksAppend(a[1..], b);
    }
  }
  /** The acknowledgements of the three checks, one after the other. */
  lemma AcksOfChecks(f: seq<byte>)
    requires |f| >= OVERHEAD
    ensures Acks(Checks(f)) ==
      (if f[3] != VERSION then AckFrame(VersionError) else []) +
      (if f[|f| - 2] != Computed(f) then AckFrame(CrcError) else []) +
      (if f[|f| - 1] != END then AckFrame(EndingError) else [])
  {
    var a := if f[3] != VERSION then [VersionError] else [];
    var b := if f[|f| - 2] != Computed(f) then [CrcError] else [];
    var c := if f[|f| - 1] != END then [EndingError] else [];
    AcksAppend(a + b, c);
    AcksAppend(a, b);
    AcksOfOne(VersionError);
    AcksOfOne(CrcError);
    AcksOfOne(EndingError);
  }

  lemma AcksOfOne(e: ErrorCode)
    ensures Acks([e]) == AckFrame(e) && Acks([]) == []
  {
    assert [e][1..] == [];
  }

  /** A frame passes the version, CRC and end-marker checks, and its payload is read back. */
  lemma FramePasses(cmd: byte, payload: seq<byte>)
    ensures var f := Frame(cmd, payload);
      Checks(f) == [] && Payload(f) == payload && f[4] == cmd
  {
    FrameLayout(cmd, payload);
    Unseal(cmd, payload);
  }

  // ---------------------------------------------------------------------------------
  // The start-marker loop, the same in protocol.c and protocol.py

  /**
   * How many bytes the start-marker loop discards before the first 0xAA: its position,
   * or the whole length of `s` when there is none.
   */
  function SyncLength(s: seq<byte>): (k: nat)
    ensures k <= |s| && (k < |s| ==> s[k] == START)
  {
    if |s| == 0 || s[0] == START then 0 else 1 + SyncLength(s[1..])
  }

  /** The bytes the start-marker loop discards are exactly those before the first 0xAA. */
  lemma {:induction false} SyncSkipsNoStart(s: seq<byte>)
    ensures forall i :: 0 <= i < SyncLength(s) ==> s[i] != START
    decreases |s|
  {
    if |s| > 0 && s[0] != START {
      SyncSkipsNoStart(s[1..]);
      assert forall i :: 1 <= i < SyncLength(s) ==> s[i] == s[1..][i - 1];
    }
  }

  /** The start-marker loop skips exactly the junk before a frame. */
  lemma {:induction false} SyncOverJunk(junk: seq<byte>, t: seq<byte>)
    requires forall i :: 0 <= i < |junk| ==> junk[i] != START
    requires |t| > 0 && t[0] == START
    ensures SyncLength(junk + t) == |junk|
    decreases |junk|
  {
    if |junk| == 0 {
      assert junk + t == t;
    } else {
      assert (junk + t)[1..] == junk[1..] + t;
      SyncOverJunk(junk[1..], t);
    }
  }

  /** Reading bytes `a` to `b` of the packet off the input. */
  lemma Skip(f: seq<byte>, r: seq<byte>, a: nat, b: nat)
    requires a <= b <= |f|
    ensures (f[a..] + r)[b - a..] == f[b..] + r && (f[a..] + r)[..b - a] == f[a..b]
  {
    assert (f[a..] + r)[b - a..] == f[b..] + r;
  }

  lemma Associate<T>(a: seq<T>, b: seq<T>, c: seq<T>)
    ensures a + b + c == a + (b + c)
  {
  }

  lemma Units<T>(a: seq<T>)
    ensures a + [] == a && [] + a == a
  {
  }

  lemma Regroup<T>(s: seq<T>, a: seq<T>, b: seq<T>, c: seq<T>)
    ensures s + a + b + c == s + (a + b + c)
  {
  }
}
