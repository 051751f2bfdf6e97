/**
 * The device side of the protocol (protocol.c): the `connected` flag, the five senders,
 * `protocol_connect` / `protocol_disconnect` and `protocol_receive`.
 *
 * The standard input and output of the board are modelled as two byte sequences: `input`
 * holds the bytes `getchar` has not returned yet and `output` the bytes `putchar` has
 * written. What `printf` and `run_tests` do is recorded as abstract events in `log`.
 */
module Firmware {
  import opened Bytes
  import opened Crc8
  import opened Frames

  /** What the firmware reports with `printf`, and the call of `run_tests`. */
  datatype Event =
    | WrongVersion                         // "wrong version"
    | WrongCrc(got: byte, expected: byte)  // "incorrect crc: got .. , expected .."
    | WrongEnding(got: byte)               // "not the last bit .."
    | AckSuccess                           // "success"
    | AckFail                              // "fail"
    | Printed(text: seq<byte>)             // the payload of a data frame, then a newline
    | TestsRun                             // run_tests()
    | WrongType                            // "wrong"

  /** The effect of handling one packet: the new flag, the bytes sent and the reports. */
  datatype Reply = Reply(connected: bool, sent: seq<byte>, events: seq<Event>)

  // ---------------------------------------------------------------------------------
  // Reading a packet off the input

  /**
   * The input holds a whole packet after its first start marker: the two length bytes,
   * and as many bytes as the declared length says. The declared length must be at least 7:
   * below that the packet buffer is too short for the header and the CRC and end slots.
   */
  predicate Receivable(s: seq<byte>) {
    var k := SyncLength(s);
    k + 3 <= |s| && OVERHEAD <= Declared(s[k + 1], s[k + 2]) &&
    k + Declared(s[k + 1], s[k + 2]) <= |s|
  }

  /** The declared length of the first packet of `s`: what `protocol_receive` returns. */
  function DeclaredLength(s: seq<byte>): (n: nat)
    requires Receivable(s)
    ensures OVERHEAD <= n < 0x10000
  {
    var k := SyncLength(s);
    Declared(s[k + 1], s[k + 2])
  }

  /** The bytes of the first packet, from its start marker to its end byte. */
  function Packet(s: seq<byte>): (f: seq<byte>)
    requires Receivable(s)
    ensures |f| == DeclaredLength(s)
    ensures f[0] == START && Declared(f[1], f[2]) == |f|
  {
    var k := SyncLength(s);
    s[k..k + DeclaredLength(s)]
  }

  /** The input left after the first packet. */
  function Rest(s: seq<byte>): (r: seq<byte>)
    requires Receivable(s)
  {
    s[SyncLength(s) + DeclaredLength(s)..]
  }

  // ---------------------------------------------------------------------------------
  // Checking and dispatching a packet

  /**
   * The byte the acknowledgement case inspects, `packet[6]`, read after the end byte has
   * been stored back into the buffer whose CRC slot was set to 0. It is the end byte of a
   * 7-byte packet, the zeroed CRC slot of an 8-byte packet and the second payload byte of a
   * longer packet: never the first payload byte.
   */
  function Probe(f: seq<byte>): (b: byte)
    requires |f| >= OVERHEAD
    ensures |f| == 7 ==> b == f[6]
    ensures |f| == 8 ==> b == 0
    ensures |f| >= 9 ==> b == Payload(f)[1]
  {
    (f[..|f| - 2] + [0, f[|f| - 1]])[6]
  }

  /** The reports that go with the failed checks. */
  function Reports(f: seq<byte>): (r: seq<Event>)
    requires |f| >= OVERHEAD
    ensures |r| == |Checks(f)|
  {
    (if f[3] != VERSION then [WrongVersion] else []) +
    (if f[|f| - 2] != Computed(f) then [WrongCrc(f[|f| - 2], Computed(f))] else []) +
    (if f[|f| - 1] != END then [WrongEnding(f[|f| - 1])] else [])
  }


  /**
   * The `switch` of `protocol_receive` on the command byte, given the flag, the probe byte
   * and the payload. Only 'o' and 'c' change the flag: afterwards the device is connected
   * exactly when the command was 'o', or it was connected and the command was not 'c'.
   */
  function Response(connected: bool, cmd: byte, probe: byte, payload: seq<byte>): (r: Reply)
    ensures r.connected <==> cmd == CMD_OPEN || (connected && cmd != CMD_CLOSE)
    ensures cmd !in {CMD_ACK, CMD_DATA, CMD_OPEN, CMD_CLOSE, CMD_ECHO, CMD_TEST} ==>
      r.sent == AckFrame(TypeError) && r.events == [WrongType]
  {
    if cmd == CMD_ACK then
      Reply(connected, [], if probe == 0 then [AckSuccess] else if probe == 1 then [AckFail] else [])
    else if cmd == CMD_DATA then
      Reply(connected, [], [Printed(payload)])
    else if cmd == CMD_OPEN then
      if connected then Reply(connected, AckFrame(Opened), [])
      else Reply(true, OpenFrame(), [])
    else if cmd == CMD_CLOSE then
      if connected then Reply(false, CloseFrame(), [])
      else Reply(connected, AckFrame(Closed), [])
    else if cmd == CMD_ECHO then
      Reply(connected, Frame(CMD_DATA, payload), [])
    else if cmd == CMD_TEST then
      Reply(connected, [], [TestsRun])
    else
      Reply(connected, AckFrame(TypeError), [WrongType])
  }

  /**
   * Everything `protocol_receive` does with a packet: one acknowledgement per failed check,
   * in order, and then the dispatch on the command whatever the checks found.
   */
  function Handle(connected: bool, f: seq<byte>): (r: Reply)
    requires |f| >= OVERHEAD
    ensures var d := Response(connected, f[4], Probe(f), Payload(f));
      r.connected == d.connected &&
      r.sent == Acks(Checks(f)) + d.sent && r.events == Reports(f) + d.events
  {
    var d := Response(connected, f[4], Probe(f), Payload(f));
    Reply(d.connected, Acks(Checks(f)) + d.sent, Reports(f) + d.events)
  }

  // ---------------------------------------------------------------------------------
  // The device

  class Device {
    /** The `connected` global; the firmware only ever stores 0 and 1 in it. */
    var connected: bool
    /** The bytes `getchar` has yet to return. */
    var input: seq<byte>
    /** The bytes written with `putchar`. */
    var output: seq<byte>
    /** What was printed with `printf`, and the calls of `run_tests`. */
    var log: seq<Event>

    /** `protocol_init`: the flag starts cleared. */
    constructor(incoming: seq<byte>)
      ensures !connected && input == incoming && output == [] && log == []
    {
      connected := false;
      input := incoming;
      output := [];
      log := [];
    }

    /** `getchar`, on an input that has a byte ready. */
    method GetChar() returns (b: byte)
      requires |input| > 0
      modifies this`input
      ensures b == old(input)[0] && input == old(input)[1..]
    {
      b := input[0];
      input := input[1..];
    }

    /** `putchar`. */
    method PutChar(b: byte)
      modifies this`output
      ensures output == old(output) + [b]
    {
      output := output + [b];
    }

    /** The loop that sends a buffer with `putchar`, byte by byte. */
    method Write(packet: array<byte>)
      modifies this`output
      ensures output == old(output) + packet[..]
    {
      for i := 0 to packet.Length
        invariant output == old(output) + packet[..i]
      {
        PutChar(packet[i]);
        assert packet[..i + 1] == packet[..i] + [packet[i]];
      }
      assert packet[..packet.Length] == packet[..];
    }

    /** The buffer of a frame before its CRC is known: header, payload, CRC slot 0, end. */
    static method Layout(cmd: byte, payload: seq<byte>) returns (packet: array<byte>)
      ensures fresh(packet) && packet[..] == Unsealed(cmd, payload)
    {
      var len := |payload| + OVERHEAD;
      ghost var u := Unsealed(cmd, payload);
      packet := new byte[len];
      packet[0], packet[1], packet[2], packet[3], packet[4] := START, HighByte(len), LowByte(len), VERSION, cmd;
      for i := 0 to |payload|
        invariant forall j :: 0 <= j < 5 + i ==> packet[j] == u[j]
      {
        packet[5 + i] := payload[i];
      }
      packet[5 + |payload|], packet[6 + |payload|] := 0, END;
      assert packet[..] == u;
    }

    /**
     * The body shared by the five senders: lay out header, payload and footer with CRC
     * slot 0 in a buffer, compute the CRC over the whole buffer, store it in the slot and
     * write the buffer out byte by byte. Returns the packet length.
     */
    method Emit(cmd: byte, payload: seq<byte>) returns (n: nat)
      modifies this`output
      ensures output == old(output) + Frame(cmd, payload)
      ensures n == |payload| + OVERHEAD
    {
      var len := |payload| + OVERHEAD;
      var packet := Layout(cmd, payload);
      var crc := ComputeCrc(packet, len);
      assert packet[..len] == packet[..];
      packet[5 + |payload|] := crc;
      Seal(cmd, payload);
      assert packet[..] == Frame(cmd, payload);
      Write(packet);
      n := len;
    }

    /** `protocol_send`: a data frame 'd' carrying `payload`. */
    method Send(payload: seq<byte>) returns (n: nat)
      modifies this`output
      ensures output == old(output) + Frame(CMD_DATA, payload)
      ensures n == |payload| + OVERHEAD
    {
      n := Emit(CMD_DATA, payload);
    }

    /** `protocol_send_ack`: an acknowledgement frame carrying the error code. */
    method SendAck(e: ErrorCode) returns (n: nat)
      modifies this`output
      ensures output == old(output) + AckFrame(e)
      ensures n == 8
    {
      n := Emit(CMD_ACK, [Code(e)]);
      AckIsFrame(e);
    }

    /** `protocol_send_open`: an empty 'o' frame. */
    method SendOpen() returns (n: nat)
      modifies this`output
      ensures output == old(output) + OpenFrame()
      ensures n == 7
    {
      n := Emit(CMD_OPEN, []);
      EmptyFrames();
    }

    /** `protocol_send_close`: an empty 'c' frame. */
    method SendClose() returns (n: nat)
      modifies this`output
      ensures output == old(output) + CloseFrame()
      ensures n == 7
    {
      n := Emit(CMD_CLOSE, []);
      EmptyFrames();
    }

    /** `protocol_send_echo`: an 'e' frame carrying `payload`. */
    method SendEcho(payload: seq<byte>) returns (n: nat)
      modifies this`output
      ensures output == old(output) + Frame(CMD_ECHO, payload)
      ensures n == |payload| + OVERHEAD
    {
      n := Emit(CMD_ECHO, payload);
    }

    /** `protocol_connect`: set the flag, send an open frame, return 0. */
    method Connect() returns (r: int)
      modifies this`connected, this`output
      ensures connected && output == old(output) + OpenFrame()
      ensures r == 0
    {
      connected := true;
      var _ := SendOpen();
      r := 0;
    }

    /** `protocol_disconnect`: clear the flag and send a close frame. */
    method Disconnect()
      modifies this`connected, this`output
      ensures !connected && output == old(output) + CloseFrame()
    {
      connected := false;
      var _ := SendClose();
    }

    /** The `switch` of `protocol_receive` on the command byte. */
    method Dispatch(cmd: byte, probe: byte, payload: seq<byte>)
      modifies this`connected, this`output, this`log
      ensures var r := Response(old(connected), cmd, probe, payload);
        connected == r.connected && output == old(output) + r.sent && log == old(log) + r.events
    {
      if cmd == CMD_ACK {
        if probe == 0 {
          log := log + [AckSuccess];
        } else if probe == 1 {
          log := log + [AckFail];
        }
      } else if cmd == CMD_DATA {
        log := log + [Printed(payload)];
      } else if cmd == CMD_OPEN {
        if connected {
          var _ := SendAck(Opened);
        } else {
          var _ := Connect();
        }
      } else if cmd == CMD_CLOSE {
        if connected {
          Disconnect();
        } else {
          var _ := SendAck(Closed);
        }
      } else if cmd == CMD_ECHO {
        var _ := Send(payload);
      } else if cmd == CMD_TEST {
        log := log + [TestsRun];
      } else {
        var _ := SendAck(TypeError);
        log := log + [WrongType];
      }
    }

    /** The `do ... while` loop that waits for the start marker. */
    method SkipToStart() returns (start: byte)
      requires SyncLength(input) < |input|
      modifies this`input
      ensures start == START && input == old(input)[SyncLength(old(input)) + 1..]
    {
      ghost var s := input;
      ghost var k := SyncLength(s);
      SyncSkipsNoStart(s);
      start := GetChar();
      ghost var read := 1;
      while start != START
        invariant 1 <= read <= k + 1 && input == s[read..] && start == s[read - 1]
        decreases |input|
      {
        start := GetChar();
        read := read + 1;
      }
    }

    /** The loop that reads the payload of a packet of `packet.Length` bytes into the buffer. */
    method ReadPayload(packet: array<byte>)
      requires OVERHEAD <= packet.Length && packet.Length - OVERHEAD <= |input|
      modifies this`input, packet
      ensures input == old(input)[packet.Length - OVERHEAD..]
      ensures packet[..5] == old(packet[..5])
      ensures packet[5..packet.Length - 2] == old(input)[..packet.Length - OVERHEAD]
    {
      ghost var t := input;
      for i := 0 to packet.Length - OVERHEAD
        invariant input == t[i..]
        invariant packet[..5] == old(packet[..5])
        invariant forall j :: 0 <= j < i ==> packet[5 + j] == t[j]
      {
        packet[5 + i] := GetChar();
      }
      assert packet[5..packet.Length - 2] == t[..packet.Length - OVERHEAD];
    }

    /** The version check: acknowledge VERSION and report it when the version is not 2. */
    method CheckVersion(version: byte)
      modifies this`output, this`log
      ensures output == old(output) + (if version != VERSION then AckFrame(VersionError) else [])
      ensures log == old(log) + (if version != VERSION then [WrongVersion] else [])
    {
      if version != VERSION {
        var _ := SendAck(VersionError);
        log := log + [WrongVersion];
      }
    }

    /** The CRC check: acknowledge CRC and report both values when they differ. */
    method CheckCrc(received: byte, computed: byte)
      modifies this`output, this`log
      ensures output == old(output) + (if received != computed then AckFrame(CrcError) else [])
      ensures log == old(log) + (if received != computed then [WrongCrc(received, computed)] else [])
    {
      if received != computed {
        var _ := SendAck(CrcError);
        log := log + [WrongCrc(received, computed)];
      }
    }

    /** The end-marker check: acknowledge ENDING and report the byte when it is not 0xBB. */
    method CheckEnding(end: byte)
      modifies this`output, this`log
      ensures output == old(output) + (if end != END then AckFrame(EndingError) else [])
      ensures log == old(log) + (if end != END then [WrongEnding(end)] else [])
    {
      if end != END {
        var _ := SendAck(EndingError);
        log := log + [WrongEnding(end)];
      }
    }

    /**
     * The reads after the start marker up to the command byte: the two length bytes (stored
     * back as `len >> 8` and `len`), the version, checked at once, and the command.
     */
    method ReadHead(start: byte, ghost f: seq<byte>, ghost r: seq<byte>) returns (packet: array<byte>)
      requires |f| >= OVERHEAD && start == f[0] && Declared(f[1], f[2]) == |f|
      requires input == f[1..] + r
      modifies this`input, this`output, this`log
      ensures fresh(packet) && packet.Length == |f|
      ensures forall j :: 0 <= j < 5 ==> packet[j] == f[j]
      ensures input == f[5..] + r
      ensures output == old(output) + (if f[3] != VERSION then AckFrame(VersionError) else [])
      ensures log == old(log) + (if f[3] != VERSION then [WrongVersion] else [])
    {
      Next(f, r, 1);
      var hi := GetChar();
      Next(f, r, 2);
      var lo := GetChar();
      var len := Declared(hi, lo);
      packet := new byte[len];
      Next(f, r, 3);
      var version := GetChar();
      CheckVersion(version);
      Next(f, r, 4);
      var cmd := GetChar();
      BytesOfDeclared(hi, lo);
      packet[0], packet[1], packet[2], packet[3], packet[4] := start, HighByte(len), LowByte(len), version, cmd;
    }

    /**
     * The reads after the command byte: the payload, the CRC byte (checked over the buffer
     * with its CRC slot set to 0 and its end slot to 0xBB) and the end byte, stored into the
     * buffer and checked.
     */
    method ReadTail(packet: array<byte>, ghost f: seq<byte>, ghost r: seq<byte>)
      requires packet.Length == |f| >= OVERHEAD
      requires forall j :: 0 <= j < 5 ==> packet[j] == f[j]
      requires input == f[5..] + r
      modifies this`input, this`output, this`log, packet
      ensures input == r
      ensures packet[..] == f[..|f| - 2] + [0, f[|f| - 1]]
      ensures output == old(output) +
        (if f[|f| - 2] != Computed(f) then AckFrame(CrcError) else []) +
        (if f[|f| - 1] != END then AckFrame(EndingError) else [])
      ensures log == old(log) +
        (if f[|f| - 2] != Computed(f) then [WrongCrc(f[|f| - 2], Computed(f))] else []) +
        (if f[|f| - 1] != END then [WrongEnding(f[|f| - 1])] else [])
    {
      var len := packet.Length;
      ReadPayload(packet);
      assert input == f[len - 2..] + r && packet[5..len - 2] == f[5..len - 2] by {
        Skip(f, r, 5, len - 2);
      }
      Prefix(packet[..], f);
      ReadCrc(packet, f, r);
      ReadEnd(packet, f, r);
    }

    /**
     * The CRC part of the reads: the received CRC byte, then the buffer's CRC slot set to 0
     * and its end slot to 0xBB, the CRC computed over the whole buffer and compared.
     */
    method ReadCrc(packet: array<byte>, ghost f: seq<byte>, ghost r: seq<byte>)
      requires packet.Length == |f| >= OVERHEAD
      requires packet[..|f| - 2] == f[..|f| - 2]
      requires input == f[|f| - 2..] + r
      modifies this`input, this`output, this`log, packet
      ensures input == f[|f| - 1..] + r
      ensures packet[..] == f[..|f| - 2] + [0, END]
      ensures output == old(output) + (if f[|f| - 2] != Computed(f) then AckFrame(CrcError) else [])
      ensures log == old(log) + (if f[|f| - 2] != Computed(f) then [WrongCrc(f[|f| - 2], Computed(f))] else [])
    {
      var len := packet.Length;
      Next(f, r, len - 2);
      var receivedCrc := GetChar();
      packet[len - 2] := 0;
      packet[len - 1] := END;
      assert packet[..] == packet[..len - 2] + [0, END];
      var computed := ComputeCrc(packet, len);
      assert packet[..len] == packet[..];
      CheckCrc(receivedCrc, computed);
    }

    /** The end byte, read into the buffer's last slot and checked. */
    method ReadEnd(packet: array<byte>, ghost f: seq<byte>, ghost r: seq<byte>)
      requires packet.Length == |f| >= OVERHEAD
      requires packet[..] == f[..|f| - 2] + [0, END]
      requires input == f[|f| - 1..] + r
      modifies this`input, this`output, this`log, packet
      ensures input == r
      ensures packet[..] == f[..|f| - 2] + [0, f[|f| - 1]]
      ensures output == old(output) + (if f[|f| - 1] != END then AckFrame(EndingError) else [])
      ensures log == old(log) + (if f[|f| - 1] != END then [WrongEnding(f[|f| - 1])] else [])
    {
      var len := packet.Length;
      Next(f, r, len - 1);
      assert f[len..] + r == r;
      packet[len - 1] := GetChar();
      CheckEnding(packet[len - 1]);
      assert packet[..] == old(packet[..])[len - 1 := f[len - 1]];
    }

    /**
     * The reads after the start marker: the whole packet, with one acknowledgement and one
     * report per failed check, in order.
     */
    method ReadPacket(start: byte, ghost f: seq<byte>, ghost r: seq<byte>) returns (packet: array<byte>)
      requires |f| >= OVERHEAD && start == f[0] && Declared(f[1], f[2]) == |f|
      requires input == f[1..] + r
      modifies this`input, this`output, this`log
      ensures fresh(packet) && packet[..] == f[..|f| - 2] + [0, f[|f| - 1]]
      ensures input == r && output == old(output) + Acks(Checks(f)) && log == old(log) + Reports(f)
    {
      packet := ReadHead(start, f, r);
      ReadTail(packet, f, r);
      Checked(f, old(output), output, old(log), log);
    }

    /**
     * The reads of `protocol_receive`: discard input up to and including the first start
     * marker, then read the packet, acknowledging and reporting each failed check.
     */
    method Fetch() returns (packet: array<byte>)
      requires Receivable(input)
      modifies this`input, this`output, this`log
      ensures var f := Packet(old(input));
        fresh(packet) && packet[..] == f[..|f| - 2] + [0, f[|f| - 1]] && input == Rest(old(input)) &&
        output == old(output) + Acks(Checks(f)) && log == old(log) + Reports(f)
    {
      ghost var f, r := Packet(input), Rest(input);
      AfterStart(input);
      var start := SkipToStart();
      packet := ReadPacket(start, f, r);
    }

    /**
     * `protocol_receive`: read the first packet of the input, acknowledge each failed check
     * (and carry on), dispatch on the command, and return the declared length.
     */
    method Receive() returns (n: int)
      requires Receivable(input)
      modifies this
      ensures n == DeclaredLength(old(input)) && input == Rest(old(input))
      ensures var r := Handle(old(connected), Packet(old(input)));
        connected == r.connected && output == old(output) + r.sent && log == old(log) + r.events
    {
      ghost var f := Packet(input);
      var packet := Fetch();
      Dispatching(packet[..], f);
      var cmd, probe, payload := packet[4], packet[6], packet[5..packet.Length - 2];
      Dispatch(cmd, probe, payload);
      ghost var d := Response(old(connected), cmd, probe, payload);
      Associate(old(output), Acks(Checks(f)), d.sent);
      Associate(old(log), Reports(f), d.events);
      n := packet.Length;
    }
  }

  /** Reading one byte off the input after the first `i` bytes of the packet. */
  lemma Next(f: seq<byte>, r: seq<byte>, i: nat)
    requires i < |f|
    ensures (f[i..] + r)[0] == f[i] && (f[i..] + r)[1..] == f[i + 1..] + r
  {
    assert (f[i..] + r)[1..] == f[i + 1..] + r;
  }

  /** A buffer that agrees with the packet on the header and the payload. */
  lemma Prefix(p: seq<byte>, f: seq<byte>)
    requires |p| == |f| >= OVERHEAD
    requires forall j :: 0 <= j < 5 ==> p[j] == f[j]
    requires p[5..|p| - 2] == f[5..|f| - 2]
    ensures p[..|p| - 2] == f[..|f| - 2]
  {
    forall j | 0 <= j < |p| - 2
      ensures p[j] == f[j]
    {
      if 5 <= j {
        assert p[j] == p[5..|p| - 2][j - 5];
      }
    }
  }

  /** The buffer the switch reads: command, probe byte and payload of the packet. */
  lemma Dispatching(p: seq<byte>, f: seq<byte>)
    requires |f| >= OVERHEAD && p == f[..|f| - 2] + [0, f[|f| - 1]]
    ensures p[4] == f[4] && p[6] == Probe(f) && p[5..|p| - 2] == Payload(f)
  {
  }

  /** After the start marker the input holds the rest of the first packet, then the rest. */
  lemma AfterStart(s: seq<byte>)
    requires Receivable(s)
    ensures s[SyncLength(s) + 1..] == Packet(s)[1..] + Rest(s)
  {
    var k, n := SyncLength(s), DeclaredLength(s);
    assert Packet(s)[1..] == s[k + 1..k + n];
    assert Rest(s) == s[k + n..];
    Split(s, k + 1, k + n);
  }

  lemma Split(s: seq<byte>, a: nat, b: nat)
    requires a <= b <= |s|
    ensures s[a..] == s[a..b] + s[b..]
  {
  }

  /** The output and reports of the three checks, made one after the other. */
  lemma Checked(f: seq<byte>, out0: seq<byte>, out1: seq<byte>, log0: seq<Event>, log1: seq<Event>)
    requires |f| >= OVERHEAD
    requires out1 == out0 +
      (if f[3] != VERSION then AckFrame(VersionError) else []) +
      (if f[|f| - 2] != Computed(f) then AckFrame(CrcError) else []) +
      (if f[|f| - 1] != END then AckFrame(EndingError) else [])
    requires log1 == log0 +
      (if f[3] != VERSION then [WrongVersion] else []) +
      (if f[|f| - 2] != Computed(f) then [WrongCrc(f[|f| - 2], Computed(f))] else []) +
      (if f[|f| - 1] != END then [WrongEnding(f[|f| - 1])] else [])
    ensures out1 == out0 + Acks(Checks(f)) && log1 == log0 + Reports(f)
  {
    AcksOfChecks(f);
    var a := if f[3] != VERSION then AckFrame(VersionError) else [];
    var b := if f[|f| - 2] != Computed(f) then AckFrame(CrcError) else [];
    var c := if f[|f| - 1] != END then AckFrame(EndingError) else [];
    Regroup(out0, a, b, c);
    var x := if f[3] != VERSION then [WrongVersion] else [];
    var y := if f[|f| - 2] != Computed(f) then [WrongCrc(f[|f| - 2], Computed(f))] else [];
    var z := if f[|f| - 1] != END then [WrongEnding(f[|f| - 1])] else [];
    Regroup(log0, x, y, z);
  }
}

