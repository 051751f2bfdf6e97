/**
 * The host side of the protocol (the `CustomProtocol` class of protocol.py): the senders,
 * the `test` exchange and `receive`, which checks a packet like the firmware does and then
 * turns it into the bytes the caller gets back.
 *
 * The serial port is modelled as two byte sequences: `rx` holds the bytes the port has not
 * delivered yet and `tx` the bytes written to it. Opening and closing the port and the
 * `print` calls are not modelled.
 */
module Host {
  import opened Bytes
  import opened Crc8
  import opened Frames
  import PyCrc

  // The byte strings `receive` returns, in ASCII.
  const SUCCESS: seq<byte> := [0x73, 0x75, 0x63, 0x63, 0x65, 0x73, 0x73]  // "success"
  const CRC_INCORRECT: seq<byte> := [0x43, 0x52, 0x43, 0x20, 0x69, 0x6E, 0x63, 0x6F, 0x72, 0x72, 0x65, 0x63, 0x74]  // "CRC incorrect"
  const VERSION_INCORRECT: seq<byte> := [0x76, 0x65, 0x72, 0x73, 0x69, 0x6F, 0x6E, 0x20, 0x69, 0x6E, 0x63, 0x6F, 0x72, 0x72, 0x65, 0x63, 0x74]  // "version incorrect"
  const ENDING_MISSING: seq<byte> := [0x65, 0x6E, 0x64, 0x69, 0x6E, 0x67, 0x20, 0x62, 0x79, 0x74, 0x65, 0x20, 0x6D, 0x69, 0x73, 0x73, 0x69, 0x6E, 0x67]  // "ending byte missing"
  const TYPE_UNKNOWN: seq<byte> := [0x74, 0x79, 0x70, 0x65, 0x20, 0x75, 0x6E, 0x6B, 0x6E, 0x6F, 0x77]  // "type unknow"
  const CONNECTION_OPENED: seq<byte> := [0x63, 0x6F, 0x6E, 0x6E, 0x65, 0x63, 0x74, 0x69, 0x6F, 0x6E, 0x20, 0x6F, 0x70, 0x65, 0x6E, 0x65, 0x64]  // "connection opened"
  const CONNECTION_CLOSED: seq<byte> := [0x63, 0x6F, 0x6E, 0x6E, 0x65, 0x63, 0x74, 0x69, 0x6F, 0x6E, 0x20, 0x63, 0x6C, 0x6F, 0x73, 0x65, 0x64]  // "connection closed"
  const UNKNOWN_ACK: seq<byte> := [0x75, 0x6E, 0x6B, 0x6E, 0x6F, 0x77, 0x20, 0x61, 0x63, 0x6B, 0x3A, 0x20]  // "unknow ack: "
  const OPEN: seq<byte> := [0x6F, 0x70, 0x65, 0x6E]  // "open"
  const CLOSE: seq<byte> := [0x63, 0x6C, 0x6F, 0x73, 0x65]  // "close"
  const ECHO: seq<byte> := [0x65, 0x63, 0x68, 0x6F]  // "echo"
  const UNKNOWN_TYPE: seq<byte> := [0x75, 0x6E, 0x6B, 0x6E, 0x6F, 0x77, 0x20, 0x74, 0x79, 0x70, 0x65, 0x3A, 0x20]  // "unknow type: "

  /** The effect of receiving one packet: the bytes written back and the value returned. */
  datatype Reply = Reply(sent: seq<byte>, answer: seq<byte>)

  // ---------------------------------------------------------------------------------
  // Reading a packet off the port

  /** How many bytes `read(n)` of the port takes: none when `n` is not positive. */
  function Count(n: int): nat {
    if n < 0 then 0 else n
  }

  /**
   * The number of bytes `receive` reads from the start marker on when the length field
   * says `len`: the header, `len - 7` payload bytes (none when that is negative), the CRC
   * byte and the end byte.
   */
  function Span(len: nat): (n: nat)
    ensures n >= OVERHEAD && (len >= OVERHEAD ==> n == len)
  {
    OVERHEAD + Count(len - OVERHEAD)
  }

  /** The port holds a whole packet after its first start marker, as its length field counts it. */
  predicate Receivable(s: seq<byte>) {
    var k := SyncLength(s);
    k + 3 <= |s| && k + Span(Declared(s[k + 1], s[k + 2])) <= |s|
  }

  /** The bytes `receive` reads from the first start marker on. */
  function Packet(s: seq<byte>): (g: seq<byte>)
    requires Receivable(s)
    ensures |g| >= OVERHEAD
  {
    var k := SyncLength(s);
    s[k..k + Span(Declared(s[k + 1], s[k + 2]))]
  }

  /** The bytes left on the port after `receive`. */
  function Rest(s: seq<byte>): seq<byte>
    requires Receivable(s)
  {
    var k := SyncLength(s);
    s[k + Span(Declared(s[k + 1], s[k + 2]))..]
  }

  // ---------------------------------------------------------------------------------
  // Turning a packet into an answer

  /**
   * The answer to an acknowledgement: one message per known code, else the payload tagged.
   * Only the tagged answer starts with 'u'.
   */
  function AckAnswer(payload: seq<byte>): (a: seq<byte>)
    ensures |a| > 0
    ensures a[0] == 0x75 <==> !(|payload| == 1 && payload[0] < 7)
    ensures !(|payload| == 1 && payload[0] < 7) ==>
      |a| == |UNKNOWN_ACK| + |payload| && a[|UNKNOWN_ACK|..] == payload
  {
    if payload == [0] then SUCCESS
    else if payload == [1] then CRC_INCORRECT
    else if payload == [2] then VERSION_INCORRECT
    else if payload == [3] then ENDING_MISSING
    else if payload == [4] then TYPE_UNKNOWN
    else if payload == [5] then CONNECTION_OPENED
    else if payload == [6] then CONNECTION_CLOSED
    else UNKNOWN_ACK + payload
  }

  /**
   * The `match` of `receive` on the message type. Only 'a' and 'd' write nothing back; the
   * other types write one frame, of 'o', 'c', 'd' (the echoed payload) or 'a' (`TYPE`).
   */
  function Response(cmd: byte, payload: seq<byte>): (r: Reply)
    ensures r.sent == [] <==> cmd == CMD_ACK || cmd == CMD_DATA
    ensures r.sent != [] ==> |r.sent| >= OVERHEAD && r.sent[0] == START && r.sent[|r.sent| - 1] == END
    ensures cmd == CMD_DATA ==> r.answer == payload
  {
    if cmd == CMD_ACK then Reply([], AckAnswer(payload))
    else if cmd == CMD_DATA then Reply([], payload)
    else if cmd == CMD_OPEN then Reply(OpenFrame(), OPEN)
    else if cmd == CMD_CLOSE then Reply(CloseFrame(), CLOSE)
    else if cmd == CMD_ECHO then Reply(Frame(CMD_DATA, payload), ECHO)
    else Reply(AckFrame(TypeError), UNKNOWN_TYPE + [cmd])
  }

  /**
   * Everything `receive` does with the bytes `g` it read: one acknowledgement per failed
   * check, in the firmware's order, and then the `match` whatever the checks found.
   */
  function Handle(g: seq<byte>): (r: Reply)
    requires |g| >= OVERHEAD
    ensures var d := Response(g[4], Payload(g));
      r.answer == d.answer && |r.sent| == 8 * |Checks(g)| + |d.sent| &&
      (Checks(g) == [] ==> r == d)
  {
    var d := Response(g[4], Payload(g));
    Reply(Acks(Checks(g)) + d.sent, d.answer)
  }

  /** The port holds `n` packets, one after the other. */
  predicate Holds(s: seq<byte>, n: nat)
    decreases n
  {
    n == 0 || (Receivable(s) && Holds(Rest(s), n - 1))
  }

  /** The port after `n` calls of `receive`. */
  function After(s: seq<byte>, n: nat): seq<byte>
    requires Holds(s, n)
    decreases n
  {
    if n == 0 then s else After(Rest(s), n - 1)
  }

  /** The bytes `n` calls of `receive` write back. */
  function SentBy(s: seq<byte>, n: nat): seq<byte>
    requires Holds(s, n)
    decreases n
  {
    if n == 0 then [] else Handle(Packet(s)).sent + SentBy(Rest(s), n - 1)
  }

  /** The values `n` calls of `receive` return. */
  function AnswersTo(s: seq<byte>, n: nat): seq<seq<byte>>
    requires Holds(s, n)
    decreases n
  {
    if n == 0 then [] else [Handle(Packet(s)).answer] + AnswersTo(Rest(s), n - 1)
  }

  // ---------------------------------------------------------------------------------
  // The client

  class Client {
    /** The bytes the serial port has not delivered yet. */
    var rx: seq<byte>
    /** The bytes written to the serial port. */
    var tx: seq<byte>

    constructor(incoming: seq<byte>)
      ensures rx == incoming && tx == []
    {
      rx := incoming;
      tx := [];
    }

    /** `read(n)` of the port, which waits until `n` bytes have arrived. */
    method Read(n: int) returns (b: seq<byte>)
      requires Count(n) <= |rx|
      modifies this`rx
      ensures b == old(rx)[..Count(n)] && rx == old(rx)[Count(n)..]
    {
      b := rx[..Count(n)];
      rx := rx[Count(n)..];
    }

    /** `write(packet)` of the port. */
    method Write(packet: seq<byte>)
      modifies this`tx
      ensures tx == old(tx) + packet
    {
      tx := tx + packet;
    }

    /**
     * The body `send` and `send_echo` share: the header with the length `|payload| + 7`,
     * the payload, and the CRC computed with the CRC byte 0. `struct.pack` refuses a
     * length above 65535, and then nothing is written.
     */
    method SendFrame(cmd: byte, payload: seq<byte>) returns (ok: bool)
      modifies this`tx
      ensures ok <==> |payload| + OVERHEAD < 0x10000
      ensures tx == old(tx) + (if ok then Frame(cmd, payload) else [])
    {
      var len := |payload| + OVERHEAD;
      if len >= 0x10000 {
        return false;
      }
      var header := [START, HighByte(len), LowByte(len), VERSION, cmd];
      var crc := PyCrc.ComputeCrc(header + payload + [0, END]);
      FromValueOfValue(Crc(header + payload + [0, END]));
      Write(header + payload + [FromValue(crc), END]);
      ok := true;
    }

    /** `send`: a data frame. */
    method Send(payload: seq<byte>) returns (ok: bool)
      modifies this`tx
      ensures ok <==> |payload| + OVERHEAD < 0x10000
      ensures tx == old(tx) + (if ok then Frame(CMD_DATA, payload) else [])
    {
      ok := SendFrame(CMD_DATA, payload);
    }

    /** `send_echo`: an echo request. */
    method SendEcho(payload: seq<byte>) returns (ok: bool)
      modifies this`tx
      ensures ok <==> |payload| + OVERHEAD < 0x10000
      ensures tx == old(tx) + (if ok then Frame(CMD_ECHO, payload) else [])
    {
      ok := SendFrame(CMD_ECHO, payload);
    }

    /** The body `send_open`, `send_close` and `test` share: a frame with no payload. */
    method SendEmpty(cmd: byte)
      modifies this`tx
      ensures tx == old(tx) + Frame(cmd, [])
    {
      var header := [START, HighByte(OVERHEAD), LowByte(OVERHEAD), VERSION, cmd];
      var crc := PyCrc.ComputeCrc(header + [0, END]);
      assert header + [0, END] == Unsealed(cmd, []);
      FromValueOfValue(Crc(Unsealed(cmd, [])));
      assert Frame(cmd, []) == header + [Crc(Unsealed(cmd, [])), END];
      Write(header + [FromValue(crc), END]);
    }

    /** `send_open`, also what `connect` sends once the port is open. */
    method SendOpen()
      modifies this`tx
      ensures tx == old(tx) + OpenFrame()
    {
      SendEmpty(CMD_OPEN);
      EmptyFrames();
    }

    /** `send_close`, also what `disconnect` sends before closing the port. */
    method SendClose()
      modifies this`tx
      ensures tx == old(tx) + CloseFrame()
    {
      SendEmpty(CMD_CLOSE);
      EmptyFrames();
    }

    /** The frame `test` sends before it starts receiving. */
    method SendTest()
      modifies this`tx
      ensures tx == old(tx) + TestFrame()
    {
      SendEmpty(CMD_TEST);
      EmptyFrames();
    }

    /**
     * `send_ack`: the header of an 8-byte 'a' frame, the code, and the CRC computed over
     * the header and `[code, 0, 0xBB]`: the firmware's acknowledgement of the same code.
     */
    method SendAck(e: ErrorCode)
      modifies this`tx
      ensures tx == old(tx) + AckFrame(e)
    {
      var header := Header(CMD_ACK, 8);
      EightByteHeader(CMD_ACK);
      var crc := PyCrc.ComputeCrc(header + [Code(e), 0, END]);
      AckIsFrame(e);
      FromValueOfValue(Crc(header + [Code(e), 0, END]));
      assert FromValue(crc) == AckCrc(e);
      assert header + [Code(e), FromValue(crc), END] == AckFrame(e);
      Write(header + [Code(e), FromValue(crc), END]);
    }

    /** The `match` of `receive`. A payload read by `receive` is at most 65528 bytes long. */
    method Dispatch(cmd: byte, payload: seq<byte>) returns (answer: seq<byte>)
      requires |payload| + OVERHEAD < 0x10000
      modifies this`tx
      ensures tx == old(tx) + Response(cmd, payload).sent
      ensures answer == Response(cmd, payload).answer
    {
      if cmd == CMD_ACK {
        if payload == [0] {
          answer := SUCCESS;
        } else if payload == [1] {
          answer := CRC_INCORRECT;
        } else if payload == [2] {
          answer := VERSION_INCORRECT;
        } else if payload == [3] {
          answer := ENDING_MISSING;
        } else if payload == [4] {
          answer := TYPE_UNKNOWN;
        } else if payload == [5] {
          answer := CONNECTION_OPENED;
        } else if payload == [6] {
          answer := CONNECTION_CLOSED;
        } else {
          answer := UNKNOWN_ACK + payload;
        }
      } else if cmd == CMD_DATA {
        answer := payload;
      } else if cmd == CMD_OPEN {
        SendOpen();
        answer := OPEN;
      } else if cmd == CMD_CLOSE {
        SendClose();
        answer := CLOSE;
      } else if cmd == CMD_ECHO {
        var _ := Send(payload);
        answer := ECHO;
      } else {
        SendAck(TypeError);
        answer := UNKNOWN_TYPE + [cmd];
      }
    }

    /** `read(n)` of the next `n` bytes of the packet `g`, followed on the port by `r`. */
    method ReadField(n: int, ghost g: seq<byte>, ghost r: seq<byte>, ghost i: nat) returns (b: seq<byte>)
      requires i + Count(n) <= |g| && rx == g[i..] + r
      modifies this`rx
      ensures b == g[i..i + Count(n)] && rx == g[i + Count(n)..] + r
    {
      b := Read(n);
      Skip(g, r, i, i + Count(n));
    }

    /** The start-marker loop: reads up to and including the first 0xAA. */
    method SkipToStart() returns (start: seq<byte>)
      requires SyncLength(rx) < |rx|
      modifies this`rx
      ensures start == [START] && rx == old(rx)[SyncLength(old(rx)) + 1..]
    {
      ghost var s := rx;
      ghost var k := SyncLength(s);
      SyncSkipsNoStart(s);
      start := Read(1);
      ghost var i := 1;
      while start != [START]
        invariant 1 <= i <= k + 1 && rx == s[i..] && start == [s[i - 1]]
        decreases k + 1 - i
      {
        start := Read(1);
        i := i + 1;
      }
    }

    /** The length field and the version byte; a wrong version is acknowledged. */
    method ReadHeader(ghost g: seq<byte>, ghost r: seq<byte>) returns (lengthBytes: seq<byte>, version: seq<byte>)
      requires |g| >= OVERHEAD && rx == g[1..] + r
      modifies this`rx, this`tx
      ensures lengthBytes == g[1..3] && version == g[3..4] && rx == g[4..] + r
      ensures tx == old(tx) + (if g[3] != VERSION then AckFrame(VersionError) else [])
    {
      lengthBytes := ReadField(2, g, r, 1);
      version := ReadField(1, g, r, 3);
      if version != [VERSION] {
        SendAck(VersionError);
      }
    }

    /** The CRC check: computed over the fields read, with the CRC byte 0 and the end byte 0xBB. */
    method CheckCrc(fields: seq<byte>, received: seq<byte>, ghost g: seq<byte>)
      requires |g| >= OVERHEAD && fields == g[..|g| - 2] && received == [g[|g| - 2]]
      modifies this`tx
      ensures tx == old(tx) + (if g[|g| - 2] != Computed(g) then AckFrame(CrcError) else [])
    {
      var computed := PyCrc.ComputeCrc(fields + [0, END]);
      FromValueOfValue(Computed(g));
      if received != [FromValue(computed)] {
        SendAck(CrcError);
      }
    }

    /** The end byte; a wrong one is acknowledged. */
    method ReadEnd(ghost g: seq<byte>, ghost r: seq<byte>)
      requires |g| >= OVERHEAD && rx == g[|g| - 1..] + r
      modifies this`rx, this`tx
      ensures rx == r
      ensures tx == old(tx) + (if g[|g| - 1] != END then AckFrame(EndingError) else [])
    {
      var end := ReadField(1, g, r, |g| - 1);
      if end != [END] {
        SendAck(EndingError);
      }
    }

    /** Reads the packet `g` after its start marker and makes the three checks. */
    method ReadChecked(ghost g: seq<byte>, ghost r: seq<byte>) returns (mtype: seq<byte>, payload: seq<byte>)
      requires |g| >= OVERHEAD && g[0] == START && Span(Declared(g[1], g[2])) == |g|
      requires rx == g[1..] + r
      modifies this`rx, this`tx
      ensures rx == r && mtype == [g[4]] && payload == Payload(g)
      ensures tx == old(tx) + Acks(Checks(g))
    {
      var start := [START];
      var lengthBytes, version := ReadHeader(g, r);
      ghost var t0 := tx;
      var len := Declared(lengthBytes[0], lengthBytes[1]);
      mtype := ReadField(1, g, r, 4);
      payload := ReadField(len - OVERHEAD, g, r, 5);
      var received := ReadField(1, g, r, |g| - 2);
      Pieces(g, start, lengthBytes, version, mtype, payload);
      CheckCrc(start + lengthBytes + version + mtype + payload, received, g);
      ghost var t1 := tx;
      ReadEnd(g, r);
      AcksOfChecks(g);
      Regroup(old(tx), t0[|old(tx)|..], t1[|t0|..], tx[|t1|..]);
    }

    /**
     * `receive`: finds the start marker, reads the packet as its length field counts it,
     * acknowledges a wrong version, CRC or end byte in that order, and answers by the
     * message type.
     */
    method Receive() returns (answer: seq<byte>)
      requires Receivable(rx)
      modifies this`rx, this`tx
      ensures rx == Rest(old(rx))
      ensures tx == old(tx) + Handle(Packet(old(rx))).sent
      ensures answer == Handle(Packet(old(rx))).answer
    {
      ghost var s := rx;
      ghost var g := Packet(s);
      ghost var r := Rest(s);
      Found(s);
      var _ := SkipToStart();
      var mtype, payload := ReadChecked(g, r);
      answer := Dispatch(mtype[0], payload);
      Associate(old(tx), Acks(Checks(g)), Response(g[4], Payload(g)).sent);
    }

    /**
     * `test`: sends a test frame and then receives 100 packets, returning the 100 values
     * `receive` returned (protocol.py prints them).
     */
    method Test() returns (answers: seq<seq<byte>>)
      requires Holds(rx, 100)
      modifies this`rx, this`tx
      ensures tx == old(tx) + TestFrame() + SentBy(old(rx), 100)
      ensures answers == AnswersTo(old(rx), 100) && rx == After(old(rx), 100)
    {
      SendTest();
      answers := ReceiveMany(100);
    }

    /** `n` calls of `receive`, one after the other, and the values they return. */
    method ReceiveMany(n: nat) returns (answers: seq<seq<byte>>)
      requires Holds(rx, n)
      modifies this`rx, this`tx
      ensures tx == old(tx) + SentBy(old(rx), n)
      ensures answers == AnswersTo(old(rx), n) && rx == After(old(rx), n)
    {
      ghost var sent, returned, left := old(tx) + SentBy(rx, n), AnswersTo(rx, n), After(rx, n);
      answers := [];
      for i := 0 to n
        invariant Holds(rx, n - i) && After(rx, n - i) == left
        invariant tx + SentBy(rx, n - i) == sent && answers + AnswersTo(rx, n - i) == returned
      {
        answers := ReceiveNext(n - i, sent, returned, left, answers);
      }
      Units(tx);
      Units(answers);
    }

    /**
     * One call of `receive` in a run of them, with `k` calls to go: what has been written
     * and returned so far, followed by what the remaining calls write and return, stays the
     * same.
     */
    method ReceiveNext(ghost k: nat, ghost sent: seq<byte>, ghost returned: seq<seq<byte>>,
                       ghost left: seq<byte>, answers0: seq<seq<byte>>) returns (answers: seq<seq<byte>>)
      requires k > 0 && Holds(rx, k) && After(rx, k) == left
      requires tx + SentBy(rx, k) == sent && answers0 + AnswersTo(rx, k) == returned
      modifies this`rx, this`tx
      ensures Holds(rx, k - 1) && After(rx, k - 1) == left
      ensures tx + SentBy(rx, k - 1) == sent && answers + AnswersTo(rx, k - 1) == returned
    {
      ghost var s, t := rx, tx;
      var answer := Receive();
      StepPort(s, k, left);
      StepSent(s, k, t, sent);
      StepAnswers(s, k, answers0, returned);
      answers := answers0 + [answer];
    }
  }

  /** A run of `k > 0` calls of `receive` leaves the port as its first call and then the other `k - 1` do. */
  lemma StepPort(s: seq<byte>, k: nat, left: seq<byte>)
    requires k > 0 && Holds(s, k) && After(s, k) == left
    ensures Receivable(s) && Holds(Rest(s), k - 1) && After(Rest(s), k - 1) == left
  {
  }

  /** What a run of `k > 0` calls writes is what the first call writes, then the other `k - 1`. */
  lemma StepSent(s: seq<byte>, k: nat, t: seq<byte>, sent: seq<byte>)
    requires k > 0 && Holds(s, k) && t + SentBy(s, k) == sent
    ensures Receivable(s) && Holds(Rest(s), k - 1)
    ensures t + Handle(Packet(s)).sent + SentBy(Rest(s), k - 1) == sent
  {
    Associate(t, Handle(Packet(s)).sent, SentBy(Rest(s), k - 1));
  }

  /** What a run of `k > 0` calls returns is what the first call returns, then the other `k - 1`. */
  lemma StepAnswers(s: seq<byte>, k: nat, answers0: seq<seq<byte>>, returned: seq<seq<byte>>)
    requires k > 0 && Holds(s, k) && answers0 + AnswersTo(s, k) == returned
    ensures Receivable(s) && Holds(Rest(s), k - 1)
    ensures answers0 + [Handle(Packet(s)).answer] + AnswersTo(Rest(s), k - 1) == returned
  {
    Associate(answers0, [Handle(Packet(s)).answer], AnswersTo(Rest(s), k - 1));
  }

  /** The first packet and what follows it make up the port after the discarded bytes. */
  lemma Found(s: seq<byte>)
    requires Receivable(s)
    ensures var g := Packet(s);
      s[SyncLength(s) + 1..] == g[1..] + Rest(s) &&
      g[0] == START && Span(Declared(g[1], g[2])) == |g|
  {
    var k := SyncLength(s);
    var g := Packet(s);
    assert g[1] == s[k + 1] && g[2] == s[k + 2];
    assert s[k + 1..] == g[1..] + Rest(s);
  }

  /** The fields `receive` reads, put back together, are the packet without its last two bytes. */
  lemma Pieces(g: seq<byte>, start: seq<byte>, lengthBytes: seq<byte>, version: seq<byte>,
               mtype: seq<byte>, payload: seq<byte>)
    requires |g| >= OVERHEAD && start == [START] && g[0] == START
    requires lengthBytes == g[1..3] && version == g[3..4] && mtype == g[4..5]
    requires payload == g[5..|g| - 2]
    ensures start + lengthBytes + version + mtype + payload == g[..|g| - 2]
  {
  }
}
