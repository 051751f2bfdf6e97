/**
 * What `protocol_receive` does with the frames the senders build: a frame after any run of
 * bytes other than 0xAA is found, passes all three checks and reaches the `switch` with its
 * command and payload; a frame with a corrupted field is acknowledged with the matching
 * error code and is dispatched all the same.
 */
module ReceiveProperties {
  import opened Bytes
  import opened Crc8
  import opened Frames
  import opened Firmware

  /** A frame passes the version, CRC and end-marker checks. */
  lemma FrameChecks(cmd: byte, payload: seq<byte>)
    ensures var f := Frame(cmd, payload);
      Checks(f) == [] && Reports(f) == [] && Payload(f) == payload && f[4] == cmd
  {
    FramePasses(cmd, payload);
  }

  /** A packet after junk that holds no 0xAA is the first packet of the input. */
  lemma FoundAfterJunk(junk: seq<byte>, f: seq<byte>, rest: seq<byte>)
    requires forall i :: 0 <= i < |junk| ==> junk[i] != START
    requires |f| >= OVERHEAD && f[0] == START && Declared(f[1], f[2]) == |f|
    ensures var s := junk + f + rest;
      Receivable(s) && Packet(s) == f && Rest(s) == rest && DeclaredLength(s) == |f|
  {
    var s := junk + f + rest;
    assert s == junk + (f + rest);
    SyncOverJunk(junk, f + rest);
    var k := |junk|;
    assert s[k + 1] == f[1] && s[k + 2] == f[2];
    assert s[k..k + |f|] == f;
    assert s[k + |f|..] == rest;
  }

  /**
   * Receiving a frame sent after junk that holds no 0xAA: the receiver returns the frame's
   * length, leaves exactly the bytes after the frame, sends no acknowledgement and reports
   * nothing, and dispatches on the frame's command with its payload.
   */
  lemma RoundTrip(junk: seq<byte>, cmd: byte, payload: seq<byte>, rest: seq<byte>, connected: bool)
    requires forall i :: 0 <= i < |junk| ==> junk[i] != START
    requires |payload| + OVERHEAD < 0x10000
    ensures var s, f := junk + Frame(cmd, payload) + rest, Frame(cmd, payload);
      Receivable(s) && Packet(s) == f && Rest(s) == rest &&
      DeclaredLength(s) == |payload| + OVERHEAD &&
      Handle(connected, f) == Response(connected, cmd, Probe(f), payload)
  {
    var f := Frame(cmd, payload);
    assert Handle(connected, f) == Response(connected, cmd, Probe(f), payload) by {
      FrameChecks(cmd, payload);
    }
    FrameLength(cmd, payload);
    FoundAfterJunk(junk, f, rest);
  }

  /** An echo request is answered with a data frame carrying the same payload, and nothing else. */
  lemma EchoAnswered(payload: seq<byte>, connected: bool)
    ensures Handle(connected, Frame(CMD_ECHO, payload)) ==
      Reply(connected, Frame(CMD_DATA, payload), [])
  {
    FrameChecks(CMD_ECHO, payload);
  }

  /** A data frame is printed and answered with nothing. */
  lemma DataPrinted(payload: seq<byte>, connected: bool)
    ensures Handle(connected, Frame(CMD_DATA, payload)) ==
      Reply(connected, [], [Printed(payload)])
  {
    FrameChecks(CMD_DATA, payload);
  }

  /**
   * An acknowledgement frame, as `protocol_send_ack` builds it, is reported as a success
   * whatever its code: the byte the `switch` inspects is the CRC slot, which the receiver
   * has set to 0, not the code.
   */
  lemma AcksReadAsSuccess(code: byte, connected: bool)
    ensures Handle(connected, Frame(CMD_ACK, [code])) == Reply(connected, [], [AckSuccess])
  {
    FrameChecks(CMD_ACK, [code]);
  }

  /**
   * The connection table for a well-formed 'o' or 'c' frame with any payload: opening while
   * connected is acknowledged with OPENED, opening while disconnected connects and sends an
   * open frame; closing while connected disconnects and sends a close frame, closing while
   * disconnected is acknowledged with CLOSED.
   */
  lemma ConnectionTable(payload: seq<byte>, connected: bool)
    ensures Handle(connected, Frame(CMD_OPEN, payload)) ==
      if connected then Reply(true, AckFrame(Opened), []) else Reply(true, OpenFrame(), [])
    ensures Handle(connected, Frame(CMD_CLOSE, payload)) ==
      if connected then Reply(false, CloseFrame(), []) else Reply(false, AckFrame(Closed), [])
  {
    FrameChecks(CMD_OPEN, payload);
    FrameChecks(CMD_CLOSE, payload);
  }

  /** A well-formed frame with a command the `switch` does not know is acknowledged with TYPE. */
  lemma UnknownCommand(cmd: byte, payload: seq<byte>, connected: bool)
    requires cmd !in {CMD_ACK, CMD_DATA, CMD_OPEN, CMD_CLOSE, CMD_ECHO, CMD_TEST}
    ensures Handle(connected, Frame(cmd, payload)) ==
      Reply(connected, AckFrame(TypeError), [WrongType])
  {
    FrameChecks(cmd, payload);
  }

  /**
   * A frame whose end byte is replaced: only the end-marker check fails (the CRC is computed
   * with 0xBB in the end slot), it is acknowledged with ENDING, and the frame is still
   * dispatched on its command and payload.
   */
  lemma CorruptEnding(cmd: byte, payload: seq<byte>, x: byte, connected: bool)
    requires x != END
    ensures var f := Put(Frame(cmd, payload), |payload| + 6, x);
      Checks(f) == [EndingError] && Reports(f) == [WrongEnding(x)] &&
      Handle(connected, f).sent ==
        AckFrame(EndingError) + Response(connected, cmd, Probe(f), payload).sent
  {
    var g := Frame(cmd, payload);
    var f := Put(g, |payload| + 6, x);
    FrameLayout(cmd, payload);
    Unseal(cmd, payload);
    assert f[..|f| - 2] == g[..|g| - 2];
    assert Payload(f) == payload;
    AcksOfOne(EndingError);
  }

  /**
   * A frame whose CRC byte is replaced by a wrong value: only the CRC check fails, it is
   * acknowledged with CRC and reported with both values, and the frame is still dispatched.
   */
  lemma CorruptCrc(cmd: byte, payload: seq<byte>, x: byte, connected: bool)
    requires x != Crc(Unsealed(cmd, payload))
    ensures var f := Put(Frame(cmd, payload), CrcSlot(|payload|), x);
      Checks(f) == [CrcError] && Reports(f) == [WrongCrc(x, Crc(Unsealed(cmd, payload)))] &&
      Handle(connected, f).sent ==
        AckFrame(CrcError) + Response(connected, cmd, Probe(f), payload).sent
  {
    var g := Frame(cmd, payload);
    var f := Put(g, CrcSlot(|payload|), x);
    FrameLayout(cmd, payload);
    Unseal(cmd, payload);
    assert f[..|f| - 2] == g[..|g| - 2];
    assert Payload(f) == payload;
    AcksOfOne(CrcError);
  }

  /**
   * A frame with one payload byte changed after it was sealed is, on the receiver's side,
   * the unsealed frame of the changed payload with the original CRC stored in its slot.
   */
  lemma ChangedPayloadLayout(cmd: byte, payload: seq<byte>, j: nat, v: byte)
    requires j < |payload|
    ensures var f, g := Put(Frame(cmd, payload), 5 + j, v), Frame(cmd, payload);
      f[0] == START && f[1] == g[1] && f[2] == g[2] && f[3] == VERSION && f[4] == cmd &&
      Payload(f) == payload[j := v] && f[|f| - 1] == END &&
      f[|f| - 2] == Crc(Unsealed(cmd, payload)) &&
      f[..|f| - 2] + [0, END] == Unsealed(cmd, payload[j := v])
  {
    var g := Frame(cmd, payload);
    var f := Put(g, 5 + j, v);
    var h := Header(cmd, |payload| + OVERHEAD);
    assert g == h + payload + [Crc(Unsealed(cmd, payload)), END];
    assert f == h + payload[j := v] + [Crc(Unsealed(cmd, payload)), END];
    assert f[..|f| - 2] == h + payload[j := v];
    assert |payload[j := v]| + OVERHEAD == |payload| + OVERHEAD;
    assert Unsealed(cmd, payload[j := v]) == h + payload[j := v] + [0, END];
  }

  /** Changing one payload byte of a frame fails the CRC check and that check alone. */
  lemma ChangedPayloadChecks(cmd: byte, payload: seq<byte>, j: nat, v: byte)
    requires j < |payload| && v != payload[j]
    ensures var f := Put(Frame(cmd, payload), 5 + j, v);
      Checks(f) == [CrcError] &&
      Reports(f) == [WrongCrc(Crc(Unsealed(cmd, payload)), Crc(Unsealed(cmd, payload[j := v])))]
  {
    var f := Put(Frame(cmd, payload), 5 + j, v);
    ChangedPayloadLayout(cmd, payload, j, v);
    var u := Unsealed(cmd, payload);
    assert Unsealed(cmd, payload[j := v]) == u[5 + j := v];
    ChangedByteDetected(0, u, 5 + j, v);
  }

  /**
   * A frame with one payload byte changed in transit, sent after junk that holds no 0xAA:
   * the CRC-8 catches the change, so only the CRC check fails; the receiver acknowledges
   * with CRC, reports the stored and the recomputed CRC, dispatches the frame on its
   * command with the changed payload, and still returns the declared length.
   */
  lemma CorruptPayload(junk: seq<byte>, cmd: byte, payload: seq<byte>, j: nat, v: byte,
                       rest: seq<byte>, connected: bool)
    requires forall i :: 0 <= i < |junk| ==> junk[i] != START
    requires |payload| + OVERHEAD < 0x10000
    requires j < |payload| && v != payload[j]
    ensures var f := Put(Frame(cmd, payload), 5 + j, v);
      var s := junk + f + rest;
      Receivable(s) && Packet(s) == f && Rest(s) == rest &&
      DeclaredLength(s) == |payload| + OVERHEAD &&
      Checks(f) == [CrcError] &&
      Reports(f) == [WrongCrc(Crc(Unsealed(cmd, payload)), Crc(Unsealed(cmd, payload[j := v])))] &&
      Handle(connected, f).sent ==
        AckFrame(CrcError) + Response(connected, cmd, Probe(f), payload[j := v]).sent
  {
    var f := Put(Frame(cmd, payload), 5 + j, v);
    ChangedPayloadLayout(cmd, payload, j, v);
    ChangedPayloadChecks(cmd, payload, j, v);
    AcksOfOne(CrcError);
    FrameLength(cmd, payload);
    FoundAfterJunk(junk, f, rest);
  }

  /**
   * Replacing the version byte of a frame fails the version check, and the CRC check too:
   * the version byte is covered by the CRC, and the CRC-8 catches a change to one byte.
   */
  lemma VersionChangedChecks(cmd: byte, payload: seq<byte>, v: byte)
    requires v != VERSION
    ensures var f, u := Put(Frame(cmd, payload), 3, v), Unsealed(cmd, payload);
      Payload(f) == payload && f[4] == cmd &&
      Checks(f) == [VersionError, CrcError] &&
      Reports(f) == [WrongVersion, WrongCrc(Crc(u), Crc(u[3 := v]))]
  {
    var g := Frame(cmd, payload);
    var f := Put(g, 3, v);
    var u := Unsealed(cmd, payload);
    var h := Header(cmd, |payload| + OVERHEAD);
    assert g == h + payload + [Crc(u), END];
    assert f == h[3 := v] + payload + [Crc(u), END];
    assert f[..|f| - 2] == h[3 := v] + payload;
    assert u[3 := v] == h[3 := v] + payload + [0, END];
    assert Payload(f) == payload;
    ChangedByteDetected(0, u, 3, v);
  }

  /**
   * A frame whose version byte is replaced fails the version check and then the CRC check,
   * so it is acknowledged with VERSION and then CRC, reported with both, and dispatched on
   * its command and payload after the acknowledgements.
   */
  lemma CorruptVersion(cmd: byte, payload: seq<byte>, v: byte, connected: bool)
    requires v != VERSION
    ensures var f, u := Put(Frame(cmd, payload), 3, v), Unsealed(cmd, payload);
      Checks(f) == [VersionError, CrcError] &&
      Reports(f) == [WrongVersion, WrongCrc(Crc(u), Crc(u[3 := v]))] &&
      1 <= |Checks(f)| && Checks(f)[0] == VersionError && Reports(f)[0] == WrongVersion &&
      Handle(connected, f).sent ==
        AckFrame(VersionError) + AckFrame(CrcError) + Response(connected, cmd, Probe(f), payload).sent &&
      Handle(connected, f).sent ==
        Acks(Checks(f)) + Response(connected, cmd, Probe(f), payload).sent &&
      Handle(connected, f).sent[..8] == AckFrame(VersionError)
  {
    VersionChangedChecks(cmd, payload, v);
    AcksAppend([VersionError], [CrcError]);
    AcksOfOne(VersionError);
    AcksOfOne(CrcError);
    assert [VersionError] + [CrcError] == [VersionError, CrcError];
  }
}
