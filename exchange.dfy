/**
 * The two sides talking to each other: what the firmware of protocol.c answers to the
 * frames protocol.py sends, and what protocol.py makes of those answers.
 */
module Exchange {
  import opened Bytes
  import opened Crc8
  import opened Frames
  import Firmware
  import Host
  import ReceiveProperties
  import HostProperties

  /**
   * An echo request from the host comes back as a data frame with the same payload, which
   * the host returns: `receive` after `send_echo(p)` gives `p`.
   */
  lemma Echo(payload: seq<byte>, connected: bool)
    requires |payload| + OVERHEAD < 0x10000
    ensures Firmware.Handle(connected, Frame(CMD_ECHO, payload)) ==
      Firmware.Reply(connected, Frame(CMD_DATA, payload), [])
    ensures Host.Handle(Frame(CMD_DATA, payload)) == Host.Reply([], payload)
  {
    ReceiveProperties.EchoAnswered(payload, connected);
    FramePasses(CMD_DATA, payload);
    Units(Host.Response(CMD_DATA, payload).sent);
  }

  /**
   * `connect` of the host on a disconnected device: the device connects and sends an open
   * frame back; the host answers it "open" and sends another open frame, which the
   * now-connected device acknowledges with OPENED, and the host answers
   * "connection opened".
   */
  lemma Handshake()
    ensures Firmware.Handle(false, OpenFrame()) == Firmware.Reply(true, OpenFrame(), [])
    ensures Host.Handle(OpenFrame()) == Host.Reply(OpenFrame(), Host.OPEN)
    ensures Firmware.Handle(true, OpenFrame()) == Firmware.Reply(true, AckFrame(Opened), [])
    ensures Host.Handle(AckFrame(Opened)) == Host.Reply([], Host.CONNECTION_OPENED)
  {
    EmptyFrames();
    ReceiveProperties.ConnectionTable([], false);
    ReceiveProperties.ConnectionTable([], true);
    FramePasses(CMD_OPEN, []);
    Units(OpenFrame());
    HostProperties.AckAnswered(Opened);
    HostProperties.Messages([Code(Opened)]);
  }

  /**
   * `disconnect` of the host on a connected device: the device disconnects and sends a
   * close frame back; the host answers it "close" and sends another close frame, which the
   * now-disconnected device acknowledges with CLOSED, and the host answers
   * "connection closed".
   */
  lemma Goodbye()
    ensures Firmware.Handle(true, CloseFrame()) == Firmware.Reply(false, CloseFrame(), [])
    ensures Host.Handle(CloseFrame()) == Host.Reply(CloseFrame(), Host.CLOSE)
    ensures Firmware.Handle(false, CloseFrame()) == Firmware.Reply(false, AckFrame(Closed), [])
    ensures Host.Handle(AckFrame(Closed)) == Host.Reply([], Host.CONNECTION_CLOSED)
  {
    EmptyFrames();
    ReceiveProperties.ConnectionTable([], true);
    ReceiveProperties.ConnectionTable([], false);
    FramePasses(CMD_CLOSE, []);
    Units(CloseFrame());
    HostProperties.AckAnswered(Closed);
    HostProperties.Messages([Code(Closed)]);
  }

  /**
   * Acknowledgements go both ways with the same bytes, but only the host reads the code:
   * it tells every code apart, while the firmware reports every acknowledgement as a
   * success.
   */
  lemma AckReading(e: ErrorCode, connected: bool)
    ensures Firmware.Handle(connected, AckFrame(e)) ==
      Firmware.Reply(connected, [], [Firmware.AckSuccess])
    ensures Host.Handle(AckFrame(e)) == Host.Reply([], Host.AckAnswer([Code(e)]))
  {
    AckIsFrame(e);
    ReceiveProperties.AcksReadAsSuccess(Code(e), connected);
    HostProperties.AckAnswered(e);
  }

  /**
   * The host's `test` frame passes every check and reaches the 't' case of the `switch`,
   * which itself sends nothing and leaves the flag alone: it hands over to `run_tests`
   * (the `TestsRun` event). The result frames the host then waits for are sent by
   * `run_tests`, which is not part of this model.
   */
  lemma TestFrameRunsTests(connected: bool)
    ensures Firmware.Handle(connected, TestFrame()) ==
      Firmware.Reply(connected, [], [Firmware.TestsRun])
  {
    EmptyFrames();
    ReceiveProperties.FrameChecks(CMD_TEST, []);
  }
}
