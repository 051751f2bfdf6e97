/**
 * What `receive` of protocol.py does with the frames the senders build, and how its
 * answers to acknowledgements tell the codes apart.
 */
module HostProperties {
  import opened Bytes
  import opened Crc8
  import opened Frames
  import opened Host

  /**
   * Receiving a frame sent after junk that holds no 0xAA: the host reads exactly the frame,
   * leaves the bytes after it, sends no acknowledgement and answers by the frame's command
   * and payload.
   */
  lemma RoundTrip(junk: seq<byte>, cmd: byte, payload: seq<byte>, rest: seq<byte>)
    requires forall i :: 0 <= i < |junk| ==> junk[i] != START
    requires |payload| + OVERHEAD < 0x10000
    ensures var s, f := junk + Frame(cmd, payload) + rest, Frame(cmd, payload);
      Receivable(s) && Packet(s) == f && Rest(s) == rest && Handle(f) == Response(cmd, payload)
  {
    var f := Frame(cmd, payload);
    FrameLength(cmd, payload);
    Found(junk, f, rest);
    FramePasses(cmd, payload);
    Units(Response(cmd, payload).sent);
  }

  /** A packet after junk that holds no 0xAA, whose length field counts it, is read whole. */
  lemma Found(junk: seq<byte>, f: seq<byte>, rest: seq<byte>)
    requires forall i :: 0 <= i < |junk| ==> junk[i] != START
    requires |f| >= OVERHEAD && f[0] == START && Declared(f[1], f[2]) == |f|
    ensures var s := junk + f + rest;
      Receivable(s) && Packet(s) == f && Rest(s) == rest
  {
    var s := junk + f + rest;
    assert s == junk + (f + rest);
    SyncOverJunk(junk, f + rest);
    var k := |junk|;
    assert s[k + 1] == f[1] && s[k + 2] == f[2];
    assert s[k..k + |f|] == f;
    assert s[k + |f|..] == rest;
  }

  /**
   * A length field below 7 makes `read(len - 7)` read nothing: the host then reads seven
   * bytes, the last two taken as the CRC and end bytes.
   */
  lemma ShortLength(s: seq<byte>)
    requires Receivable(s)
    requires Declared(s[SyncLength(s) + 1], s[SyncLength(s) + 2]) < OVERHEAD
    ensures |Packet(s)| == OVERHEAD && Payload(Packet(s)) == []
  {
  }

  /**
   * The answers to acknowledgements never coincide for different payloads: the seven codes
   * give seven different messages, none of which begins like "unknow ack: ".
   */
  lemma AckAnswerInjective(p: seq<byte>, q: seq<byte>)
    requires AckAnswer(p) == AckAnswer(q)
    ensures p == q
  {
    var a := AckAnswer(p);
    if IsCode(p) {
      Messages(p);
      if IsCode(q) {
        Messages(q);
      }
    } else if IsCode(q) {
      Messages(q);
    } else {
      assert p == a[|UNKNOWN_ACK|..] == q;
    }
  }

  /** The one-byte payloads 0 to 6: the codes of the acknowledgements. */
  predicate IsCode(p: seq<byte>) {
    |p| == 1 && p[0] < 7
  }

  /** The message of a code: it does not start with 'u', and it names the code. */
  lemma Messages(p: seq<byte>)
    requires IsCode(p)
    ensures var a := AckAnswer(p);
      |a| > 0 && a[0] != 0x75 &&
      (a == SUCCESS <==> p[0] == 0) && (a == CRC_INCORRECT <==> p[0] == 1) &&
      (a == VERSION_INCORRECT <==> p[0] == 2) && (a == ENDING_MISSING <==> p[0] == 3) &&
      (a == TYPE_UNKNOWN <==> p[0] == 4) && (a == CONNECTION_OPENED <==> p[0] == 5) &&
      (a == CONNECTION_CLOSED <==> p[0] == 6)
  {
    assert p == [p[0]];
    assert VERSION_INCORRECT[0] != CONNECTION_OPENED[0];
    assert VERSION_INCORRECT[0] != CONNECTION_CLOSED[0];
    assert CONNECTION_OPENED[11] != CONNECTION_CLOSED[11];
  }

  /**
   * An acknowledgement from the firmware is answered with the message of its code, and
   * nothing is sent back.
   */
  lemma AckAnswered(e: ErrorCode)
    ensures Handle(AckFrame(e)) == Reply([], AckAnswer([Code(e)]))
  {
    AckIsFrame(e);
    FramePasses(CMD_ACK, [Code(e)]);
  }
}
