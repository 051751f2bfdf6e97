/**
 * The legacy host protocol of f.py: a 6-byte header of three big-endian 16-bit fields
 * (type 7, checksum, size = payload + 6) followed by the payload. The checksum is the
 * 16-bit complement of the sum of the big-endian 16-bit words of type, size and payload
 * (padded with a zero byte to an even length), the carries not folded back.
 */
module Legacy {
  import opened Frames

  /** An element of a Python `bytes` object: an integer from 0 to 255. */
  type octet = x: int | 0 <= x < 0x100

  /** The type field of every legacy packet. */
  const PACKET_TYPE: nat := 7
  /** The header: type, checksum and size, two bytes each. */
  const HEADER: nat := 6
  /** The type field as `struct.pack(">H", 7)` writes it. */
  const TYPE_FIELD: seq<octet> := [0, 7]

  /** `int.from_bytes` of two bytes in big-endian order. */
  function Word(hi: octet, lo: octet): (n: nat)
    ensures n < 0x10000
  {
    hi * 0x100 + lo
  }

  /** `struct.pack(">H", v)`: the two bytes whose word is `v`. */
  function Be16(v: nat): (b: seq<octet>)
    requires v < 0x10000
    ensures |b| == 2 && Word(b[0], b[1]) == v
  {
    [v / 0x100, v % 0x100]
  }

  /** The bytes `compute_checksum` sums: type, size and payload, padded to an even length. */
  function Summed(payload: seq<octet>): (b: seq<octet>)
    requires |payload| + HEADER < 0x10000
    ensures |b| % 2 == 0
  {
    var packet := TYPE_FIELD + Be16(|payload| + HEADER) + payload;
    if |packet| % 2 == 1 then packet + [0] else packet
  }

  /** The sum of the big-endian 16-bit words of `b`, without folding the carries. */
  function WordSum(b: seq<octet>): nat
    requires |b| % 2 == 0
  {
    if |b| == 0 then 0 else WordSum(b[..|b| - 2]) + Word(b[|b| - 2], b[|b| - 1])
  }

  /** `~x & 0xFFFF` on a Python integer: the low 16 bits of the two's complement `-x - 1`. */
  function Complement(x: int): int {
    (-x - 1) % 0x10000
  }

  /** The checksum of a payload, a 16-bit value (`PacketFields` gives it in closed form). */
  function Checksum(payload: seq<octet>): (c: int)
    requires |payload| + HEADER < 0x10000
    ensures 0 <= c < 0x10000
  {
    Complement(WordSum(Summed(payload)))
  }

  /**
   * The complement is 0xFFFF minus the sum modulo 2^16, so it is a 16-bit value and two
   * sums give the same checksum exactly when they agree modulo 2^16.
   */
  lemma ComplementValue(x: int, y: int)
    ensures Complement(x) == 0xFFFF - x % 0x10000
    ensures 0 <= Complement(x) < 0x10000
    ensures Complement(x) == Complement(y) <==> x % 0x10000 == y % 0x10000
  {
    var q: int := x / 0x10000;
    assert -x - 1 == 0x10000 * (-q - 1) + (0xFFFF - x % 0x10000);
    var r: int := y / 0x10000;
    assert -y - 1 == 0x10000 * (-r - 1) + (0xFFFF - y % 0x10000);
  }

  /** The packet `send` writes: type 7, the checksum, the size, then the payload. */
  function Packet(payload: seq<octet>): (p: seq<octet>)
    requires |payload| + HEADER < 0x10000
    ensures |p| == |payload| + HEADER
  {
    ComplementValue(WordSum(Summed(payload)), 0);
    TYPE_FIELD + Be16(Checksum(payload)) + Be16(|payload| + HEADER) + payload
  }

  /**
   * The fields of a sent packet: type 7, the checksum of the payload (a 16-bit value equal
   * to 0xFFFF minus the word sum modulo 2^16), the size `len(payload) + 6`, then the payload.
   */
  lemma PacketFields(payload: seq<octet>)
    requires |payload| + HEADER < 0x10000
    ensures var p := Packet(payload);
      Word(p[0], p[1]) == PACKET_TYPE && Word(p[2], p[3]) == Checksum(payload) &&
      Word(p[4], p[5]) == |payload| + HEADER && p[HEADER..] == payload &&
      Checksum(payload) == 0xFFFF - WordSum(Summed(payload)) % 0x10000
  {
    ComplementValue(WordSum(Summed(payload)), 0);
  }

  /** How many payload bytes `read(size - 6)` takes: none when `size` is below 6. */
  function PayloadCount(size: nat): nat {
    if size < HEADER then 0 else size - HEADER
  }

  /** The port holds a header, and the payload it announces when its type is 7. */
  predicate Readable(s: seq<octet>) {
    |s| >= HEADER &&
    (Word(s[0], s[1]) == PACKET_TYPE ==> HEADER + PayloadCount(Word(s[4], s[5])) <= |s|)
  }

  /** How many bytes `receive` takes off the port: only the header when the type is not 7. */
  function Consumed(s: seq<octet>): (n: nat)
    requires Readable(s)
    ensures HEADER <= n <= |s|
  {
    if Word(s[0], s[1]) != PACKET_TYPE then HEADER
    else HEADER + PayloadCount(Word(s[4], s[5]))
  }

  /** What `receive` returns: the payload, or nothing for a foreign type or a bad checksum. */
  function Decode(s: seq<octet>): (r: Option<seq<octet>>)
    requires Readable(s)
    ensures Word(s[0], s[1]) != PACKET_TYPE ==> r == None
    ensures r.Some? ==>
      |r.value| == PayloadCount(Word(s[4], s[5])) && Checksum(r.value) == Word(s[2], s[3])
  {
    if Word(s[0], s[1]) != PACKET_TYPE then None
    else
      var payload := s[HEADER..Consumed(s)];
      if Word(s[2], s[3]) != Checksum(payload) then None else Some(payload)
  }

  /**
   * `receive` gives back nothing when the type is not 7, and otherwise the payload exactly
   * when the checksum field is the checksum of the payload read.
   */
  lemma DecodeCases(s: seq<octet>)
    requires Readable(s)
    ensures Word(s[0], s[1]) != PACKET_TYPE ==> Decode(s) == None && Consumed(s) == HEADER
    ensures Word(s[0], s[1]) == PACKET_TYPE ==>
      var payload := s[HEADER..Consumed(s)];
      |payload| == PayloadCount(Word(s[4], s[5])) &&
      (Decode(s) == Some(payload) <==> Word(s[2], s[3]) == Checksum(payload)) &&
      (Decode(s) == None <==> Word(s[2], s[3]) != Checksum(payload))
  {
  }

  /** A packet `send` writes, followed by anything, is read back as its payload. */
  lemma RoundTrip(payload: seq<octet>, rest: seq<octet>)
    requires |payload| + HEADER < 0x10000
    ensures var s := Packet(payload) + rest;
      Readable(s) && Consumed(s) == |payload| + HEADER && Decode(s) == Some(payload) &&
      s[Consumed(s)..] == rest
  {
    var s := Packet(payload) + rest;
    var p := Packet(payload);
    assert s[0] == p[0] && s[1] == p[1] && s[4] == p[4] && s[5] == p[5];
    assert s[2] == p[2] && s[3] == p[3];
    assert s[HEADER..|payload| + HEADER] == payload;
    assert s[|payload| + HEADER..] == rest;
  }

  /**
   * The checksum catches any one corrupted 16-bit word of the summed bytes: changing a word
   * by less than 2^16 changes the sum modulo 2^16.
   */
  lemma OneWordChanged(b: seq<octet>, c: seq<octet>, i: nat)
    requires |b| == |c| && |b| % 2 == 0 && i < |b| / 2
    requires forall j :: 0 <= j < |b| && j / 2 != i ==> b[j] == c[j]
    requires Word(b[2 * i], b[2 * i + 1]) != Word(c[2 * i], c[2 * i + 1])
    ensures Complement(WordSum(b)) != Complement(WordSum(c))
  {
    SumDifference(b, c, i);
    ComplementValue(WordSum(b), WordSum(c));
    CloseSums(WordSum(b), WordSum(c));
  }

  /** Two different numbers less than 2^16 apart differ modulo 2^16. */
  lemma CloseSums(x: int, y: int)
    requires x != y && -0x10000 < x - y < 0x10000
    ensures x % 0x10000 != y % 0x10000
  {
    var qx, qy := x / 0x10000, y / 0x10000;
    assert x == 0x10000 * qx + x % 0x10000 && y == 0x10000 * qy + y % 0x10000;
    if qx > qy {
      assert 0x10000 * qx >= 0x10000 * qy + 0x10000;
    } else if qx < qy {
      assert 0x10000 * qy >= 0x10000 * qx + 0x10000;
    }
  }

  /** Two even-length sequences that differ only in word `i` have sums differing by that word. */
  lemma {:induction false} SumDifference(b: seq<octet>, c: seq<octet>, i: nat)
    requires |b| == |c| && |b| % 2 == 0 && i < |b| / 2
    requires forall j :: 0 <= j < |b| && j / 2 != i ==> b[j] == c[j]
    ensures WordSum(b) - WordSum(c) ==
      Word(b[2 * i], b[2 * i + 1]) - Word(c[2 * i], c[2 * i + 1])
    decreases |b|
  {
    var n := |b|;
    if i == n / 2 - 1 {
      forall j | 0 <= j < n - 2
        ensures b[j] == c[j]
      {
        assert j / 2 < i;
      }
      assert b[..n - 2] == c[..n - 2];
    } else {
      assert (n - 1) / 2 != i && (n - 2) / 2 != i;
      assert b[n - 2] == c[n - 2] && b[n - 1] == c[n - 1];
      SumDifference(b[..n - 2], c[..n - 2], i);
    }
  }

  /** The loop of `compute_checksum`: the sum of the big-endian words of an even-length packet. */
  method SumWords(packet: seq<octet>) returns (total: nat)
    requires |packet| % 2 == 0
    ensures total == WordSum(packet)
  {
    total := 0;
    var i := 0;
    while i < |packet|
      invariant 0 <= i <= |packet| && i % 2 == 0
      invariant total == WordSum(packet[..i])
    {
      assert packet[..i + 2][..i] == packet[..i];
      total := total + Word(packet[i], packet[i + 1]);
      i := i + 2;
    }
    assert packet[..i] == packet;
  }

  /** `compute_checksum`, with `ok` false where `struct.pack` refuses a size above 65535. */
  method ComputeChecksum(payload: seq<octet>) returns (ok: bool, checksum: int)
    ensures ok <==> |payload| + HEADER < 0x10000
    ensures ok ==> checksum == Checksum(payload) && 0 <= checksum < 0x10000
  {
    var size := |payload| + HEADER;
    if size >= 0x10000 {
      return false, 0;
    }
    var packet := TYPE_FIELD + Be16(size) + payload;
    if |packet| % 2 == 1 {
      packet := packet + [0];
    }
    var total := SumWords(packet);
    checksum := Complement(total);
    ComplementValue(total, 0);
    ok := true;
  }

  class Link {
    /** The bytes the serial port has not delivered yet. */
    var rx: seq<octet>
    /** The bytes written to the serial port. */
    var tx: seq<octet>

    constructor(incoming: seq<octet>)
      ensures rx == incoming && tx == []
    {
      rx := incoming;
      tx := [];
    }

    /** `send`: nothing is written when the size does not fit the 16-bit field. */
    method Send(payload: seq<octet>) returns (ok: bool)
      modifies this`tx
      ensures ok <==> |payload| + HEADER < 0x10000
      ensures tx == old(tx) + (if ok then Packet(payload) else [])
    {
      var checksum;
      ok, checksum := ComputeChecksum(payload);
      if !ok {
        return;
      }
      tx := tx + TYPE_FIELD + Be16(checksum) + Be16(|payload| + HEADER) + payload;
    }

    /** `receive`: reads the header, then the payload only when the type is 7. */
    method Receive() returns (r: Option<seq<octet>>)
      requires Readable(rx)
      modifies this`rx
      ensures r == Decode(old(rx)) && rx == old(rx)[Consumed(old(rx))..]
    {
      var header := rx[..HEADER];
      rx := rx[HEADER..];
      var packetType, checksum, size :=
        Word(header[0], header[1]), Word(header[2], header[3]), Word(header[4], header[5]);
      if packetType != PACKET_TYPE {
        return None;
      }
      var payload := rx[..PayloadCount(size)];
      assert payload == old(rx)[HEADER..Consumed(old(rx))];
      rx := rx[PayloadCount(size)..];
      var ok, expected := ComputeChecksum(payload);
      assert ok;
      if checksum != expected {
        return None;
      }
      return Some(payload);
    }
  }
}
