/**
 * The checksum of the packet protocol: CRC-8 with polynomial 0x07 (x^8 + x^2 + x + 1),
 * initial value 0, no reflection and no final XOR, computed over 8-bit bytes exactly as
 * `compute_crc` in protocol.c does it.
 */
module Crc8 {
  import opened Bytes

  /** One step of the polynomial division: shift left by one and, when the bit shifted
      out was set, XOR in the polynomial 0x07 (all arithmetic truncated to 8 bits). */
  function Shift(crc: byte): byte {
    if crc & 0x80 != 0 then (crc << 1) ^ 0x07 else crc << 1
  }

  /** `k` steps of the polynomial division, as the inner loop performs them. */
  function Shifts(crc: byte, k: nat): byte {
    if k == 0 then crc else Shift(Shifts(crc, k - 1))
  }

  /** What the outer loop does with one data byte: XOR it in, then eight division steps. */
  function ByteStep(crc: byte, b: byte): byte {
    Shifts(crc ^ b, 8)
  }

  /** The register after feeding `data`, first byte first, into a register holding `crc`. */
  function CrcFrom(crc: byte, data: seq<byte>): byte
    decreases |data|
  {
    if |data| == 0 then crc else CrcFrom(ByteStep(crc, data[0]), data[1..])
  }

  /** The CRC-8 of a byte sequence: the register starts at 0 and is returned unchanged. */
  function Crc(data: seq<byte>): byte {
    CrcFrom(0, data)
  }

  /** `n` copies of `b`. */
  function Fill(b: byte, n: nat): (r: seq<byte>)
    ensures |r| == n && forall i :: 0 <= i < n ==> r[i] == b
  {
    seq(n, _ => b)
  }

  /** The inner loop's eight iterations written out. */
  lemma ShiftsEight(x: byte)
    ensures Shifts(x, 8) == Shift(Shift(Shift(Shift(Shift(Shift(Shift(Shift(x))))))))
  {
    assert Shifts(x, 1) == Shift(x);
    assert Shifts(x, 2) == Shift(Shift(x));
    assert Shifts(x, 3) == Shift(Shift(Shift(x)));
    assert Shifts(x, 4) == Shift(Shift(Shift(Shift(x))));
    assert Shifts(x, 5) == Shift(Shift(Shift(Shift(Shift(x)))));
    assert Shifts(x, 6) == Shift(Shift(Shift(Shift(Shift(Shift(x))))));
    assert Shifts(x, 7) == Shift(Shift(Shift(Shift(Shift(Shift(Shift(x)))))));
  }

  /** Feeding two pieces one after the other is feeding their concatenation. */
  lemma {:induction false} CrcAppend(crc: byte, a: seq<byte>, b: seq<byte>)
    ensures CrcFrom(crc, a + b) == CrcFrom(CrcFrom(crc, a), b)
    decreases |a|
  {
    if |a| == 0 {
      assert a + b == b;
    } else {
      assert (a + b)[1..] == a[1..] + b;
      CrcAppend(ByteStep(crc, a[0]), a[1..], b);
    }
  }

  /** Appending one byte performs one more step of the outer loop. */
  lemma CrcSnoc(crc: byte, a: seq<byte>, b: byte)
    ensures CrcFrom(crc, a + [b]) == ByteStep(CrcFrom(crc, a), b)
  {
    CrcAppend(crc, a, [b]);
  }

  /**
   * `compute_crc(data, len)`: the double loop of protocol.c over the first `len` bytes of
   * a buffer. It computes the CRC-8 of those bytes.
   */
  method ComputeCrc(data: array<byte>, len: nat) returns (crc: byte)
    requires len <= data.Length
    ensures crc == Crc(data[..len])
  {
    crc := 0;
    for i := 0 to len
      invariant crc == Crc(data[..i])
    {
      crc := crc ^ data[i];
      ghost var x := crc;
      for j := 0 to 8
        invariant crc == Shifts(x, j)
      {
        if crc & 0x80 != 0 {
          crc := (crc << 1) ^ 0x07;
        } else {
          crc := crc << 1;
        }
      }
      CrcSnoc(0, data[..i], data[i]);
      assert data[..i + 1] == data[..i] + [data[i]];
    }
  }

  /**
   * One more step of the outer loop, for a byte whose value is known: if the register
   * holds `c` after the first `i` bytes of `s` were fed into it from `c0`, and eight
   * division steps take `c ^ b` to `d`, then it holds `d` after the first `i + 1` bytes.
   */
  lemma NextByte(c0: byte, s: seq<byte>, i: nat, b: byte, c: byte, d: byte)
    requires i < |s| && s[i] == b && CrcFrom(c0, s[..i]) == c
    requires Shift(Shift(Shift(Shift(Shift(Shift(Shift(Shift(c ^ b)))))))) == d
    ensures CrcFrom(c0, s[..i + 1]) == d
  {
    ShiftsEight(c ^ b);
    assert s[..i + 1] == s[..i] + [b];
    CrcSnoc(c0, s[..i], b);
  }

  /** A register that holds 0 stays 0 on zero bytes: the CRC of any run of zeros is 0. */
  lemma {:induction false} ZerosKeepZero(n: nat)
    ensures Crc(Fill(0, n)) == 0
    decreases n
  {
    if n > 0 {
      ShiftsEight(0);
      assert Fill(0, n) == Fill(0, n - 1) + [0];
      ZerosKeepZero(n - 1);
      CrcSnoc(0, Fill(0, n - 1), 0);
    }
  }
  /**
   * One division step loses nothing: the shift drops the top bit, but the top bit decides
   * whether the low bit of the result is set by the polynomial 0x07.
   */
  lemma ShiftInjective(x: byte, y: byte)
    requires x != y
    ensures Shift(x) != Shift(y)
  {
  }

  /** Hence neither do `k` division steps. */
  lemma {:induction false} ShiftsInjective(x: byte, y: byte, k: nat)
    requires x != y
    ensures Shifts(x, k) != Shifts(y, k)
    decreases k
  {
    if k > 0 {
      ShiftsInjective(x, y, k - 1);
      ShiftInjective(Shifts(x, k - 1), Shifts(y, k - 1));
    }
  }

  /** Two registers that differ before a run of bytes still differ after it. */
  lemma {:induction false} CrcFromInjective(c: byte, d: byte, s: seq<byte>)
    requires c != d
    ensures CrcFrom(c, s) != CrcFrom(d, s)
    decreases |s|
  {
    if |s| > 0 {
      assert c ^ s[0] != d ^ s[0];
      ShiftsInjective(c ^ s[0], d ^ s[0], 8);
      CrcFromInjective(ByteStep(c, s[0]), ByteStep(d, s[0]), s[1..]);
    }
  }

  /** One step of the outer loop from the same register tells two different bytes apart. */
  lemma ByteStepInjective(c: byte, x: byte, y: byte)
    requires x != y
    ensures ByteStep(c, x) != ByteStep(c, y)
  {
    assert c ^ x != c ^ y;
    ShiftsInjective(c ^ x, c ^ y, 8);
  }

  /** Two runs that differ only in one byte, between a common prefix and suffix, differ in CRC. */
  lemma ChangedMiddle(crc: byte, before: seq<byte>, x: byte, y: byte, after: seq<byte>)
    requires x != y
    ensures CrcFrom(crc, before + [x] + after) != CrcFrom(crc, before + [y] + after)
  {
    CrcAppend(crc, before + [x], after);
    CrcAppend(crc, before + [y], after);
    CrcSnoc(crc, before, x);
    CrcSnoc(crc, before, y);
    var c := CrcFrom(crc, before);
    ByteStepInjective(c, x, y);
    CrcFromInjective(ByteStep(c, x), ByteStep(c, y), after);
  }

  /**
   * The CRC-8 detects every change confined to one byte: replacing the byte at `j` by any
   * other value changes the checksum, from whatever register the run starts.
   */
  lemma ChangedByteDetected(crc: byte, a: seq<byte>, j: nat, v: byte)
    requires j < |a| && v != a[j]
    ensures CrcFrom(crc, a[j := v]) != CrcFrom(crc, a)
  {
    assert a == a[..j] + [a[j]] + a[j + 1..];
    assert a[j := v] == a[..j] + [v] + a[j + 1..];
    ChangedMiddle(crc, a[..j], v, a[j], a[j + 1..]);
  }
}
