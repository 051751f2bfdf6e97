/**
 * The host-side CRC of protocol.py (`CustomProtocol.compute_crc`). Python integers are
 * unbounded, so the register is a `nat` that is shifted left without truncation; only
 * the returned value is masked with `& 0xFF`. The module proves that this masked value
 * is the 8-bit CRC of the firmware (module Crc8) for every input.
 */
module PyCrc {
  import opened Bytes
  import opened Crc8

  // ---------------------------------------------------------------------------------
  // Python's bitwise operators on non-negative integers

  /** Python's `a ^ b` on non-negative integers, bit by bit from the lowest bit. */
  function Xor(a: nat, b: nat): nat
    decreases a + b
  {
    if a == 0 && b == 0 then 0 else 2 * Xor(a / 2, b / 2) + (a + b) % 2
  }

  /** Python's `x & 0x80 != 0`: bit 7 of a non-negative integer is set. */
  predicate Bit7(x: nat) {
    (x / 0x80) % 2 == 1
  }

  function Pow2(k: nat): (p: nat)
    ensures p >= 1
  {
    if k == 0 then 1 else 2 * Pow2(k - 1)
  }

  // ---------------------------------------------------------------------------------
  // The Python routine

  /** One pass of the inner loop: `crc = (crc << 1) ^ 0x07` if bit 7 is set, else `crc <<= 1`. */
  function PyShift(crc: nat): nat {
    if Bit7(crc) then Xor(crc * 2, 0x07) else crc * 2
  }

  function PyShifts(crc: nat, k: nat): nat {
    if k == 0 then crc else PyShift(PyShifts(crc, k - 1))
  }

  /** One pass of the outer loop: `crc ^= byte`, then eight inner passes. */
  function PyByteStep(crc: nat, b: byte): nat {
    PyShifts(Xor(crc, Value(b)), 8)
  }

  /** The unmasked register after feeding `data` into a register holding `crc`. */
  function PyCrcFrom(crc: nat, data: seq<byte>): nat
    decreases |data|
  {
    if |data| == 0 then crc else PyCrcFrom(PyByteStep(crc, data[0]), data[1..])
  }

  lemma {:induction false} PyCrcSnoc(crc: nat, a: seq<byte>, b: byte)
    ensures PyCrcFrom(crc, a + [b]) == PyByteStep(PyCrcFrom(crc, a), b)
    decreases |a|
  {
    if |a| == 0 {
      assert a + [b] == [b];
    } else {
      assert (a + [b])[1..] == a[1..] + [b];
      PyCrcSnoc(PyByteStep(crc, a[0]), a[1..], b);
    }
  }

  /**
   * `compute_crc(data)` of protocol.py: the same double loop as the firmware's, on an
   * unbounded integer, with `& 0xFF` applied to the result. It returns the firmware's
   * 8-bit CRC of `data`.
   */
  method ComputeCrc(data: seq<byte>) returns (r: nat)
    ensures r == Value(Crc(data))
    ensures r == PyCrcFrom(0, data) % 0x100
  {
    var crc: nat := 0;
    for i := 0 to |data|
      invariant crc == PyCrcFrom(0, data[..i])
    {
      crc := Xor(crc, Value(data[i]));
      ghost var x := crc;
      for j := 0 to 8
        invariant crc == PyShifts(x, j)
      {
        if (crc / 0x80) % 2 == 1 {
          crc := Xor(crc * 2, 0x07);
        } else {
          crc := crc * 2;
        }
      }
      PyCrcSnoc(0, data[..i], data[i]);
      assert data[..i + 1] == data[..i] + [data[i]];
    }
    assert data[..|data|] == data;
    r := crc % 0x100;
    MaskedCrcAgrees(data);
  }

  // ---------------------------------------------------------------------------------
  // Integer arithmetic

  lemma {:induction false} MulAtLeast(n: int, d: int)
    requires n >= 1 && d >= 1
    ensures n * d >= n
    decreases d
  {
    if d > 1 {
      MulAtLeast(n, d - 1);
    }
  }

  /** Quotient and remainder are determined by `x == n * q + s` with `0 <= s < n`. */
  lemma DivModUnique(x: int, n: int, q: int, s: int)
    requires n >= 1 && 0 <= s < n && x == n * q + s
    ensures x % n == s && x / n == q
  {
    var d := x / n - q;
    assert n * d == s - x % n;
    if d >= 1 {
      MulAtLeast(n, d);
    }
    if d <= -1 {
      MulAtLeast(n, -d);
    }
  }

  lemma HalfMod(a: nat, n: nat)
    requires n >= 1
    ensures (a % (2 * n)) / 2 == (a / 2) % n
    ensures (a % (2 * n)) % 2 == a % 2
  {
    var q, r := a / (2 * n), a % (2 * n);
    assert a == (2 * n) * q + r;
    assert a == 2 * (n * q + r / 2) + r % 2;
    assert a / 2 == n * q + r / 2;
    DivModUnique(a / 2, n, q, r / 2);
  }

  lemma DoubleMod(x: nat, bit: nat, n: nat)
    requires n >= 1 && bit < 2
    ensures (2 * x + bit) % (2 * n) == 2 * (x % n) + bit
  {
    var q, r := x / n, x % n;
    assert x == n * q + r;
    assert 2 * x + bit == (2 * n) * q + (2 * r + bit);
    DivModUnique(2 * x + bit, 2 * n, q, 2 * r + bit);
  }

  lemma ParitySum(x: nat, y: nat)
    ensures (x + y) % 2 == (x % 2 + y % 2) % 2
  {
  }

  lemma XorUnfold(a: nat, b: nat)
    ensures Xor(a, b) == 2 * Xor(a / 2, b / 2) + (a + b) % 2
  {
  }

  /** The low `k` bits of a XOR depend only on the low `k` bits of its operands. */
  lemma {:induction false} XorMod(a: nat, b: nat, k: nat)
    ensures Xor(a, b) % Pow2(k) == Xor(a % Pow2(k), b % Pow2(k))
  {
    if k == 0 {
      assert Xor(0, 0) == 0;
    } else {
      var n := Pow2(k - 1);
      var N := Pow2(k);
      assert N == 2 * n;
      var x := Xor(a / 2, b / 2);
      var bit := (a + b) % 2;
      XorUnfold(a, b);
      DoubleMod(x, bit, n);
      assert Xor(a, b) % N == 2 * (x % n) + bit;
      XorMod(a / 2, b / 2, k - 1);
      assert x % n == Xor((a / 2) % n, (b / 2) % n);
      var a', b' := a % N, b % N;
      HalfMod(a, n);
      HalfMod(b, n);
      assert a' / 2 == (a / 2) % n && b' / 2 == (b / 2) % n;
      XorUnfold(a', b');
      ParitySum(a', b');
      ParitySum(a, b);
      assert (a' + b') % 2 == bit;
    }
  }

  lemma XorLowByte(a: nat, b: nat)
    ensures Xor(a, b) % 0x100 == Xor(a % 0x100, b % 0x100)
  {
    XorMod(a, b, 8);
    assert Pow2(8) == 0x100;
  }

  /** Bit 7 of `c` is bit 7 of its low byte. */
  lemma Bit7LowByte(c: nat)
    ensures Bit7(c) == (c % 0x100 >= 0x80)
  {
    var q, r := c / 0x100, c % 0x100;
    assert c == 0x80 * (2 * q + r / 0x80) + r % 0x80;
    DivModUnique(c, 0x80, 2 * q + r / 0x80, r % 0x80);
    DivModUnique(2 * q + r / 0x80, 2, q, r / 0x80);
  }

  lemma DoubleLowByte(c: nat)
    ensures (c * 2) % 0x100 == ((c % 0x100) * 2) % 0x100
  {
    var q, r := c / 0x100, c % 0x100;
    assert c * 2 == 0x100 * (2 * q + (r * 2) / 0x100) + (r * 2) % 0x100;
    DivModUnique(c * 2, 0x100, 2 * q + (r * 2) / 0x100, (r * 2) % 0x100);
  }

  // ---------------------------------------------------------------------------------
  // 8-bit facts, each kept to one operator

  lemma LowBitXor(u: byte, v: byte)
    ensures ((u ^ v) & 1 == 1) == ((u & 1 == 1) != (v & 1 == 1))
  {
  }

  lemma Parity(x: int, y: int, z: int, px: bool, py: bool, pz: bool)
    requires px == (x % 2 == 1) && py == (y % 2 == 1) && pz == (z % 2 == 1) && pz == (px != py)
    ensures z % 2 == (x + y) % 2
  {
  }

  lemma XorParity(u: byte, v: byte)
    ensures (u ^ v) as int % 2 == (u as int + v as int) % 2
  {
    var w := u ^ v;
    LowBitXor(u, v);
    LowBit(u);
    LowBit(v);
    LowBit(w);
    Parity(u as int, v as int, w as int, u & 1 == 1, v & 1 == 1, w & 1 == 1);
  }

  lemma HalfXor(u: byte, v: byte)
    ensures (u ^ v) >> 1 == (u >> 1) ^ (v >> 1)
  {
  }

  lemma Decompose(w: byte)
    ensures w as int == 2 * ((w >> 1) as int) + w as int % 2
  {
    Half(w);
  }

  lemma XorCombine(u: nat, v: nat, w: nat, h: nat)
    requires h == Xor(u / 2, v / 2) && w == 2 * h + w % 2 && w % 2 == (u + v) % 2
    ensures w == Xor(u, v)
  {
    XorUnfold(u, v);
  }

  lemma BvXorStep(u: byte, v: byte)
    ensures (u ^ v) as int == 2 * (((u >> 1) ^ (v >> 1)) as int) + (u ^ v) as int % 2
  {
    HalfXor(u, v);
    Decompose(u ^ v);
  }

  lemma BvXorRest(u: byte, v: byte)
    requires ((u >> 1) ^ (v >> 1)) as int == Xor((u >> 1) as int, (v >> 1) as int)
    ensures (u ^ v) as int == Xor(u as int, v as int)
  {
    Half(u);
    Half(v);
    BvXorStep(u, v);
    XorParity(u, v);
    XorCombine(u as int, v as int, (u ^ v) as int, ((u >> 1) ^ (v >> 1)) as int);
  }

  lemma HalfSmaller(u: byte, v: byte)
    requires u != 0 || v != 0
    ensures (u >> 1) as int + (v >> 1) as int < u as int + v as int
  {
    Half(u);
    Half(v);
  }

  /** On bytes, Python's `^` and the 8-bit `^` of C agree. */
  lemma {:induction false} BvXor(u: byte, v: byte)
    ensures (u ^ v) as int == Xor(u as int, v as int)
    decreases u as int + v as int
  {
    if u != 0 || v != 0 {
      HalfSmaller(u, v);
      BvXor(u >> 1, v >> 1);
      BvXorRest(u, v);
    }
  }

  lemma ShlByte(x: byte)
    ensures (x << 1) as int == (x as int * 2) % 0x100
  {
  }

  lemma TopBit(x: byte)
    ensures (x & 0x80 != 0) == (x as int >= 0x80)
  {
  }

  // ---------------------------------------------------------------------------------
  // The bridge from the unbounded register to the 8-bit one: `x` is always a byte whose
  // value is the low byte of the unbounded register `c`.

  lemma ByteRange(b: byte)
    ensures b as int < 0x100
  {
  }

  lemma ShiftOfSet(x: byte)
    requires x as int >= 0x80
    ensures Shift(x) == (x << 1) ^ 0x07
  {
    TopBit(x);
  }

  lemma ShiftOfClear(x: byte)
    requires x as int < 0x80
    ensures Shift(x) == x << 1
  {
    TopBit(x);
  }

  lemma XorGlue(c: nat, x: nat, b: nat, r: nat)
    requires x == c % 0x100 && b < 0x100 && r == Xor(x, b)
    ensures Xor(c, b) % 0x100 == r
  {
    XorLowByte(c, b);
  }

  lemma XorByteBridge(c: nat, x: byte, b: byte)
    requires x as int == c % 0x100
    ensures Xor(c, Value(b)) % 0x100 == (x ^ b) as int
  {
    ValueIsInt(b);
    ByteRange(b);
    BvXor(x, b);
    XorGlue(c, x as int, b as int, (x ^ b) as int);
  }

  lemma ShiftSetGlue(c: nat, x: nat, s: nat, t: nat)
    requires x == c % 0x100 && Bit7(c) && s == (x * 2) % 0x100 && t == Xor(s, 0x07)
    ensures PyShift(c) % 0x100 == t && x >= 0x80
  {
    Bit7LowByte(c);
    DoubleLowByte(c);
    XorLowByte(c * 2, 0x07);
  }

  lemma ShiftClearGlue(c: nat, x: nat, s: nat)
    requires x == c % 0x100 && !Bit7(c) && s == (x * 2) % 0x100
    ensures PyShift(c) % 0x100 == s && x < 0x80
  {
    Bit7LowByte(c);
    DoubleLowByte(c);
  }

  lemma ShiftSetBridge(c: nat, x: byte)
    requires x as int == c % 0x100 && Bit7(c)
    ensures PyShift(c) % 0x100 == Shift(x) as int
  {
    ShlByte(x);
    BvXor(x << 1, 0x07);
    ShiftSetGlue(c, x as int, (x << 1) as int, ((x << 1) ^ 0x07) as int);
    ShiftOfSet(x);
  }

  lemma ShiftClearBridge(c: nat, x: byte)
    requires x as int == c % 0x100 && !Bit7(c)
    ensures PyShift(c) % 0x100 == Shift(x) as int
  {
    ShlByte(x);
    ShiftClearGlue(c, x as int, (x << 1) as int);
    ShiftOfClear(x);
  }

  /** One inner pass: the low byte of the unbounded register follows the 8-bit register. */
  lemma ShiftBridge(c: nat, x: byte)
    requires x as int == c % 0x100
    ensures PyShift(c) % 0x100 == Shift(x) as int
  {
    if Bit7(c) {
      ShiftSetBridge(c, x);
    } else {
      ShiftClearBridge(c, x);
    }
  }

  lemma {:induction false} ShiftsBridge(c: nat, x: byte, k: nat)
    requires x as int == c % 0x100
    ensures PyShifts(c, k) % 0x100 == Shifts(x, k) as int
  {
    if k > 0 {
      ShiftsBridge(c, x, k - 1);
      ShiftBridge(PyShifts(c, k - 1), Shifts(x, k - 1));
    }
  }

  lemma ByteStepBridge(c: nat, x: byte, b: byte)
    requires x as int == c % 0x100
    ensures PyByteStep(c, b) % 0x100 == ByteStep(x, b) as int
  {
    XorByteBridge(c, x, b);
    ShiftsBridge(Xor(c, Value(b)), x ^ b, 8);
  }

  lemma {:induction false} CrcFromBridge(c: nat, x: byte, data: seq<byte>)
    requires x as int == c % 0x100
    ensures PyCrcFrom(c, data) % 0x100 == CrcFrom(x, data) as int
    decreases |data|
  {
    if |data| > 0 {
      ByteStepBridge(c, x, data[0]);
      CrcFromBridge(PyByteStep(c, data[0]), ByteStep(x, data[0]), data[1..]);
    }
  }

  /**
   * The host and the firmware agree: `compute_crc(data) & 0xFF` in protocol.py equals
   * `compute_crc(data, len)` in protocol.c for every byte sequence, although the Python
   * register is never truncated to 8 bits.
   */
  lemma MaskedCrcAgrees(data: seq<byte>)
    ensures PyCrcFrom(0, data) % 0x100 == Value(Crc(data))
  {
    CrcFromBridge(0, 0, data);
    ValueIsInt(Crc(data));
  }
}
