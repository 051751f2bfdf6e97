/**
 * Bytes (`uint8_t`, and the elements of a Python `bytes` object) and the numbers they
 * stand for. The number of a byte is read off its bits, so that reasoning about lengths
 * and sums never has to convert between the 8-bit and the integer view.
 */
module Bytes {

  type byte = bv8

  /** The unsigned number a byte stands for, read bit by bit from the lowest. */
  function Value(b: byte): nat
    decreases b as int
  {
    if b == 0 then 0 else 2 * Value(b >> 1) + (if b & 1 == 1 then 1 else 0)
  }

  /** The byte that holds the number `n`, built bit by bit from the lowest. */
  function FromValue(n: nat): byte
    requires n < 0x100
  {
    if n == 0 then 0 else (FromValue(n / 2) << 1) | (if n % 2 == 1 then 1 else 0)
  }

  /** `x` stored into a `uint8_t`: its low eight bits. */
  function Truncate(x: nat): (b: byte)
    ensures Value(b) == x % 0x100
  {
    ValueOfFromValue(x % 0x100);
    FromValue(x % 0x100)
  }

  lemma Half(w: byte)
    ensures (w >> 1) as int == w as int / 2
  {
  }

  lemma LowBit(w: byte)
    ensures (w & 1 == 1) == (w as int % 2 == 1)
  {
  }

  lemma ShiftIn(x: byte, bit: byte)
    requires x as int < 0x80 && (bit == 0 || bit == 1)
    ensures ((x << 1) | bit) as int == 2 * x as int + bit as int
  {
  }

  /** `Value` is the usual conversion. */
  lemma {:induction false} ValueIsInt(b: byte)
    ensures Value(b) == b as int
    decreases b as int
  {
    if b != 0 {
      Half(b);
      LowBit(b);
      ValueIsInt(b >> 1);
    }
  }

  lemma {:induction false} FromValueIsInt(n: nat)
    requires n < 0x100
    ensures FromValue(n) as int == n
    decreases n
  {
    if n != 0 {
      FromValueIsInt(n / 2);
      ShiftIn(FromValue(n / 2), if n % 2 == 1 then 1 else 0);
    }
  }

  lemma ValueBound(b: byte)
    ensures Value(b) < 0x100
  {
    ValueIsInt(b);
  }

  /** Reading back the byte that holds `n` gives `n`. */
  lemma ValueOfFromValue(n: nat)
    requires n < 0x100
    ensures Value(FromValue(n)) == n
  {
    FromValueIsInt(n);
    ValueIsInt(FromValue(n));
  }

  lemma Recompose(b: byte)
    ensures ((b >> 1) << 1) | (if b & 1 == 1 then 1 else 0) == b
  {
  }

  /** A byte is the byte that holds its number. */
  lemma {:induction false} FromValueOfValue(b: byte)
    ensures Value(b) < 0x100 && FromValue(Value(b)) == b
    decreases b as int
  {
    ValueBound(b);
    if b != 0 {
      Half(b);
      FromValueOfValue(b >> 1);
      Recompose(b);
    }
  }

  /** Two bytes that stand for the same number are the same byte. */
  lemma ValueInjective(a: byte, b: byte)
    requires Value(a) == Value(b)
    ensures a == b
  {
    FromValueOfValue(a);
    FromValueOfValue(b);
  }
}
