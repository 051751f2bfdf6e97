/**
 * The CRC-8 values that the firmware's self-tests (tests.c, `test1` to `test9`) compare
 * `compute_crc` against, established for the model of the C routine. Each value is
 * reached one byte at a time with `NextByte`, from register states listed explicitly.
 */
module CrcSelfTests {
  import opened Bytes
  import opened Crc8

  /** `n` consecutive byte values 0, 1, 2, ..., as `test4` fills its buffer. */
  function Ramp(n: nat): (r: seq<byte>)
    requires n <= 256
    ensures |r| == n && forall i :: 0 <= i < n ==> r[i] == i as byte
  {
    seq(n, i requires 0 <= i < n => i as byte)
  }

  /**
   * The bytes of "The quick brown fox jumps over the lazy dog.", the string of `test9`,
   * in groups of four.
   */
  function Pangram(): (r: seq<byte>)
    ensures |r| == 44
  {
    [0x54, 0x68, 0x65, 0x20] +
    ([0x71, 0x75, 0x69, 0x63] +
    ([0x6B, 0x20, 0x62, 0x72] +
    ([0x6F, 0x77, 0x6E, 0x20] +
    ([0x66, 0x6F, 0x78, 0x20] +
    ([0x6A, 0x75, 0x6D, 0x70] +
    ([0x73, 0x20, 0x6F, 0x76] +
    ([0x65, 0x72, 0x20, 0x74] +
    ([0x68, 0x65, 0x20, 0x6C] +
    ([0x61, 0x7A, 0x79, 0x20] + [0x64, 0x6F, 0x67, 0x2E])))))))))
  }

  /** `test2`: the empty buffer. */
  lemma CrcOfEmpty()
    ensures Crc([]) == 0x00
  {
  }

  lemma CrcOfOnePart0()
    ensures CrcFrom(0x00, [0x01]) == 0x07
  {
    var s := [0x01];
    assert s[..0] == [];
    NextByte(0x00, s, 0, 0x01, 0x00, 0x07);
    assert s[..1] == s;
  }

  /** `test3`: the single byte 0x01. */
  lemma CrcOfOne()
    ensures Crc([0x01]) == 7
  {
    CrcOfOnePart0();
  }

  lemma CrcOfOneToFivePart0()
    ensures CrcFrom(0x00, [0x01, 0x02, 0x03, 0x04]) == 0xE3
  {
    var s := [0x01, 0x02, 0x03, 0x04];
    assert s[..0] == [];
    NextByte(0x00, s, 0, 0x01, 0x00, 0x07);
    NextByte(0x00, s, 1, 0x02, 0x07, 0x1B);
    NextByte(0x00, s, 2, 0x03, 0x1B, 0x48);
    NextByte(0x00, s, 3, 0x04, 0x48, 0xE3);
    assert s[..4] == s;
  }

  lemma CrcOfOneToFivePart1()
    ensures CrcFrom(0xE3, [0x05]) == 0xBC
  {
    var s := [0x05];
    assert s[..0] == [];
    NextByte(0xE3, s, 0, 0x05, 0xE3, 0xBC);
    assert s[..1] == s;
  }

  /** `test1`: the bytes 1, 2, 3, 4, 5. */
  lemma CrcOfOneToFive()
    ensures Crc([0x01, 0x02, 0x03, 0x04, 0x05]) == 188
  {
    var t1 := [0x05];
    CrcOfOneToFivePart1();
    var t0 := [0x01, 0x02, 0x03, 0x04] + t1;
    CrcOfOneToFivePart0();
    CrcAppend(0x00, [0x01, 0x02, 0x03, 0x04], t1);
    assert t0 == [0x01, 0x02, 0x03, 0x04, 0x05];
  }

  lemma CrcOfRampPart0()
    ensures CrcFrom(0x00, Ramp(256)[..16]) == 0x41
  {
    var s := Ramp(256);
    assert s[..0] == [];
    NextByte(0x00, s, 0, 0x00, 0x00, 0x00);
    NextByte(0x00, s, 1, 0x01, 0x00, 0x07);
    NextByte(0x00, s, 2, 0x02, 0x07, 0x1B);
    NextByte(0x00, s, 3, 0x03, 0x1B, 0x48);
    NextByte(0x00, s, 4, 0x04, 0x48, 0xE3);
    NextByte(0x00, s, 5, 0x05, 0xE3, 0xBC);
    NextByte(0x00, s, 6, 0x06, 0xBC, 0x2F);
    NextByte(0x00, s, 7, 0x07, 0x2F, 0xD8);
    NextByte(0x00, s, 8, 0x08, 0xD8, 0x3E);
    NextByte(0x00, s, 9, 0x09, 0x3E, 0x85);
    NextByte(0x00, s, 10, 0x0A, 0x85, 0xA4);
    NextByte(0x00, s, 11, 0x0B, 0xA4, 0x44);
    NextByte(0x00, s, 12, 0x0C, 0x44, 0xFF);
    NextByte(0x00, s, 13, 0x0D, 0xFF, 0xD0);
    NextByte(0x00, s, 14, 0x0E, 0xD0, 0x14);
    NextByte(0x00, s, 15, 0x0F, 0x14, 0x41);
  }

  lemma CrcOfRampPart1()
    requires CrcFrom(0x00, Ramp(256)[..16]) == 0x41
    ensures CrcFrom(0x00, Ramp(256)[..32]) == 0x06
  {
    var s := Ramp(256);
    NextByte(0x00, s, 16, 0x10, 0x41, 0xB0);
    NextByte(0x00, s, 17, 0x11, 0xB0, 0x6E);
    NextByte(0x00, s, 18, 0x12, 0x6E, 0x73);
    NextByte(0x00, s, 19, 0x13, 0x73, 0x27);
    NextByte(0x00, s, 20, 0x14, 0x27, 0x99);
    NextByte(0x00, s, 21, 0x15, 0x99, 0xAD);
    NextByte(0x00, s, 22, 0x16, 0xAD, 0x28);
    NextByte(0x00, s, 23, 0x17, 0x28, 0xBD);
    NextByte(0x00, s, 24, 0x18, 0xBD, 0x72);
    NextByte(0x00, s, 25, 0x19, 0x72, 0x16);
    NextByte(0x00, s, 26, 0x1A, 0x16, 0x24);
    NextByte(0x00, s, 27, 0x1B, 0x24, 0xBD);
    NextByte(0x00, s, 28, 0x1C, 0xBD, 0x6E);
    NextByte(0x00, s, 29, 0x1D, 0x6E, 0x5E);
    NextByte(0x00, s, 30, 0x1E, 0x5E, 0xC7);
    NextByte(0x00, s, 31, 0x1F, 0xC7, 0x06);
  }

  lemma CrcOfRampPart2()
    requires CrcFrom(0x00, Ramp(256)[..32]) == 0x06
    ensures CrcFrom(0x00, Ramp(256)[..48]) == 0xC0
  {
    var s := Ramp(256);
    NextByte(0x00, s, 32, 0x20, 0x06, 0xF2);
    NextByte(0x00, s, 33, 0x21, 0xF2, 0x37);
    NextByte(0x00, s, 34, 0x22, 0x37, 0x6B);
    NextByte(0x00, s, 35, 0x23, 0x6B, 0xFF);
    NextByte(0x00, s, 36, 0x24, 0xFF, 0x0F);
    NextByte(0x00, s, 37, 0x25, 0x0F, 0xD6);
    NextByte(0x00, s, 38, 0x26, 0xD6, 0xDE);
    NextByte(0x00, s, 39, 0x27, 0xDE, 0xE1);
    NextByte(0x00, s, 40, 0x28, 0xE1, 0x71);
    NextByte(0x00, s, 41, 0x29, 0x71, 0x8F);
    NextByte(0x00, s, 42, 0x2A, 0x8F, 0x72);
    NextByte(0x00, s, 43, 0x2B, 0x72, 0x88);
    NextByte(0x00, s, 44, 0x2C, 0x88, 0x75);
    NextByte(0x00, s, 45, 0x2D, 0x75, 0x8F);
    NextByte(0x00, s, 46, 0x2E, 0x8F, 0x6E);
    NextByte(0x00, s, 47, 0x2F, 0x6E, 0xC0);
  }

  lemma CrcOfRampPart3()
    requires CrcFrom(0x00, Ramp(256)[..48]) == 0xC0
    ensures CrcFrom(0x00, Ramp(256)[..64]) == 0x8E
  {
    var s := Ramp(256);
    NextByte(0x00, s, 48, 0x30, 0xC0, 0xDE);
    NextByte(0x00, s, 49, 0x31, 0xDE, 0x83);
    NextByte(0x00, s, 50, 0x32, 0x83, 0x1E);
    NextByte(0x00, s, 51, 0x33, 0x1E, 0xC3);
    NextByte(0x00, s, 52, 0x34, 0xC3, 0xCB);
    NextByte(0x00, s, 53, 0x35, 0xCB, 0xF4);
    NextByte(0x00, s, 54, 0x36, 0xF4, 0x40);
    NextByte(0x00, s, 55, 0x37, 0x40, 0x42);
    NextByte(0x00, s, 56, 0x38, 0x42, 0x61);
    NextByte(0x00, s, 57, 0x39, 0x61, 0x8F);
    NextByte(0x00, s, 58, 0x3A, 0x8F, 0x02);
    NextByte(0x00, s, 59, 0x3B, 0x02, 0xAF);
    NextByte(0x00, s, 60, 0x3C, 0xAF, 0xF0);
    NextByte(0x00, s, 61, 0x3D, 0xF0, 0x6D);
    NextByte(0x00, s, 62, 0x3E, 0x6D, 0xBE);
    NextByte(0x00, s, 63, 0x3F, 0xBE, 0x8E);
  }

  lemma CrcOfRampPart4()
    requires CrcFrom(0x00, Ramp(256)[..64]) == 0x8E
    ensures CrcFrom(0x00, Ramp(256)[..80]) == 0x47
  {
    var s := Ramp(256);
    NextByte(0x00, s, 64, 0x40, 0x8E, 0x64);
    NextByte(0x00, s, 65, 0x41, 0x64, 0xFB);
    NextByte(0x00, s, 66, 0x42, 0xFB, 0x26);
    NextByte(0x00, s, 67, 0x43, 0x26, 0x3C);
    NextByte(0x00, s, 68, 0x44, 0x3C, 0x6F);
    NextByte(0x00, s, 69, 0x45, 0x6F, 0xD6);
    NextByte(0x00, s, 70, 0x46, 0xD6, 0xF9);
    NextByte(0x00, s, 71, 0x47, 0xF9, 0x33);
    NextByte(0x00, s, 72, 0x48, 0x33, 0x66);
    NextByte(0x00, s, 73, 0x49, 0x66, 0xCD);
    NextByte(0x00, s, 74, 0x4A, 0xCD, 0x9C);
    NextByte(0x00, s, 75, 0x4B, 0x9C, 0x2B);
    NextByte(0x00, s, 76, 0x4C, 0x2B, 0x32);
    NextByte(0x00, s, 77, 0x4D, 0x32, 0x7A);
    NextByte(0x00, s, 78, 0x4E, 0x7A, 0x8C);
    NextByte(0x00, s, 79, 0x4F, 0x8C, 0x47);
  }

  lemma CrcOfRampPart5()
    requires CrcFrom(0x00, Ramp(256)[..80]) == 0x47
    ensures CrcFrom(0x00, Ramp(256)[..96]) == 0x17
  {
    var s := Ramp(256);
    NextByte(0x00, s, 80, 0x50, 0x47, 0x65);
    NextByte(0x00, s, 81, 0x51, 0x65, 0x8C);
    NextByte(0x00, s, 82, 0x52, 0x8C, 0x14);
    NextByte(0x00, s, 83, 0x53, 0x14, 0xD2);
    NextByte(0x00, s, 84, 0x54, 0xD2, 0x9B);
    NextByte(0x00, s, 85, 0x55, 0x9B, 0x64);
    NextByte(0x00, s, 86, 0x56, 0x64, 0x9E);
    NextByte(0x00, s, 87, 0x57, 0x9E, 0x71);
    NextByte(0x00, s, 88, 0x58, 0x71, 0xDF);
    NextByte(0x00, s, 89, 0x59, 0xDF, 0x9B);
    NextByte(0x00, s, 90, 0x5A, 0x9B, 0x49);
    NextByte(0x00, s, 91, 0x5B, 0x49, 0x7E);
    NextByte(0x00, s, 92, 0x5C, 0x7E, 0xEE);
    NextByte(0x00, s, 93, 0x5D, 0xEE, 0x10);
    NextByte(0x00, s, 94, 0x5E, 0x10, 0xED);
    NextByte(0x00, s, 95, 0x5F, 0xED, 0x17);
  }

  lemma CrcOfRampPart6()
    requires CrcFrom(0x00, Ramp(256)[..96]) == 0x17
    ensures CrcFrom(0x00, Ramp(256)[..112]) == 0xFF
  {
    var s := Ramp(256);
    NextByte(0x00, s, 96, 0x60, 0x17, 0x42);
    NextByte(0x00, s, 97, 0x61, 0x42, 0xE9);
    NextByte(0x00, s, 98, 0x62, 0xE9, 0xB8);
    NextByte(0x00, s, 99, 0x63, 0xB8, 0x0F);
    NextByte(0x00, s, 100, 0x64, 0x0F, 0x16);
    NextByte(0x00, s, 101, 0x65, 0x16, 0x5E);
    NextByte(0x00, s, 102, 0x66, 0x5E, 0xA8);
    NextByte(0x00, s, 103, 0x67, 0xA8, 0x63);
    NextByte(0x00, s, 104, 0x68, 0x63, 0x31);
    NextByte(0x00, s, 105, 0x69, 0x31, 0x8F);
    NextByte(0x00, s, 106, 0x6A, 0x8F, 0xB5);
    NextByte(0x00, s, 107, 0x6B, 0xB5, 0x14);
    NextByte(0x00, s, 108, 0x6C, 0x14, 0x6F);
    NextByte(0x00, s, 109, 0x6D, 0x6F, 0x0E);
    NextByte(0x00, s, 110, 0x6E, 0x0E, 0x27);
    NextByte(0x00, s, 111, 0x6F, 0x27, 0xFF);
  }

  lemma CrcOfRampPart7()
    requires CrcFrom(0x00, Ramp(256)[..112]) == 0xFF
    ensures CrcFrom(0x00, Ramp(256)[..128]) == 0xED
  {
    var s := Ramp(256);
    NextByte(0x00, s, 112, 0x70, 0xFF, 0xA4);
    NextByte(0x00, s, 113, 0x71, 0xA4, 0x25);
    NextByte(0x00, s, 114, 0x72, 0x25, 0xA2);
    NextByte(0x00, s, 115, 0x73, 0xA2, 0x39);
    NextByte(0x00, s, 116, 0x74, 0x39, 0xE4);
    NextByte(0x00, s, 117, 0x75, 0xE4, 0xFE);
    NextByte(0x00, s, 118, 0x76, 0xFE, 0xB1);
    NextByte(0x00, s, 119, 0x77, 0xB1, 0x5C);
    NextByte(0x00, s, 120, 0x78, 0x5C, 0xFC);
    NextByte(0x00, s, 121, 0x79, 0xFC, 0x92);
    NextByte(0x00, s, 122, 0x7A, 0x92, 0x96);
    NextByte(0x00, s, 123, 0x7B, 0x96, 0x8D);
    NextByte(0x00, s, 124, 0x7C, 0x8D, 0xD9);
    NextByte(0x00, s, 125, 0x7D, 0xD9, 0x75);
    NextByte(0x00, s, 126, 0x7E, 0x75, 0x31);
    NextByte(0x00, s, 127, 0x7F, 0x31, 0xED);
  }

  lemma CrcOfRampPart8()
    requires CrcFrom(0x00, Ramp(256)[..128]) == 0xED
    ensures CrcFrom(0x00, Ramp(256)[..144]) == 0xA6
  {
    var s := Ramp(256);
    NextByte(0x00, s, 128, 0x80, 0xED, 0x04);
    NextByte(0x00, s, 129, 0x81, 0x04, 0x92);
    NextByte(0x00, s, 130, 0x82, 0x92, 0x70);
    NextByte(0x00, s, 131, 0x83, 0x70, 0xD7);
    NextByte(0x00, s, 132, 0x84, 0xD7, 0xBE);
    NextByte(0x00, s, 133, 0x85, 0xBE, 0xA1);
    NextByte(0x00, s, 134, 0x86, 0xA1, 0xF5);
    NextByte(0x00, s, 135, 0x87, 0xF5, 0x59);
    NextByte(0x00, s, 136, 0x88, 0x59, 0x39);
    NextByte(0x00, s, 137, 0x89, 0x39, 0x19);
    NextByte(0x00, s, 138, 0x8A, 0x19, 0xF0);
    NextByte(0x00, s, 139, 0x8B, 0xF0, 0x66);
    NextByte(0x00, s, 140, 0x8C, 0x66, 0x98);
    NextByte(0x00, s, 141, 0x8D, 0x98, 0x6B);
    NextByte(0x00, s, 142, 0x8E, 0x6B, 0xB5);
    NextByte(0x00, s, 143, 0x8F, 0xB5, 0xA6);
  }

  lemma CrcOfRampPart9()
    requires CrcFrom(0x00, Ramp(256)[..144]) == 0xA6
    ensures CrcFrom(0x00, Ramp(256)[..160]) == 0xF5
  {
    var s := Ramp(256);
    NextByte(0x00, s, 144, 0x90, 0xA6, 0x82);
    NextByte(0x00, s, 145, 0x91, 0x82, 0x79);
    NextByte(0x00, s, 146, 0x92, 0x79, 0x9F);
    NextByte(0x00, s, 147, 0x93, 0x9F, 0x24);
    NextByte(0x00, s, 148, 0x94, 0x24, 0x19);
    NextByte(0x00, s, 149, 0x95, 0x19, 0xAD);
    NextByte(0x00, s, 150, 0x96, 0xAD, 0xA1);
    NextByte(0x00, s, 151, 0x97, 0xA1, 0x82);
    NextByte(0x00, s, 152, 0x98, 0x82, 0x46);
    NextByte(0x00, s, 153, 0x99, 0x46, 0x13);
    NextByte(0x00, s, 154, 0x9A, 0x13, 0xB6);
    NextByte(0x00, s, 155, 0x9B, 0xB6, 0xC3);
    NextByte(0x00, s, 156, 0x9C, 0xC3, 0x9A);
    NextByte(0x00, s, 157, 0x9D, 0x9A, 0x15);
    NextByte(0x00, s, 158, 0x9E, 0x15, 0xB8);
    NextByte(0x00, s, 159, 0x9F, 0xB8, 0xF5);
  }

  lemma CrcOfRampPart10()
    requires CrcFrom(0x00, Ramp(256)[..160]) == 0xF5
    ensures CrcFrom(0x00, Ramp(256)[..176]) == 0x1B
  {
    var s := Ramp(256);
    NextByte(0x00, s, 160, 0xA0, 0xF5, 0xAC);
    NextByte(0x00, s, 161, 0xA1, 0xAC, 0x23);
    NextByte(0x00, s, 162, 0xA2, 0x23, 0x8E);
    NextByte(0x00, s, 163, 0xA3, 0x8E, 0xC3);
    NextByte(0x00, s, 164, 0xA4, 0xC3, 0x32);
    NextByte(0x00, s, 165, 0xA5, 0x32, 0xEC);
    NextByte(0x00, s, 166, 0xA6, 0xEC, 0xF1);
    NextByte(0x00, s, 167, 0xA7, 0xF1, 0xA5);
    NextByte(0x00, s, 168, 0xA8, 0xA5, 0x23);
    NextByte(0x00, s, 169, 0xA9, 0x23, 0xBF);
    NextByte(0x00, s, 170, 0xAA, 0xBF, 0x6B);
    NextByte(0x00, s, 171, 0xAB, 0x6B, 0x4E);
    NextByte(0x00, s, 172, 0xAC, 0x4E, 0xA0);
    NextByte(0x00, s, 173, 0xAD, 0xA0, 0x23);
    NextByte(0x00, s, 174, 0xAE, 0x23, 0xAA);
    NextByte(0x00, s, 175, 0xAF, 0xAA, 0x1B);
  }

  lemma CrcOfRampPart11()
    requires CrcFrom(0x00, Ramp(256)[..176]) == 0x1B
    ensures CrcFrom(0x00, Ramp(256)[..192]) == 0x05
  {
    var s := Ramp(256);
    NextByte(0x00, s, 176, 0xB0, 0x1B, 0x58);
    NextByte(0x00, s, 177, 0xB1, 0x58, 0x91);
    NextByte(0x00, s, 178, 0xB2, 0x91, 0xE9);
    NextByte(0x00, s, 179, 0xB3, 0xE9, 0x81);
    NextByte(0x00, s, 180, 0xB4, 0x81, 0x8B);
    NextByte(0x00, s, 181, 0xB5, 0x8B, 0xBA);
    NextByte(0x00, s, 182, 0xB6, 0xBA, 0x24);
    NextByte(0x00, s, 183, 0xB7, 0x24, 0xF0);
    NextByte(0x00, s, 184, 0xB8, 0xF0, 0xFF);
    NextByte(0x00, s, 185, 0xB9, 0xFF, 0xD5);
    NextByte(0x00, s, 186, 0xBA, 0xD5, 0x0A);
    NextByte(0x00, s, 187, 0xBB, 0x0A, 0x1E);
    NextByte(0x00, s, 188, 0xBC, 0x1E, 0x67);
    NextByte(0x00, s, 189, 0xBD, 0x67, 0x08);
    NextByte(0x00, s, 190, 0xBE, 0x08, 0x0B);
    NextByte(0x00, s, 191, 0xBF, 0x0B, 0x05);
  }

  lemma CrcOfRampPart12()
    requires CrcFrom(0x00, Ramp(256)[..192]) == 0x05
    ensures CrcFrom(0x00, Ramp(256)[..208]) == 0x6C
  {
    var s := Ramp(256);
    NextByte(0x00, s, 192, 0xC0, 0x05, 0x55);
    NextByte(0x00, s, 193, 0xC1, 0x55, 0xE5);
    NextByte(0x00, s, 194, 0xC2, 0xE5, 0xF5);
    NextByte(0x00, s, 195, 0xC3, 0xF5, 0x82);
    NextByte(0x00, s, 196, 0xC4, 0x82, 0xD5);
    NextByte(0x00, s, 197, 0xC5, 0xD5, 0x70);
    NextByte(0x00, s, 198, 0xC6, 0x70, 0x0B);
    NextByte(0x00, s, 199, 0xC7, 0x0B, 0x6A);
    NextByte(0x00, s, 200, 0xC8, 0x6A, 0x67);
    NextByte(0x00, s, 201, 0xC9, 0x67, 0x43);
    NextByte(0x00, s, 202, 0xCA, 0x43, 0xB6);
    NextByte(0x00, s, 203, 0xCB, 0xB6, 0x74);
    NextByte(0x00, s, 204, 0xCC, 0x74, 0x21);
    NextByte(0x00, s, 205, 0xCD, 0x21, 0x8A);
    NextByte(0x00, s, 206, 0xCE, 0x8A, 0xDB);
    NextByte(0x00, s, 207, 0xCF, 0xDB, 0x6C);
  }

  lemma CrcOfRampPart13()
    requires CrcFrom(0x00, Ramp(256)[..208]) == 0x6C
    ensures CrcFrom(0x00, Ramp(256)[..224]) == 0x7B
  {
    var s := Ramp(256);
    NextByte(0x00, s, 208, 0xD0, 0x6C, 0x3D);
    NextByte(0x00, s, 209, 0xD1, 0x3D, 0x8A);
    NextByte(0x00, s, 210, 0xD2, 0x8A, 0x8F);
    NextByte(0x00, s, 211, 0xD3, 0x8F, 0x93);
    NextByte(0x00, s, 212, 0xD4, 0x93, 0xD2);
    NextByte(0x00, s, 213, 0xD5, 0xD2, 0x15);
    NextByte(0x00, s, 214, 0xD6, 0x15, 0x47);
    NextByte(0x00, s, 215, 0xD7, 0x47, 0xF9);
    NextByte(0x00, s, 216, 0xD8, 0xF9, 0xE7);
    NextByte(0x00, s, 217, 0xD9, 0xE7, 0xBA);
    NextByte(0x00, s, 218, 0xDA, 0xBA, 0x27);
    NextByte(0x00, s, 219, 0xDB, 0x27, 0xFA);
    NextByte(0x00, s, 220, 0xDC, 0xFA, 0xF2);
    NextByte(0x00, s, 221, 0xDD, 0xF2, 0xCD);
    NextByte(0x00, s, 222, 0xDE, 0xCD, 0x79);
    NextByte(0x00, s, 223, 0xDF, 0x79, 0x7B);
  }

  lemma CrcOfRampPart14()
    requires CrcFrom(0x00, Ramp(256)[..224]) == 0x7B
    ensures CrcFrom(0x00, Ramp(256)[..240]) == 0x1D
  {
    var s := Ramp(256);
    NextByte(0x00, s, 224, 0xE0, 0x7B, 0xC8);
    NextByte(0x00, s, 225, 0xE1, 0xC8, 0xDF);
    NextByte(0x00, s, 226, 0xE2, 0xDF, 0xB3);
    NextByte(0x00, s, 227, 0xE3, 0xB3, 0xB7);
    NextByte(0x00, s, 228, 0xE4, 0xB7, 0xBE);
    NextByte(0x00, s, 229, 0xE5, 0xBE, 0x86);
    NextByte(0x00, s, 230, 0xE6, 0x86, 0x27);
    NextByte(0x00, s, 231, 0xE7, 0x27, 0x4E);
    NextByte(0x00, s, 232, 0xE8, 0x4E, 0x7B);
    NextByte(0x00, s, 233, 0xE9, 0x7B, 0xF7);
    NextByte(0x00, s, 234, 0xEA, 0xF7, 0x53);
    NextByte(0x00, s, 235, 0xEB, 0x53, 0x21);
    NextByte(0x00, s, 236, 0xEC, 0x21, 0x6D);
    NextByte(0x00, s, 237, 0xED, 0x6D, 0x89);
    NextByte(0x00, s, 238, 0xEE, 0x89, 0x32);
    NextByte(0x00, s, 239, 0xEF, 0x32, 0x1D);
  }

  lemma CrcOfRampPart15()
    requires CrcFrom(0x00, Ramp(256)[..240]) == 0x1D
    ensures CrcFrom(0x00, Ramp(256)[..256]) == 0x14
  {
    var s := Ramp(256);
    NextByte(0x00, s, 240, 0xF0, 0x1D, 0x8D);
    NextByte(0x00, s, 241, 0xF1, 0x8D, 0x73);
    NextByte(0x00, s, 242, 0xF2, 0x73, 0x8E);
    NextByte(0x00, s, 243, 0xF3, 0x8E, 0x74);
    NextByte(0x00, s, 244, 0xF4, 0x74, 0x89);
    NextByte(0x00, s, 245, 0xF5, 0x89, 0x73);
    NextByte(0x00, s, 246, 0xF6, 0x73, 0x92);
    NextByte(0x00, s, 247, 0xF7, 0x92, 0x3C);
    NextByte(0x00, s, 248, 0xF8, 0x3C, 0x52);
    NextByte(0x00, s, 249, 0xF9, 0x52, 0x58);
    NextByte(0x00, s, 250, 0xFA, 0x58, 0x67);
    NextByte(0x00, s, 251, 0xFB, 0x67, 0xDD);
    NextByte(0x00, s, 252, 0xFC, 0xDD, 0xE7);
    NextByte(0x00, s, 253, 0xFD, 0xE7, 0x46);
    NextByte(0x00, s, 254, 0xFE, 0x46, 0x21);
    NextByte(0x00, s, 255, 0xFF, 0x21, 0x14);
  }

  /** `test4`: the 256 byte values in increasing order. */
  lemma CrcOfRamp()
    ensures Crc(Ramp(256)) == 20
  {
    CrcOfRampPart0();
    CrcOfRampPart1();
    CrcOfRampPart2();
    CrcOfRampPart3();
    CrcOfRampPart4();
    CrcOfRampPart5();
    CrcOfRampPart6();
    CrcOfRampPart7();
    CrcOfRampPart8();
    CrcOfRampPart9();
    CrcOfRampPart10();
    CrcOfRampPart11();
    CrcOfRampPart12();
    CrcOfRampPart13();
    CrcOfRampPart14();
    CrcOfRampPart15();
    Whole(Ramp(256));
  }

  /** `test5`: 256 zero bytes. */
  lemma CrcOfZeros()
    ensures Crc(Fill(0x00, 256)) == 0
  {
    ZerosKeepZero(256);
  }

  lemma CrcOfOnesPart0()
    ensures CrcFrom(0x00, Fill(0xFF, 256)[..16]) == 0xFA
  {
    var s := Fill(0xFF, 256);
    assert s[..0] == [];
    NextByte(0x00, s, 0, 0xFF, 0x00, 0xF3);
    NextByte(0x00, s, 1, 0xFF, 0xF3, 0x24);
    NextByte(0x00, s, 2, 0xFF, 0x24, 0x0F);
    NextByte(0x00, s, 3, 0xFF, 0x0F, 0xDE);
    NextByte(0x00, s, 4, 0xFF, 0xDE, 0xE7);
    NextByte(0x00, s, 5, 0xFF, 0xE7, 0x48);
    NextByte(0x00, s, 6, 0xFF, 0x48, 0x0C);
    NextByte(0x00, s, 7, 0xFF, 0x0C, 0xD7);
    NextByte(0x00, s, 8, 0xFF, 0xD7, 0xD8);
    NextByte(0x00, s, 9, 0xFF, 0xD8, 0xF5);
    NextByte(0x00, s, 10, 0xFF, 0xF5, 0x36);
    NextByte(0x00, s, 11, 0xFF, 0x36, 0x71);
    NextByte(0x00, s, 12, 0xFF, 0x71, 0xA3);
    NextByte(0x00, s, 13, 0xFF, 0xA3, 0x93);
    NextByte(0x00, s, 14, 0xFF, 0x93, 0x03);
    NextByte(0x00, s, 15, 0xFF, 0x03, 0xFA);
  }

  lemma CrcOfOnesPart1()
    requires CrcFrom(0x00, Fill(0xFF, 256)[..16]) == 0xFA
    ensures CrcFrom(0x00, Fill(0xFF, 256)[..32]) == 0x09
  {
    var s := Fill(0xFF, 256);
    NextByte(0x00, s, 16, 0xFF, 0xFA, 0x1B);
    NextByte(0x00, s, 17, 0xFF, 0x1B, 0xB2);
    NextByte(0x00, s, 18, 0xFF, 0xB2, 0xE4);
    NextByte(0x00, s, 19, 0xFF, 0xE4, 0x41);
    NextByte(0x00, s, 20, 0xFF, 0x41, 0x33);
    NextByte(0x00, s, 21, 0xFF, 0x33, 0x6A);
    NextByte(0x00, s, 22, 0xFF, 0x6A, 0xE2);
    NextByte(0x00, s, 23, 0xFF, 0xE2, 0x53);
    NextByte(0x00, s, 24, 0xFF, 0x53, 0x4D);
    NextByte(0x00, s, 25, 0xFF, 0x4D, 0x17);
    NextByte(0x00, s, 26, 0xFF, 0x17, 0x96);
    NextByte(0x00, s, 27, 0xFF, 0x96, 0x18);
    NextByte(0x00, s, 28, 0xFF, 0x18, 0xBB);
    NextByte(0x00, s, 29, 0xFF, 0xBB, 0xDB);
    NextByte(0x00, s, 30, 0xFF, 0xDB, 0xFC);
    NextByte(0x00, s, 31, 0xFF, 0xFC, 0x09);
  }

  lemma CrcOfOnesPart2()
    requires CrcFrom(0x00, Fill(0xFF, 256)[..32]) == 0x09
    ensures CrcFrom(0x00, Fill(0xFF, 256)[..48]) == 0xE8
  {
    var s := Fill(0xFF, 256);
    NextByte(0x00, s, 32, 0xFF, 0x09, 0xCC);
    NextByte(0x00, s, 33, 0xFF, 0xCC, 0x99);
    NextByte(0x00, s, 34, 0xFF, 0x99, 0x35);
    NextByte(0x00, s, 35, 0xFF, 0x35, 0x78);
    NextByte(0x00, s, 36, 0xFF, 0x78, 0x9C);
    NextByte(0x00, s, 37, 0xFF, 0x9C, 0x2E);
    NextByte(0x00, s, 38, 0xFF, 0x2E, 0x39);
    NextByte(0x00, s, 39, 0xFF, 0x39, 0x5C);
    NextByte(0x00, s, 40, 0xFF, 0x5C, 0x60);
    NextByte(0x00, s, 41, 0xFF, 0x60, 0xD4);
    NextByte(0x00, s, 42, 0xFF, 0xD4, 0xD1);
    NextByte(0x00, s, 43, 0xFF, 0xD1, 0xCA);
    NextByte(0x00, s, 44, 0xFF, 0xCA, 0x8B);
    NextByte(0x00, s, 45, 0xFF, 0x8B, 0x4B);
    NextByte(0x00, s, 46, 0xFF, 0x4B, 0x05);
    NextByte(0x00, s, 47, 0xFF, 0x05, 0xE8);
  }

  lemma CrcOfOnesPart3()
    requires CrcFrom(0x00, Fill(0xFF, 256)[..48]) == 0xE8
    ensures CrcFrom(0x00, Fill(0xFF, 256)[..64]) == 0x2D
  {
    var s := Fill(0xFF, 256);
    NextByte(0x00, s, 48, 0xFF, 0xE8, 0x65);
    NextByte(0x00, s, 49, 0xFF, 0x65, 0xCF);
    NextByte(0x00, s, 50, 0xFF, 0xCF, 0x90);
    NextByte(0x00, s, 51, 0xFF, 0x90, 0x0A);
    NextByte(0x00, s, 52, 0xFF, 0x0A, 0xC5);
    NextByte(0x00, s, 53, 0xFF, 0xC5, 0xA6);
    NextByte(0x00, s, 54, 0xFF, 0xA6, 0x88);
    NextByte(0x00, s, 55, 0xFF, 0x88, 0x42);
    NextByte(0x00, s, 56, 0xFF, 0x42, 0x3A);
    NextByte(0x00, s, 57, 0xFF, 0x3A, 0x55);
    NextByte(0x00, s, 58, 0xFF, 0x55, 0x5F);
    NextByte(0x00, s, 59, 0xFF, 0x5F, 0x69);
    NextByte(0x00, s, 60, 0xFF, 0x69, 0xEB);
    NextByte(0x00, s, 61, 0xFF, 0xEB, 0x6C);
    NextByte(0x00, s, 62, 0xFF, 0x6C, 0xF0);
    NextByte(0x00, s, 63, 0xFF, 0xF0, 0x2D);
  }

  lemma CrcOfOnesPart4()
    requires CrcFrom(0x00, Fill(0xFF, 256)[..64]) == 0x2D
    ensures CrcFrom(0x00, Fill(0xFF, 256)[..80]) == 0xA0
  {
    var s := Fill(0xFF, 256);
    NextByte(0x00, s, 64, 0xFF, 0x2D, 0x30);
    NextByte(0x00, s, 65, 0xFF, 0x30, 0x63);
    NextByte(0x00, s, 66, 0xFF, 0x63, 0xDD);
    NextByte(0x00, s, 67, 0xFF, 0xDD, 0xEE);
    NextByte(0x00, s, 68, 0xFF, 0xEE, 0x77);
    NextByte(0x00, s, 69, 0xFF, 0x77, 0xB1);
    NextByte(0x00, s, 70, 0xFF, 0xB1, 0xED);
    NextByte(0x00, s, 71, 0xFF, 0xED, 0x7E);
    NextByte(0x00, s, 72, 0xFF, 0x7E, 0x8E);
    NextByte(0x00, s, 73, 0xFF, 0x8E, 0x50);
    NextByte(0x00, s, 74, 0xFF, 0x50, 0x44);
    NextByte(0x00, s, 75, 0xFF, 0x44, 0x28);
    NextByte(0x00, s, 76, 0xFF, 0x28, 0x2B);
    NextByte(0x00, s, 77, 0xFF, 0x2B, 0x22);
    NextByte(0x00, s, 78, 0xFF, 0x22, 0x1D);
    NextByte(0x00, s, 79, 0xFF, 0x1D, 0xA0);
  }

  lemma CrcOfOnesPart5()
    requires CrcFrom(0x00, Fill(0xFF, 256)[..80]) == 0xA0
    ensures CrcFrom(0x00, Fill(0xFF, 256)[..96]) == 0xBD
  {
    var s := Fill(0xFF, 256);
    NextByte(0x00, s, 80, 0xFF, 0xA0, 0x9A);
    NextByte(0x00, s, 81, 0xFF, 0x9A, 0x3C);
    NextByte(0x00, s, 82, 0xFF, 0x3C, 0x47);
    NextByte(0x00, s, 83, 0xFF, 0x47, 0x21);
    NextByte(0x00, s, 84, 0xFF, 0x21, 0x14);
    NextByte(0x00, s, 85, 0xFF, 0x14, 0x9F);
    NextByte(0x00, s, 86, 0xFF, 0x9F, 0x27);
    NextByte(0x00, s, 87, 0xFF, 0x27, 0x06);
    NextByte(0x00, s, 88, 0xFF, 0x06, 0xE1);
    NextByte(0x00, s, 89, 0xFF, 0xE1, 0x5A);
    NextByte(0x00, s, 90, 0xFF, 0x5A, 0x72);
    NextByte(0x00, s, 91, 0xFF, 0x72, 0xAA);
    NextByte(0x00, s, 92, 0xFF, 0xAA, 0xAC);
    NextByte(0x00, s, 93, 0xFF, 0xAC, 0xBE);
    NextByte(0x00, s, 94, 0xFF, 0xBE, 0xC0);
    NextByte(0x00, s, 95, 0xFF, 0xC0, 0xBD);
  }

  lemma CrcOfOnesPart6()
    requires CrcFrom(0x00, Fill(0xFF, 256)[..96]) == 0xBD
    ensures CrcFrom(0x00, Fill(0xFF, 256)[..112]) == 0x87
  {
    var s := Fill(0xFF, 256);
    NextByte(0x00, s, 96, 0xFF, 0xBD, 0xC9);
    NextByte(0x00, s, 97, 0xFF, 0xC9, 0x82);
    NextByte(0x00, s, 98, 0xFF, 0x82, 0x74);
    NextByte(0x00, s, 99, 0xFF, 0x74, 0xB8);
    NextByte(0x00, s, 100, 0xFF, 0xB8, 0xD2);
    NextByte(0x00, s, 101, 0xFF, 0xD2, 0xC3);
    NextByte(0x00, s, 102, 0xFF, 0xC3, 0xB4);
    NextByte(0x00, s, 103, 0xFF, 0xB4, 0xF6);
    NextByte(0x00, s, 104, 0xFF, 0xF6, 0x3F);
    NextByte(0x00, s, 105, 0xFF, 0x3F, 0x4E);
    NextByte(0x00, s, 106, 0xFF, 0x4E, 0x1E);
    NextByte(0x00, s, 107, 0xFF, 0x1E, 0xA9);
    NextByte(0x00, s, 108, 0xFF, 0xA9, 0xA5);
    NextByte(0x00, s, 109, 0xFF, 0xA5, 0x81);
    NextByte(0x00, s, 110, 0xFF, 0x81, 0x7D);
    NextByte(0x00, s, 111, 0xFF, 0x7D, 0x87);
  }

  lemma CrcOfOnesPart7()
    requires CrcFrom(0x00, Fill(0xFF, 256)[..112]) == 0x87
    ensures CrcFrom(0x00, Fill(0xFF, 256)[..128]) == 0xF3
  {
    var s := Fill(0xFF, 256);
    NextByte(0x00, s, 112, 0xFF, 0x87, 0x6F);
    NextByte(0x00, s, 113, 0xFF, 0x6F, 0xF9);
    NextByte(0x00, s, 114, 0xFF, 0xF9, 0x12);
    NextByte(0x00, s, 115, 0xFF, 0x12, 0x8D);
    NextByte(0x00, s, 116, 0xFF, 0x8D, 0x59);
    NextByte(0x00, s, 117, 0xFF, 0x59, 0x7B);
    NextByte(0x00, s, 118, 0xFF, 0x7B, 0x95);
    NextByte(0x00, s, 119, 0xFF, 0x95, 0x11);
    NextByte(0x00, s, 120, 0xFF, 0x11, 0x84);
    NextByte(0x00, s, 121, 0xFF, 0x84, 0x66);
    NextByte(0x00, s, 122, 0xFF, 0x66, 0xC6);
    NextByte(0x00, s, 123, 0xFF, 0xC6, 0xAF);
    NextByte(0x00, s, 124, 0xFF, 0xAF, 0xB7);
    NextByte(0x00, s, 125, 0xFF, 0xB7, 0xFF);
    NextByte(0x00, s, 126, 0xFF, 0xFF, 0x00);
    NextByte(0x00, s, 127, 0xFF, 0x00, 0xF3);
  }

  lemma CrcOfOnesPart8()
    requires CrcFrom(0x00, Fill(0xFF, 256)[..128]) == 0xF3
    ensures CrcFrom(0x00, Fill(0xFF, 256)[..144]) == 0x1B
  {
    var s := Fill(0xFF, 256);
    NextByte(0x00, s, 128, 0xFF, 0xF3, 0x24);
    NextByte(0x00, s, 129, 0xFF, 0x24, 0x0F);
    NextByte(0x00, s, 130, 0xFF, 0x0F, 0xDE);
    NextByte(0x00, s, 131, 0xFF, 0xDE, 0xE7);
    NextByte(0x00, s, 132, 0xFF, 0xE7, 0x48);
    NextByte(0x00, s, 133, 0xFF, 0x48, 0x0C);
    NextByte(0x00, s, 134, 0xFF, 0x0C, 0xD7);
    NextByte(0x00, s, 135, 0xFF, 0xD7, 0xD8);
    NextByte(0x00, s, 136, 0xFF, 0xD8, 0xF5);
    NextByte(0x00, s, 137, 0xFF, 0xF5, 0x36);
    NextByte(0x00, s, 138, 0xFF, 0x36, 0x71);
    NextByte(0x00, s, 139, 0xFF, 0x71, 0xA3);
    NextByte(0x00, s, 140, 0xFF, 0xA3, 0x93);
    NextByte(0x00, s, 141, 0xFF, 0x93, 0x03);
    NextByte(0x00, s, 142, 0xFF, 0x03, 0xFA);
    NextByte(0x00, s, 143, 0xFF, 0xFA, 0x1B);
  }

  lemma CrcOfOnesPart9()
    requires CrcFrom(0x00, Fill(0xFF, 256)[..144]) == 0x1B
    ensures CrcFrom(0x00, Fill(0xFF, 256)[..160]) == 0xCC
  {
    var s := Fill(0xFF, 256);
    NextByte(0x00, s, 144, 0xFF, 0x1B, 0xB2);
    NextByte(0x00, s, 145, 0xFF, 0xB2, 0xE4);
    NextByte(0x00, s, 146, 0xFF, 0xE4, 0x41);
    NextByte(0x00, s, 147, 0xFF, 0x41, 0x33);
    NextByte(0x00, s, 148, 0xFF, 0x33, 0x6A);
    NextByte(0x00, s, 149, 0xFF, 0x6A, 0xE2);
    NextByte(0x00, s, 150, 0xFF, 0xE2, 0x53);
    NextByte(0x00, s, 151, 0xFF, 0x53, 0x4D);
    NextByte(0x00, s, 152, 0xFF, 0x4D, 0x17);
    NextByte(0x00, s, 153, 0xFF, 0x17, 0x96);
    NextByte(0x00, s, 154, 0xFF, 0x96, 0x18);
    NextByte(0x00, s, 155, 0xFF, 0x18, 0xBB);
    NextByte(0x00, s, 156, 0xFF, 0xBB, 0xDB);
    NextByte(0x00, s, 157, 0xFF, 0xDB, 0xFC);
    NextByte(0x00, s, 158, 0xFF, 0xFC, 0x09);
    NextByte(0x00, s, 159, 0xFF, 0x09, 0xCC);
  }

  lemma CrcOfOnesPart10()
    requires CrcFrom(0x00, Fill(0xFF, 256)[..160]) == 0xCC
    ensures CrcFrom(0x00, Fill(0xFF, 256)[..176]) == 0x65
  {
    var s := Fill(0xFF, 256);
    NextByte(0x00, s, 160, 0xFF, 0xCC, 0x99);
    NextByte(0x00, s, 161, 0xFF, 0x99, 0x35);
    NextByte(0x00, s, 162, 0xFF, 0x35, 0x78);
    NextByte(0x00, s, 163, 0xFF, 0x78, 0x9C);
    NextByte(0x00, s, 164, 0xFF, 0x9C, 0x2E);
    NextByte(0x00, s, 165, 0xFF, 0x2E, 0x39);
    NextByte(0x00, s, 166, 0xFF, 0x39, 0x5C);
    NextByte(0x00, s, 167, 0xFF, 0x5C, 0x60);
    NextByte(0x00, s, 168, 0xFF, 0x60, 0xD4);
    NextByte(0x00, s, 169, 0xFF, 0xD4, 0xD1);
    NextByte(0x00, s, 170, 0xFF, 0xD1, 0xCA);
    NextByte(0x00, s, 171, 0xFF, 0xCA, 0x8B);
    NextByte(0x00, s, 172, 0xFF, 0x8B, 0x4B);
    NextByte(0x00, s, 173, 0xFF, 0x4B, 0x05);
    NextByte(0x00, s, 174, 0xFF, 0x05, 0xE8);
    NextByte(0x00, s, 175, 0xFF, 0xE8, 0x65);
  }

  lemma CrcOfOnesPart11()
    requires CrcFrom(0x00, Fill(0xFF, 256)[..176]) == 0x65
    ensures CrcFrom(0x00, Fill(0xFF, 256)[..192]) == 0x30
  {
    var s := Fill(0xFF, 256);
    NextByte(0x00, s, 176, 0xFF, 0x65, 0xCF);
    NextByte(0x00, s, 177, 0xFF, 0xCF, 0x90);
    NextByte(0x00, s, 178, 0xFF, 0x90, 0x0A);
    NextByte(0x00, s, 179, 0xFF, 0x0A, 0xC5);
    NextByte(0x00, s, 180, 0xFF, 0xC5, 0xA6);
    NextByte(0x00, s, 181, 0xFF, 0xA6, 0x88);
    NextByte(0x00, s, 182, 0xFF, 0x88, 0x42);
    NextByte(0x00, s, 183, 0xFF, 0x42, 0x3A);
    NextByte(0x00, s, 184, 0xFF, 0x3A, 0x55);
    NextByte(0x00, s, 185, 0xFF, 0x55, 0x5F);
    NextByte(0x00, s, 186, 0xFF, 0x5F, 0x69);
    NextByte(0x00, s, 187, 0xFF, 0x69, 0xEB);
    NextByte(0x00, s, 188, 0xFF, 0xEB, 0x6C);
    NextByte(0x00, s, 189, 0xFF, 0x6C, 0xF0);
    NextByte(0x00, s, 190, 0xFF, 0xF0, 0x2D);
    NextByte(0x00, s, 191, 0xFF, 0x2D, 0x30);
  }

  lemma CrcOfOnesPart12()
    requires CrcFrom(0x00, Fill(0xFF, 256)[..192]) == 0x30
    ensures CrcFrom(0x00, Fill(0xFF, 256)[..208]) == 0x9A
  {
    var s := Fill(0xFF, 256);
    NextByte(0x00, s, 192, 0xFF, 0x30, 0x63);
    NextByte(0x00, s, 193, 0xFF, 0x63, 0xDD);
    NextByte(0x00, s, 194, 0xFF, 0xDD, 0xEE);
    NextByte(0x00, s, 195, 0xFF, 0xEE, 0x77);
    NextByte(0x00, s, 196, 0xFF, 0x77, 0xB1);
    NextByte(0x00, s, 197, 0xFF, 0xB1, 0xED);
    NextByte(0x00, s, 198, 0xFF, 0xED, 0x7E);
    NextByte(0x00, s, 199, 0xFF, 0x7E, 0x8E);
    NextByte(0x00, s, 200, 0xFF, 0x8E, 0x50);
    NextByte(0x00, s, 201, 0xFF, 0x50, 0x44);
    NextByte(0x00, s, 202, 0xFF, 0x44, 0x28);
    NextByte(0x00, s, 203, 0xFF, 0x28, 0x2B);
    NextByte(0x00, s, 204, 0xFF, 0x2B, 0x22);
    NextByte(0x00, s, 205, 0xFF, 0x22, 0x1D);
    NextByte(0x00, s, 206, 0xFF, 0x1D, 0xA0);
    NextByte(0x00, s, 207, 0xFF, 0xA0, 0x9A);
  }

  lemma CrcOfOnesPart13()
    requires CrcFrom(0x00, Fill(0xFF, 256)[..208]) == 0x9A
    ensures CrcFrom(0x00, Fill(0xFF, 256)[..224]) == 0xC9
  {
    var s := Fill(0xFF, 256);
    NextByte(0x00, s, 208, 0xFF, 0x9A, 0x3C);
    NextByte(0x00, s, 209, 0xFF, 0x3C, 0x47);
    NextByte(0x00, s, 210, 0xFF, 0x47, 0x21);
    NextByte(0x00, s, 211, 0xFF, 0x21, 0x14);
    NextByte(0x00, s, 212, 0xFF, 0x14, 0x9F);
    NextByte(0x00, s, 213, 0xFF, 0x9F, 0x27);
    NextByte(0x00, s, 214, 0xFF, 0x27, 0x06);
    NextByte(0x00, s, 215, 0xFF, 0x06, 0xE1);
    NextByte(0x00, s, 216, 0xFF, 0xE1, 0x5A);
    NextByte(0x00, s, 217, 0xFF, 0x5A, 0x72);
    NextByte(0x00, s, 218, 0xFF, 0x72, 0xAA);
    NextByte(0x00, s, 219, 0xFF, 0xAA, 0xAC);
    NextByte(0x00, s, 220, 0xFF, 0xAC, 0xBE);
    NextByte(0x00, s, 221, 0xFF, 0xBE, 0xC0);
    NextByte(0x00, s, 222, 0xFF, 0xC0, 0xBD);
    NextByte(0x00, s, 223, 0xFF, 0xBD, 0xC9);
  }

  lemma CrcOfOnesPart14()
    requires CrcFrom(0x00, Fill(0xFF, 256)[..224]) == 0xC9
    ensures CrcFrom(0x00, Fill(0xFF, 256)[..240]) == 0x6F
  {
    var s := Fill(0xFF, 256);
    NextByte(0x00, s, 224, 0xFF, 0xC9, 0x82);
    NextByte(0x00, s, 225, 0xFF, 0x82, 0x74);
    NextByte(0x00, s, 226, 0xFF, 0x74, 0xB8);
    NextByte(0x00, s, 227, 0xFF, 0xB8, 0xD2);
    NextByte(0x00, s, 228, 0xFF, 0xD2, 0xC3);
    NextByte(0x00, s, 229, 0xFF, 0xC3, 0xB4);
    NextByte(0x00, s, 230, 0xFF, 0xB4, 0xF6);
    NextByte(0x00, s, 231, 0xFF, 0xF6, 0x3F);
    NextByte(0x00, s, 232, 0xFF, 0x3F, 0x4E);
    NextByte(0x00, s, 233, 0xFF, 0x4E, 0x1E);
    NextByte(0x00, s, 234, 0xFF, 0x1E, 0xA9);
    NextByte(0x00, s, 235, 0xFF, 0xA9, 0xA5);
    NextByte(0x00, s, 236, 0xFF, 0xA5, 0x81);
    NextByte(0x00, s, 237, 0xFF, 0x81, 0x7D);
    NextByte(0x00, s, 238, 0xFF, 0x7D, 0x87);
    NextByte(0x00, s, 239, 0xFF, 0x87, 0x6F);
  }

  lemma CrcOfOnesPart15()
    requires CrcFrom(0x00, Fill(0xFF, 256)[..240]) == 0x6F
    ensures CrcFrom(0x00, Fill(0xFF, 256)[..256]) == 0x24
  {
    var s := Fill(0xFF, 256);
    NextByte(0x00, s, 240, 0xFF, 0x6F, 0xF9);
    NextByte(0x00, s, 241, 0xFF, 0xF9, 0x12);
    NextByte(0x00, s, 242, 0xFF, 0x12, 0x8D);
    NextByte(0x00, s, 243, 0xFF, 0x8D, 0x59);
    NextByte(0x00, s, 244, 0xFF, 0x59, 0x7B);
    NextByte(0x00, s, 245, 0xFF, 0x7B, 0x95);
    NextByte(0x00, s, 246, 0xFF, 0x95, 0x11);
    NextByte(0x00, s, 247, 0xFF, 0x11, 0x84);
    NextByte(0x00, s, 248, 0xFF, 0x84, 0x66);
    NextByte(0x00, s, 249, 0xFF, 0x66, 0xC6);
    NextByte(0x00, s, 250, 0xFF, 0xC6, 0xAF);
    NextByte(0x00, s, 251, 0xFF, 0xAF, 0xB7);
    NextByte(0x00, s, 252, 0xFF, 0xB7, 0xFF);
    NextByte(0x00, s, 253, 0xFF, 0xFF, 0x00);
    NextByte(0x00, s, 254, 0xFF, 0x00, 0xF3);
    NextByte(0x00, s, 255, 0xFF, 0xF3, 0x24);
  }

  /** A sequence is its own prefix of full length. */
  lemma Whole(s: seq<byte>)
    ensures s[..|s|] == s
  {
  }

  /** `test6`: 256 bytes 0xFF. */
  lemma CrcOfOnes()
    ensures Crc(Fill(0xFF, 256)) == 36
  {
    CrcOfOnesPart0();
    CrcOfOnesPart1();
    CrcOfOnesPart2();
    CrcOfOnesPart3();
    CrcOfOnesPart4();
    CrcOfOnesPart5();
    CrcOfOnesPart6();
    CrcOfOnesPart7();
    CrcOfOnesPart8();
    CrcOfOnesPart9();
    CrcOfOnesPart10();
    CrcOfOnesPart11();
    CrcOfOnesPart12();
    CrcOfOnesPart13();
    CrcOfOnesPart14();
    CrcOfOnesPart15();
    Whole(Fill(0xFF, 256));
  }

  lemma CrcOfHelloPart0()
    ensures CrcFrom(0x00, [0x68, 0x65, 0x6C, 0x6C]) == 0xEA
  {
    var s := [0x68, 0x65, 0x6C, 0x6C];
    assert s[..0] == [];
    NextByte(0x00, s, 0, 0x68, 0x00, 0x1F);
    NextByte(0x00, s, 1, 0x65, 0x1F, 0x61);
    NextByte(0x00, s, 2, 0x6C, 0x61, 0x23);
    NextByte(0x00, s, 3, 0x6C, 0x23, 0xEA);
    assert s[..4] == s;
  }

  lemma CrcOfHelloPart1()
    ensures CrcFrom(0xEA, [0x6F]) == 0x92
  {
    var s := [0x6F];
    assert s[..0] == [];
    NextByte(0xEA, s, 0, 0x6F, 0xEA, 0x92);
    assert s[..1] == s;
  }

  /** `test7`: the string "hello" without its terminator. */
  lemma CrcOfHello()
    ensures Crc([0x68, 0x65, 0x6C, 0x6C, 0x6F]) == 146
  {
    var t1 := [0x6F];
    CrcOfHelloPart1();
    var t0 := [0x68, 0x65, 0x6C, 0x6C] + t1;
    CrcOfHelloPart0();
    CrcAppend(0x00, [0x68, 0x65, 0x6C, 0x6C], t1);
    assert t0 == [0x68, 0x65, 0x6C, 0x6C, 0x6F];
  }

  lemma CrcOfZeroDigitsPart0()
    ensures CrcFrom(0x00, [0x30, 0x30, 0x30, 0x30]) == 0x21
  {
    var s := [0x30, 0x30, 0x30, 0x30];
    assert s[..0] == [];
    NextByte(0x00, s, 0, 0x30, 0x00, 0x90);
    NextByte(0x00, s, 1, 0x30, 0x90, 0x69);
    NextByte(0x00, s, 2, 0x30, 0x69, 0x88);
    NextByte(0x00, s, 3, 0x30, 0x88, 0x21);
    assert s[..4] == s;
  }

  lemma CrcOfZeroDigitsPart1()
    ensures CrcFrom(0x21, [0x30]) == 0x77
  {
    var s := [0x30];
    assert s[..0] == [];
    NextByte(0x21, s, 0, 0x30, 0x21, 0x77);
    assert s[..1] == s;
  }

  /** `test8`: the string "00000" without its terminator. */
  lemma CrcOfZeroDigits()
    ensures Crc([0x30, 0x30, 0x30, 0x30, 0x30]) == 119
  {
    var t1 := [0x30];
    CrcOfZeroDigitsPart1();
    var t0 := [0x30, 0x30, 0x30, 0x30] + t1;
    CrcOfZeroDigitsPart0();
    CrcAppend(0x00, [0x30, 0x30, 0x30, 0x30], t1);
    assert t0 == [0x30, 0x30, 0x30, 0x30, 0x30];
  }

  lemma CrcOfPangramPart0()
    ensures CrcFrom(0x00, [0x54, 0x68, 0x65, 0x20]) == 0x64
  {
    var s := [0x54, 0x68, 0x65, 0x20];
    assert s[..0] == [];
    NextByte(0x00, s, 0, 0x54, 0x00, 0xAB);
    NextByte(0x00, s, 1, 0x68, 0xAB, 0x47);
    NextByte(0x00, s, 2, 0x65, 0x47, 0xEE);
    NextByte(0x00, s, 3, 0x20, 0xEE, 0x64);
    assert s[..4] == s;
  }

  lemma CrcOfPangramPart1()
    ensures CrcFrom(0x64, [0x71, 0x75, 0x69, 0x63]) == 0xE8
  {
    var s := [0x71, 0x75, 0x69, 0x63];
    assert s[..0] == [];
    NextByte(0x64, s, 0, 0x71, 0x64, 0x6B);
    NextByte(0x64, s, 1, 0x75, 0x6B, 0x5A);
    NextByte(0x64, s, 2, 0x69, 0x5A, 0x99);
    NextByte(0x64, s, 3, 0x63, 0x99, 0xE8);
    assert s[..4] == s;
  }

  lemma CrcOfPangramPart2()
    ensures CrcFrom(0xE8, [0x6B, 0x20, 0x62, 0x72]) == 0xCE
  {
    var s := [0x6B, 0x20, 0x62, 0x72];
    assert s[..0] == [];
    NextByte(0xE8, s, 0, 0x6B, 0xE8, 0x80);
    NextByte(0xE8, s, 1, 0x20, 0x80, 0x69);
    NextByte(0xE8, s, 2, 0x62, 0x69, 0x31);
    NextByte(0xE8, s, 3, 0x72, 0x31, 0xCE);
    assert s[..4] == s;
  }

  lemma CrcOfPangramPart3()
    ensures CrcFrom(0xCE, [0x6F, 0x77, 0x6E, 0x20]) == 0x5B
  {
    var s := [0x6F, 0x77, 0x6E, 0x20];
    assert s[..0] == [];
    NextByte(0xCE, s, 0, 0x6F, 0xCE, 0x6E);
    NextByte(0xCE, s, 1, 0x77, 0x6E, 0x4F);
    NextByte(0xCE, s, 2, 0x6E, 0x4F, 0xE7);
    NextByte(0xCE, s, 3, 0x20, 0xE7, 0x5B);
    assert s[..4] == s;
  }

  lemma CrcOfPangramPart4()
    ensures CrcFrom(0x5B, [0x66, 0x6F, 0x78, 0x20]) == 0x3F
  {
    var s := [0x66, 0x6F, 0x78, 0x20];
    assert s[..0] == [];
    NextByte(0x5B, s, 0, 0x66, 0x5B, 0xB3);
    NextByte(0x5B, s, 1, 0x6F, 0xB3, 0x1A);
    NextByte(0x5B, s, 2, 0x78, 0x1A, 0x29);
    NextByte(0x5B, s, 3, 0x20, 0x29, 0x3F);
    assert s[..4] == s;
  }

  lemma CrcOfPangramPart5()
    ensures CrcFrom(0x3F, [0x6A, 0x75, 0x6D, 0x70]) == 0x5E
  {
    var s := [0x6A, 0x75, 0x6D, 0x70];
    assert s[..0] == [];
    NextByte(0x3F, s, 0, 0x6A, 0x3F, 0xAC);
    NextByte(0x3F, s, 1, 0x75, 0xAC, 0x01);
    NextByte(0x3F, s, 2, 0x6D, 0x01, 0x03);
    NextByte(0x3F, s, 3, 0x70, 0x03, 0x5E);
    assert s[..4] == s;
  }

  lemma CrcOfPangramPart6()
    ensures CrcFrom(0x5E, [0x73, 0x20, 0x6F, 0x76]) == 0x00
  {
    var s := [0x73, 0x20, 0x6F, 0x76];
    assert s[..0] == [];
    NextByte(0x5E, s, 0, 0x73, 0x5E, 0xC3);
    NextByte(0x5E, s, 1, 0x20, 0xC3, 0xA7);
    NextByte(0x5E, s, 2, 0x6F, 0xA7, 0x76);
    NextByte(0x5E, s, 3, 0x76, 0x76, 0x00);
    assert s[..4] == s;
  }

  lemma CrcOfPangramPart7()
    ensures CrcFrom(0x00, [0x65, 0x72, 0x20, 0x74]) == 0x4F
  {
    var s := [0x65, 0x72, 0x20, 0x74];
    assert s[..0] == [];
    NextByte(0x00, s, 0, 0x65, 0x00, 0x3C);
    NextByte(0x00, s, 1, 0x72, 0x3C, 0xED);
    NextByte(0x00, s, 2, 0x20, 0xED, 0x6D);
    NextByte(0x00, s, 3, 0x74, 0x6D, 0x4F);
    assert s[..4] == s;
  }

  lemma CrcOfPangramPart8()
    ensures CrcFrom(0x4F, [0x68, 0x65, 0x20, 0x6C]) == 0x04
  {
    var s := [0x68, 0x65, 0x20, 0x6C];
    assert s[..0] == [];
    NextByte(0x4F, s, 0, 0x68, 0x4F, 0xF5);
    NextByte(0x4F, s, 1, 0x65, 0xF5, 0xF9);
    NextByte(0x4F, s, 2, 0x20, 0xF9, 0x01);
    NextByte(0x4F, s, 3, 0x6C, 0x01, 0x04);
    assert s[..4] == s;
  }

  lemma CrcOfPangramPart9()
    ensures CrcFrom(0x04, [0x61, 0x7A, 0x79, 0x20]) == 0x04
  {
    var s := [0x61, 0x7A, 0x79, 0x20];
    assert s[..0] == [];
    NextByte(0x04, s, 0, 0x61, 0x04, 0x3C);
    NextByte(0x04, s, 1, 0x7A, 0x3C, 0xD5);
    NextByte(0x04, s, 2, 0x79, 0xD5, 0x4D);
    NextByte(0x04, s, 3, 0x20, 0x4D, 0x04);
    assert s[..4] == s;
  }

  lemma CrcOfPangramPart10()
    ensures CrcFrom(0x04, [0x64, 0x6F, 0x67, 0x2E]) == 0x83
  {
    var s := [0x64, 0x6F, 0x67, 0x2E];
    assert s[..0] == [];
    NextByte(0x04, s, 0, 0x64, 0x04, 0x27);
    NextByte(0x04, s, 1, 0x6F, 0x27, 0xFF);
    NextByte(0x04, s, 2, 0x67, 0xFF, 0xC1);
    NextByte(0x04, s, 3, 0x2E, 0xC1, 0x83);
    assert s[..4] == s;
  }

  /** `test9`: the 44 characters of the pangram. */
  lemma CrcOfPangram()
    ensures Crc(Pangram()) == 131
  {
    var t10 := [0x64, 0x6F, 0x67, 0x2E];
    CrcOfPangramPart10();
    var t9 := [0x61, 0x7A, 0x79, 0x20] + t10;
    CrcOfPangramPart9();
    CrcAppend(0x04, [0x61, 0x7A, 0x79, 0x20], t10);
    var t8 := [0x68, 0x65, 0x20, 0x6C] + t9;
    CrcOfPangramPart8();
    CrcAppend(0x4F, [0x68, 0x65, 0x20, 0x6C], t9);
    var t7 := [0x65, 0x72, 0x20, 0x74] + t8;
    CrcOfPangramPart7();
    CrcAppend(0x00, [0x65, 0x72, 0x20, 0x74], t8);
    var t6 := [0x73, 0x20, 0x6F, 0x76] + t7;
    CrcOfPangramPart6();
    CrcAppend(0x5E, [0x73, 0x20, 0x6F, 0x76], t7);
    var t5 := [0x6A, 0x75, 0x6D, 0x70] + t6;
    CrcOfPangramPart5();
    CrcAppend(0x3F, [0x6A, 0x75, 0x6D, 0x70], t6);
    var t4 := [0x66, 0x6F, 0x78, 0x20] + t5;
    CrcOfPangramPart4();
    CrcAppend(0x5B, [0x66, 0x6F, 0x78, 0x20], t5);
    var t3 := [0x6F, 0x77, 0x6E, 0x20] + t4;
    CrcOfPangramPart3();
    CrcAppend(0xCE, [0x6F, 0x77, 0x6E, 0x20], t4);
    var t2 := [0x6B, 0x20, 0x62, 0x72] + t3;
    CrcOfPangramPart2();
    CrcAppend(0xE8, [0x6B, 0x20, 0x62, 0x72], t3);
    var t1 := [0x71, 0x75, 0x69, 0x63] + t2;
    CrcOfPangramPart1();
    CrcAppend(0x64, [0x71, 0x75, 0x69, 0x63], t2);
    var t0 := [0x54, 0x68, 0x65, 0x20] + t1;
    CrcOfPangramPart0();
    CrcAppend(0x00, [0x54, 0x68, 0x65, 0x20], t1);
  }

}
