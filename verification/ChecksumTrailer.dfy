/** The checksum of persist.c against its own trailer: which four bytes after a text give the standard
    residue, with the constants worked out bit by bit. */
module ChecksumTrailer {
  import opened MachineWords
  import opened Snapshot
  import opened Checksum

  // ---- exclusive or on hexadecimal digits ----

  function XorDigit(a: nat, b: nat): (r: nat)
    requires a < 16 && b < 16
    ensures r < 16
  {
    ((a as bv4) ^ (b as bv4)) as nat
  }

  lemma XorStep(x: nat, y: nat)
    ensures BitXor(x, y) == (if x % 2 != y % 2 then 1 else 0) + 2 * BitXor(x / 2, y / 2)
  {}

  lemma FourXorSteps(x: nat, y: nat)
    ensures BitXor(x, y) ==
            (if x % 2 != y % 2 then 1 else 0) + (if x / 2 % 2 != y / 2 % 2 then 2 else 0)
            + (if x / 4 % 2 != y / 4 % 2 then 4 else 0) + (if x / 8 % 2 != y / 8 % 2 then 8 else 0)
            + 16 * BitXor(x / 16, y / 16)
  {
    hide BitXor;
    XorStep(x, y);
    XorStep(x / 2, y / 2);
    XorStep(x / 4, y / 4);
    XorStep(x / 8, y / 8);
    assert x / 2 / 2 == x / 4 && x / 4 / 2 == x / 8 && x / 8 / 2 == x / 16;
    assert y / 2 / 2 == y / 4 && y / 4 / 2 == y / 8 && y / 8 / 2 == y / 16;
  }

  lemma DigitXor(a: nat, b: nat)
    requires a < 16 && b < 16
    ensures BitXor(a, b) == XorDigit(a, b)
  {
    hide BitXor;
    FourXorSteps(a, b);
    XorZero(0);
  }

  lemma LastBit(x: nat, a: nat, y: nat, b: nat)
    requires a < 2 && b < 2
    ensures BitXor(2 * x + a, 2 * y + b) == 2 * BitXor(x, y) + if a != b then 1 else 0
  {
    hide BitXor;
    var u, v := 2 * x + a, 2 * y + b;
    assert u / 2 == x && u % 2 == a && v / 2 == y && v % 2 == b;
    XorStep(u, v);
  }

  /** A digit from its four bits. */
  function Nibble(d: nat, c: nat, b: nat, a: nat): nat { 8 * d + 4 * c + 2 * b + a }

  lemma LastFour(x: nat, d: nat, c: nat, b: nat, a: nat, y: nat, h: nat, g: nat, f: nat, e: nat)
    requires a < 2 && b < 2 && c < 2 && d < 2 && e < 2 && f < 2 && g < 2 && h < 2
    ensures BitXor(16 * x + Nibble(d, c, b, a), 16 * y + Nibble(h, g, f, e)) ==
            16 * BitXor(x, y) + Nibble(if d != h then 1 else 0, if c != g then 1 else 0,
                                       if b != f then 1 else 0, if a != e then 1 else 0)
  {
    hide BitXor;
    LastBit(x, d, y, h);
    LastBit(2 * x + d, c, 2 * y + h, g);
    LastBit(4 * x + 2 * d + c, b, 4 * y + 2 * h + g, f);
    LastBit(8 * x + 4 * d + 2 * c + b, a, 8 * y + 4 * h + 2 * g + f, e);
  }

  lemma LastDigit(x: nat, a: nat, y: nat, b: nat)
    requires a < 16 && b < 16
    ensures BitXor(16 * x + a, 16 * y + b) == 16 * BitXor(x, y) + XorDigit(a, b)
  {
    hide BitXor, XorDigit, Nibble;
    NibbleBits(a);
    NibbleBits(b);
    LastFour(x, a / 8, a / 4 % 2, a / 2 % 2, a % 2, y, b / 8, b / 4 % 2, b / 2 % 2, b % 2);
    LastFour(0, a / 8, a / 4 % 2, a / 2 % 2, a % 2, 0, b / 8, b / 4 % 2, b / 2 % 2, b % 2);
    XorZero(0);
    DigitXor(a, b);
  }

  lemma NibbleBits(a: nat)
    requires a < 16
    ensures a == Nibble(a / 8, a / 4 % 2, a / 2 % 2, a % 2) && a / 8 < 2
  {
    var x, y := a / 2, a / 4;
    assert x / 2 == y && y / 2 == a / 8;
    assert a == 2 * x + a % 2 && x == 2 * y + x % 2 && y == 2 * (a / 8) + y % 2;
  }

  /** Half a word from its four digits. */
  function Half(a: nat, b: nat, c: nat, d: nat): nat { 0x1000 * a + 0x100 * b + 0x10 * c + d }

  // ---- single bits of the checksum ----

  lemma EvenBit(x: nat)
    requires 2 * x < WORD
    ensures CrcBit(2 * x) == x
  {
    XorZero(x);
  }

  lemma HighDigits(a: nat, b: nat, c: nat, d: nat)
    requires a < 16 && b < 16 && c < 16 && d < 16
    ensures BitXor(Half(a, b, c, d), 0xEDB8) ==
            Half(XorDigit(a, 0xE), XorDigit(b, 0xD), XorDigit(c, 0xB), XorDigit(d, 8))
  {
    hide BitXor, XorDigit;
    XorZero(0);
    LastDigit(0, a, 0, 0xE);
    LastDigit(a, b, 0xE, 0xD);
    LastDigit(0x10 * a + b, c, 0xED, 0xB);
    LastDigit(0x100 * a + 0x10 * b + c, d, 0xEDB, 8);
  }

  lemma LowDigits(v: nat, e: nat, f: nat, g: nat, h: nat)
    requires e < 16 && f < 16 && g < 16 && h < 16
    ensures BitXor(0x1_0000 * v + Half(e, f, g, h), 0xEDB8_8320) ==
            0x1_0000 * BitXor(v, 0xEDB8) + Half(XorDigit(e, 8), XorDigit(f, 3), XorDigit(g, 2), XorDigit(h, 0))
  {
    hide BitXor, XorDigit;
    LastDigit(v, e, 0xEDB8, 8);
    LastDigit(0x10 * v + e, f, 0xE_DB88, 3);
    LastDigit(0x100 * v + 0x10 * e + f, g, 0xED_B883, 2);
    LastDigit(0x1000 * v + 0x100 * e + 0x10 * f + g, h, 0xEDB_8832, 0);
  }

  lemma OddBit(a: nat, b: nat, c: nat, d: nat, e: nat, f: nat, g: nat, h: nat)
    requires a < 8 && b < 16 && c < 16 && d < 16 && e < 16 && f < 16 && g < 16 && h < 16
    ensures CrcBit(2 * (0x1_0000 * Half(a, b, c, d) + Half(e, f, g, h)) + 1) ==
            0x1_0000 * Half(XorDigit(a, 0xE), XorDigit(b, 0xD), XorDigit(c, 0xB), XorDigit(d, 8))
            + Half(XorDigit(e, 8), XorDigit(f, 3), XorDigit(g, 2), XorDigit(h, 0))
  {
    hide BitXor, XorDigit, CrcBit, Half;
    HalfBound(a, b, c, d);
    HalfBound(e, f, g, h);
    HighDigits(a, b, c, d);
    LowDigits(Half(a, b, c, d), e, f, g, h);
    ShiftedOut(0x1_0000 * Half(a, b, c, d) + Half(e, f, g, h));
  }

  lemma HalfBound(a: nat, b: nat, c: nat, d: nat)
    requires a < 16 && b < 16 && c < 16 && d < 16
    ensures Half(a, b, c, d) < 0x1000 * (a + 1) <= 0x1_0000
  {}

  lemma ShiftedOut(x: nat)
    requires 2 * x + 1 < WORD
    ensures CrcBit(2 * x + 1) == BitXor(x, 0xEDB8_8320)
  {
    hide BitXor;
    var v := 2 * x + 1;
    assert v / 2 == x && v % 2 == 1;
  }

  lemma FourBits(c: uint32, d: uint32, e: uint32, f: uint32, g: uint32)
    requires CrcBit(c) == d && CrcBit(d) == e && CrcBit(e) == f && CrcBit(f) == g
    ensures CrcBits(c, 4) == g
  {
    hide CrcBit;
    assert CrcBits(c, 1) == d;
    assert CrcBits(c, 2) == e;
    assert CrcBits(c, 3) == f;
  }

  // ---- the bits of the full word, four at a time ----

  lemma FirstFour()
    ensures CrcBits(0xFFFF_FFFF, 4) == 0xB242_0DE3
  {
    hide CrcBit;
    OddBit(7, 15, 15, 15, 15, 15, 15, 15);
    OddBit(4, 9, 2, 3, 11, 14, 6, 15);
    OddBit(5, 2, 4, 13, 9, 14, 10, 7);
    OddBit(5, 15, 15, 10, 8, 14, 12, 3);
    FourBits(0xFFFF_FFFF, 0x9247_7CDF, 0xA49B_3D4F, 0xBFF5_1D87, 0xB242_0DE3);
  }

  lemma SecondFour()
    ensures CrcBits(0xB242_0DE3, 4) == 0x2DFD_1072
  {
    hide CrcBit;
    OddBit(5, 9, 2, 1, 0, 6, 15, 1);
    OddBit(5, 10, 4, 12, 12, 2, 14, 8);
    EvenBit(0x5BFA_20E4);
    EvenBit(0x2DFD_1072);
    FourBits(0xB242_0DE3, 0xB499_85D1, 0xB7F4_41C8, 0x5BFA_20E4, 0x2DFD_1072);
  }

  lemma ThirdFour()
    ensures CrcBits(0x2DFD_1072, 4) == 0x39B1_F1CF
  {
    hide CrcBit;
    EvenBit(0x16FE_8839);
    OddBit(0, 11, 7, 15, 4, 4, 1, 12);
    EvenBit(0x7363_E39E);
    EvenBit(0x39B1_F1CF);
    FourBits(0x2DFD_1072, 0x16FE_8839, 0xE6C7_C73C, 0x7363_E39E, 0x39B1_F1CF);
  }

  lemma FourthFour()
    ensures CrcBits(0x39B1_F1CF, 4) == 0xBE26_ED00
  {
    hide CrcBit;
    OddBit(1, 12, 13, 8, 15, 8, 14, 7);
    OddBit(7, 8, 11, 0, 3, 13, 14, 3);
    OddBit(4, 10, 8, 4, 5, 15, 6, 1);
    OddBit(5, 3, 9, 14, 6, 14, 2, 0);
    FourBits(0x39B1_F1CF, 0xF160_7BC7, 0x9508_BEC3, 0xA73C_DC41, 0xBE26_ED00);
  }

  lemma FifthFour()
    ensures CrcBits(0xBE26_ED00, 4) == 0x0BE2_6ED0
  {
    hide CrcBit;
    EvenBit(0x5F13_7680);
    EvenBit(0x2F89_BB40);
    EvenBit(0x17C4_DDA0);
    EvenBit(0x0BE2_6ED0);
    FourBits(0xBE26_ED00, 0x5F13_7680, 0x2F89_BB40, 0x17C4_DDA0, 0x0BE2_6ED0);
  }

  lemma SixthFour()
    ensures CrcBits(0x0BE2_6ED0, 4) == 0x00BE_26ED
  {
    hide CrcBit;
    EvenBit(0x05F1_3768);
    EvenBit(0x02F8_9BB4);
    EvenBit(0x017C_4DDA);
    EvenBit(0x00BE_26ED);
    FourBits(0x0BE2_6ED0, 0x05F1_3768, 0x02F8_9BB4, 0x017C_4DDA, 0x00BE_26ED);
  }

  lemma SeventhFour()
    ensures CrcBits(0x00BE_26ED, 4) == 0x86D8_30BA
  {
    hide CrcBit;
    OddBit(0, 0, 5, 15, 1, 3, 7, 6);
    EvenBit(0x76F3_C82B);
    OddBit(3, 11, 7, 9, 14, 4, 1, 5);
    OddBit(6, 11, 6, 0, 11, 3, 9, 10);
    FourBits(0x00BE_26ED, 0xEDE7_9056, 0x76F3_C82B, 0xD6C1_6735, 0x86D8_30BA);
  }

  lemma EighthFour()
    ensures CrcBits(0x86D8_30BA, 4) == 0xDEBB_20E3
  {
    hide CrcBit;
    EvenBit(0x436C_185D);
    OddBit(2, 1, 11, 6, 0, 12, 2, 14);
    EvenBit(0x6607_4787);
    OddBit(3, 3, 0, 3, 10, 3, 12, 3);
    FourBits(0x86D8_30BA, 0x436C_185D, 0xCC0E_8F0E, 0x6607_4787, 0xDEBB_20E3);
  }

  lemma WordOfOnes()
    ensures CrcBits(0xFFFF_FFFF, 32) == 0xDEBB_20E3
  {
    hide CrcBits;
    NoBits(0xFFFF_FFFF);
    FirstFour();
    CrcBitsMore(0xFFFF_FFFF, 0, 4);
    SecondFour();
    CrcBitsMore(0xFFFF_FFFF, 4, 4);
    ThirdFour();
    CrcBitsMore(0xFFFF_FFFF, 8, 4);
    FourthFour();
    CrcBitsMore(0xFFFF_FFFF, 12, 4);
    FifthFour();
    CrcBitsMore(0xFFFF_FFFF, 16, 4);
    SixthFour();
    CrcBitsMore(0xFFFF_FFFF, 20, 4);
    SeventhFour();
    CrcBitsMore(0xFFFF_FFFF, 24, 4);
    EighthFour();
    CrcBitsMore(0xFFFF_FFFF, 28, 4);
  }

  // ---- the trailer ----

  lemma {:induction false} XorComplement(x: nat, k: nat)
    requires x < Pow2(k)
    ensures BitXor(x, Pow2(k) - 1 - x) == Pow2(k) - 1
  {
    if k > 0 {
      hide BitXor;
      var y := Pow2(k) - 1 - x;
      assert y / 2 == Pow2(k - 1) - 1 - x / 2 && x % 2 + y % 2 == 1;
      XorStep(x, y);
      XorComplement(x / 2, k - 1);
    } else {
      XorZero(0);
    }
  }

  /** Nothing has checksum zero. */
  lemma EmptyChecksum()
    ensures Crc32([]) == 0
  {}

  /** Four bytes after a text give the standard residue exactly when they are the text's checksum, least
      significant byte first. */
  lemma TrailerResidue(p: seq<byte>, x: seq<byte>)
    requires |x| == 4
    ensures Crc32(p + x) == 0x2144_DF1C <==> x == Bytes(Crc32(p), 4)
  {
    hide CrcFrom, Number, Bytes, Crc32;
    var trailer := Bytes(Crc32(p), 4);
    ChecksumFollows(p);
    if x != trailer {
      BurstDetected(p, x, trailer, []);
      assert p + x + [] == p + x && p + trailer + [] == p + trailer;
    }
  }

  lemma ChecksumFollows(p: seq<byte>)
    ensures Crc32(p + Bytes(Crc32(p), 4)) == 0x2144_DF1C
  {
    hide CrcFrom, CrcBits, Number, Bytes, BitXor, Pow2;
    var c, trailer := CrcFrom(0xFFFF_FFFF, p), Bytes(Crc32(p), 4);
    WordSize();
    WordBytes(Crc32(p));
    CrcFromAppend(0xFFFF_FFFF, p, trailer);
    CrcOfWord(c, trailer);
    XorComplement(c, 32);
    WordOfOnes();
  }
}
