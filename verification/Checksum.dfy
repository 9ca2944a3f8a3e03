/** src/filesystem/persist.c, `crc32_buf`: the checksum over a snapshot, and which damage it always tells. */
module Checksum {
  import opened MachineWords
  import opened Snapshot

  const POLYNOMIAL: uint32 := 0xEDB8_8320

  /** One bit: a shift, with the polynomial taken off when a one is shifted out. */
  function CrcBit(c: uint32): uint32 {
    Xor(c / 2, if c % 2 == 1 then POLYNOMIAL else 0)
  }

  function CrcBits(c: uint32, k: nat): uint32 {
    if k == 0 then c else CrcBit(CrcBits(c, k - 1))
  }

  function CrcFrom(c: uint32, p: seq<byte>): uint32 {
    if p == [] then c else CrcBits(Xor(CrcFrom(c, p[..|p| - 1]), p[|p| - 1]), 8)
  }

  function Crc32(p: seq<byte>): uint32 {
    0xFFFF_FFFF - CrcFrom(0xFFFF_FFFF, p)
  }

  /** The loops of `crc32_buf`, over bytes and over bits. */
  method Crc32Buf(p: seq<byte>) returns (crc: uint32)
    ensures crc == Crc32(p)
  {
    hide Xor, CrcBit;
    var c: uint32 := 0xFFFF_FFFF;
    for i := 0 to |p|
      invariant c == CrcFrom(0xFFFF_FFFF, p[..i])
    {
      assert p[..i + 1][..i] == p[..i];
      c := Xor(c, p[i]);
      ghost var start := c;
      for k := 0 to 8
        invariant c == CrcBits(start, k)
      {
        c := CrcBit(c);
      }
    }
    assert p[..|p|] == p;
    crc := 0xFFFF_FFFF - c;
  }

  // ---- exclusive or ----

  lemma {:induction false} XorZero(x: nat)
    ensures BitXor(x, 0) == x
  {
    if x > 0 { XorZero(x / 2); }
  }

  lemma {:induction false} XorCommutes(x: nat, y: nat)
    ensures BitXor(x, y) == BitXor(y, x)
    decreases x + y
  {
    if x + y > 0 { XorCommutes(x / 2, y / 2); }
  }

  lemma {:induction false} XorAssociates(x: nat, y: nat, z: nat)
    ensures BitXor(BitXor(x, y), z) == BitXor(x, BitXor(y, z))
    decreases x + y + z
  {
    if x + y + z > 0 {
      hide BitXor;
      XorDigits(x, y);
      XorDigits(y, z);
      XorDigits(BitXor(x, y), z);
      XorDigits(x, BitXor(y, z));
      XorAssociates(x / 2, y / 2, z / 2);
    }
  }

  lemma {:induction false} XorInjective(x: nat, y: nat, z: nat)
    requires BitXor(x, y) == BitXor(x, z)
    ensures y == z
    decreases x + y + z
  {
    if x + y + z > 0 {
      hide BitXor;
      XorDigits(x, y);
      XorDigits(x, z);
      XorInjective(x / 2, y / 2, z / 2);
    }
  }

  /** A top bit in one word only stays. */
  lemma {:induction false} XorTop(x: nat, y: nat, k: nat)
    requires x < Pow2(k) <= y < Pow2(k + 1)
    ensures Pow2(k) <= BitXor(x, y)
  {
    if k > 0 {
      hide BitXor;
      XorDigits(x, y);
      XorTop(x / 2, y / 2, k - 1);
    }
  }

  lemma {:induction false} XorDisjoint(low: nat, high: nat, k: nat)
    requires low < Pow2(k)
    ensures BitXor(low, high * Pow2(k)) == low + high * Pow2(k)
  {
    if k == 0 {
      XorCommutes(0, high);
      XorZero(high);
    } else {
      hide BitXor;
      ScaleProduct(high, 2, Pow2(k - 1));
      XorDisjoint(low / 2, high, k - 1);
      XorDouble(low, high * Pow2(k - 1));
    }
  }

  lemma XorDouble(low: nat, h: nat)
    requires BitXor(low / 2, h) == low / 2 + h
    ensures BitXor(low, 2 * h) == low + 2 * h
  {
    hide BitXor;
    var d := 2 * h;
    assert d / 2 == h && d % 2 == 0;
    XorDigits(low, d);
    FromDigits(low);
    FromDigits(BitXor(low, d));
  }

  lemma FromDigits(x: nat)
    ensures x == 2 * (x / 2) + x % 2
  {}

  lemma ScaleProduct(b: int, m: int, p: int)
    ensures b * (m * p) == m * (b * p)
  {}

  // ---- no two states become one ----

  lemma CrcBitInjective(c: uint32, d: uint32)
    requires CrcBit(c) == CrcBit(d)
    ensures c == d
  {
    hide BitXor, Pow2;
    WordSize();
    HalfWord();
    if c % 2 == d % 2 {
      var p := if c % 2 == 1 then POLYNOMIAL else 0;
      XorCommutes(c / 2, p);
      XorCommutes(d / 2, p);
      XorInjective(p, c / 2, d / 2);
    } else {
      XorTop(c / 2, POLYNOMIAL, 31);
      XorTop(d / 2, POLYNOMIAL, 31);
      XorZero(c / 2);
      XorZero(d / 2);
    }
  }

  lemma HalfWord()
    ensures Pow2(31) == 0x8000_0000 && Pow2(32) == WORD
  {
    hide Pow2;
    WordSize();
    assert Pow2(32) == 2 * Pow2(31) by { PowStep(31); }
  }

  lemma PowStep(k: nat)
    ensures Pow2(k + 1) == 2 * Pow2(k)
  {}

  lemma {:induction false} CrcBitsInjective(c: uint32, d: uint32, k: nat)
    requires CrcBits(c, k) == CrcBits(d, k)
    ensures c == d
  {
    hide CrcBit;
    if k > 0 {
      CrcBitInjective(CrcBits(c, k - 1), CrcBits(d, k - 1));
      CrcBitsInjective(c, d, k - 1);
    }
  }

  /** States that differ stay different over the same bytes. */
  lemma {:induction false} CrcFromInjective(c: uint32, d: uint32, p: seq<byte>)
    requires CrcFrom(c, p) == CrcFrom(d, p)
    ensures c == d
  {
    hide CrcBits, BitXor;
    if p != [] {
      var init, last := p[..|p| - 1], p[|p| - 1];
      var e, f := CrcFrom(c, init), CrcFrom(d, init);
      CrcBitsInjective(Xor(e, last), Xor(f, last), 8);
      XorCommutes(e, last);
      XorCommutes(f, last);
      XorInjective(last, e, f);
      CrcFromInjective(c, d, init);
    }
  }

  lemma {:induction false} CrcFromAppend(c: uint32, a: seq<byte>, b: seq<byte>)
    ensures CrcFrom(c, a + b) == CrcFrom(CrcFrom(c, a), b)
  {
    hide CrcBits, Xor;
    if b == [] {
      assert a + b == a;
    } else {
      assert (a + b)[..|a + b| - 1] == a + b[..|b| - 1];
      CrcFromAppend(c, a, b[..|b| - 1]);
    }
  }

  // ---- up to four bytes at once ----

  lemma CrcBitShift(c: uint32, h: nat)
    requires 2 * h < WORD
    ensures CrcBit(Xor(c, 2 * h)) == Xor(CrcBit(c), h)
  {
    hide BitXor;
    var p := if c % 2 == 1 then POLYNOMIAL else 0;
    XorDigits(c, 2 * h);
    XorAssociates(c / 2, h, p);
    XorCommutes(h, p);
    XorAssociates(c / 2, p, h);
  }

  /** Bits k places up have come down after k steps. */
  lemma {:induction false} CrcBitsShift(c: uint32, h: nat, k: nat)
    requires h * Pow2(k) < WORD && h < WORD
    ensures CrcBits(Xor(c, h * Pow2(k)), k) == Xor(CrcBits(c, k), h)
    decreases k
  {
    hide CrcBit, Xor;
    if k > 0 {
      Pow2Positive(k - 1);
      DoubleProduct(h, Pow2(k - 1));
      CrcBitsShift(c, 2 * h, k - 1);
      CrcBitShift(CrcBits(c, k - 1), h);
    }
  }

  lemma {:induction false} CrcBitsMore(c: uint32, j: nat, k: nat)
    ensures CrcBits(CrcBits(c, j), k) == CrcBits(c, j + k)
  {
    hide CrcBit;
    if k > 0 { CrcBitsMore(c, j, k - 1); }
  }

  lemma {:induction false} NumberAppend(s: seq<byte>, b: byte)
    ensures Number(s + [b]) == Number(s) + b * Pow2(8 * |s|)
    ensures Number(s) < Pow2(8 * |s|)
  {
    if s == [] {
      assert [] + [b] == [b] && [b][1..] == [];
    } else {
      assert (s + [b])[1..] == s[1..] + [b];
      NumberAppend(s[1..], b);
      hide Pow2;
      ByteUp(8 * |s[1..]|);
      ScaleProduct(b, 256, Pow2(8 * |s[1..]|));
    }
  }

  lemma ByteUp(k: nat)
    ensures Pow2(k + 8) == 256 * Pow2(k)
  {
    hide Pow2;
    PowStep(k);
    PowStep(k + 1);
    PowStep(k + 2);
    PowStep(k + 3);
    PowStep(k + 4);
    PowStep(k + 5);
    PowStep(k + 6);
    PowStep(k + 7);
  }

  lemma {:induction false} NumberInjective(x: seq<byte>, y: seq<byte>)
    requires |x| == |y| && Number(x) == Number(y)
    ensures x == y
  {
    if x != [] {
      NumberInjective(x[1..], y[1..]);
      assert x == [x[0]] + x[1..] && y == [y[0]] + y[1..];
    }
  }

  /** The checksum of up to four bytes is that of one word. */
  lemma {:induction false} CrcOfWord(c: uint32, x: seq<byte>)
    requires |x| <= 4
    ensures Number(x) < WORD && CrcFrom(c, x) == CrcBits(Xor(c, Number(x)), 8 * |x|)
  {
    hide CrcBits, BitXor;
    if x == [] {
      XorZero(c);
      assert CrcBits(c, 0) == c by { NoBits(c); }
    } else {
      var init, b := x[..|x| - 1], x[|x| - 1];
      CrcOfWord(c, init);
      CrcOfWordStep(c, init, b);
      assert init + [b] == x;
    }
  }

  lemma NoBits(c: uint32)
    ensures CrcBits(c, 0) == c
  {}

  lemma CrcOfWordStep(c: uint32, init: seq<byte>, b: byte)
    requires |init| <= 3
    requires Number(init) < WORD && CrcFrom(c, init) == CrcBits(Xor(c, Number(init)), 8 * |init|)
    ensures Number(init + [b]) < WORD
    ensures CrcBits(Xor(CrcFrom(c, init), b), 8) == CrcBits(Xor(c, Number(init + [b])), 8 * |init + [b]|)
  {
    hide CrcBits, BitXor, CrcFrom, Number, Pow2;
    var k, n := 8 * |init|, Number(init);
    NumberAppend(init, b);
    ByteFits(|init|, b);
    CrcBitsShift(Xor(c, n), b, k);
    CrcBitsMore(Xor(Xor(c, n), b * Pow2(k)), k, 8);
    XorAssociates(c, n, b * Pow2(k));
    XorDisjoint(n, b, k);
  }

  lemma ByteFits(k: nat, b: byte)
    requires k <= 3
    ensures b * Pow2(8 * k) + Pow2(8 * k) <= WORD
  {
    hide Pow2;
    WordSize();
    ByteUp(0);
    ByteUp(8);
    ByteUp(16);
    assert Pow2(0) == 1 by { NoPower(); }
  }

  lemma NoPower()
    ensures Pow2(0) == 1
  {}

  /** Damage confined to four bytes in a row never passes the checksum. */
  lemma BurstDetected(a: seq<byte>, x: seq<byte>, y: seq<byte>, z: seq<byte>)
    requires |x| == |y| <= 4 && x != y
    ensures Crc32(a + x + z) != Crc32(a + y + z)
  {
    hide CrcFrom, CrcBits, BitXor, Number;
    var c := CrcFrom(0xFFFF_FFFF, a);
    if Crc32(a + x + z) == Crc32(a + y + z) {
      CrcFromAppend(0xFFFF_FFFF, a + x, z);
      CrcFromAppend(0xFFFF_FFFF, a + y, z);
      CrcFromAppend(0xFFFF_FFFF, a, x);
      CrcFromAppend(0xFFFF_FFFF, a, y);
      CrcFromInjective(CrcFrom(c, x), CrcFrom(c, y), z);
      CrcOfWord(c, x);
      CrcOfWord(c, y);
      CrcBitsInjective(Xor(c, Number(x)), Xor(c, Number(y)), 8 * |x|);
      XorInjective(c, Number(x), Number(y));
      NumberInjective(x, y);
    }
  }
}
