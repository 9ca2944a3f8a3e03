/** 32-bit machine words as C uses them: unsigned words are integers below 2^32, shifts are products
    and quotients by a power of two, and `|` and `&` are defined bit by bit. */
module MachineWords {
  const WORD := 0x1_0000_0000

  type byte = b: int | 0 <= b < 256

  type uint32 = n: int | 0 <= n < 0x1_0000_0000

  /** The conversion `(uint32_t)n`: reduction modulo 2^32. */
  function ToUint32(n: int): uint32 {
    n % WORD
  }

  /** The conversion of an unsigned word to a two's complement `int`. */
  function ToInt32(w: uint32): int {
    if w < 0x8000_0000 then w else w - WORD
  }

  function Pow2(k: nat): nat
  {
    if k == 0 then 1 else 2 * Pow2(k - 1)
  }

  /** `x | y` on unsigned words. */
  function Or(x: uint32, y: uint32): uint32 {
    WordSize();
    OrBound(x, y, 32);
    BitOr(x, y)
  }

  /** `x & 0xFF` on unsigned words. */
  function LowByte(x: uint32): (r: int)
  {
    BitAnd(x, 0xFF)
  }

  /** `w << k`, one place at a time. */
  function Shl(w: uint32, k: nat): uint32
    decreases k, w
  {
    if k == 0 then w else Shl(ToUint32(2 * w), k - 1)
  }

  /** `w >> k`, one place at a time. */
  function Shr(w: uint32, k: nat): uint32
    decreases k, w
  {
    if k == 0 then w else Shr(w / 2, k - 1)
  }

  lemma {:induction false} ShlProduct(w: uint32, k: nat)
    requires w * Pow2(k) < WORD
    ensures Shl(w, k) == w * Pow2(k)
    decreases k
  {
    if k > 0 {
      hide ToUint32;
      Pow2Positive(k - 1);
      DoubleProduct(w, Pow2(k - 1));
      SmallWord(2 * w);
      ShlProduct(2 * w, k - 1);
    }
  }

  lemma DoubleProduct(w: nat, p: nat)
    requires p >= 1
    ensures w * (2 * p) == (2 * w) * p && 2 * w <= (2 * w) * p
  {
    AtLeast(2 * w, p);
  }

  lemma SmallWord(x: nat)
    requires x < WORD
    ensures ToUint32(x) == x
  {}

  lemma AtLeast(x: nat, d: nat)
    requires d >= 1
    ensures x <= x * d
  {}

  lemma {:induction false} ShrQuotient(w: uint32, k: nat)
    ensures Pow2(k) >= 1 && Shr(w, k) == w / Pow2(k)
  {
    Pow2Positive(k);
    if k > 0 {
      ShrQuotient(w / 2, k - 1);
      HalveQuotient(w, Pow2(k - 1));
    }
  }

  lemma HalveQuotient(x: nat, p: nat)
    requires p >= 1
    ensures x / (2 * p) == x / 2 / p
  {
    var q, r := (x / 2) / p, (x / 2) % p;
    assert x == 2 * (q * p + r) + x % 2;
    assert x == q * (2 * p) + (x % 2 + 2 * r);
    ModUnique(x, 2 * p, q, x % 2 + 2 * r);
  }

  /** Bitwise or, lowest bit first. */
  function BitOr(x: nat, y: nat): nat
    decreases x + y
  {
    if x == 0 && y == 0 then 0
    else (if x % 2 == 1 || y % 2 == 1 then 1 else 0) + 2 * BitOr(x / 2, y / 2)
  }

  /** Bitwise and, lowest bit first. */
  function BitAnd(x: nat, y: nat): nat
    decreases x + y
  {
    if x == 0 && y == 0 then 0
    else (if x % 2 == 1 && y % 2 == 1 then 1 else 0) + 2 * BitAnd(x / 2, y / 2)
  }

  /** Bitwise exclusive or, lowest bit first. */
  function BitXor(x: nat, y: nat): nat
    decreases x + y
  {
    if x == 0 && y == 0 then 0
    else (if x % 2 != y % 2 then 1 else 0) + 2 * BitXor(x / 2, y / 2)
  }

  lemma {:induction false} XorBound(x: nat, y: nat, k: nat)
    requires x < Pow2(k) && y < Pow2(k)
    ensures BitXor(x, y) < Pow2(k)
  {
    if k > 0 { XorBound(x / 2, y / 2, k - 1); }
  }

  /** `x ^ y` on unsigned words. */
  function Xor(x: uint32, y: uint32): uint32 {
    WordSize();
    XorBound(x, y, 32);
    BitXor(x, y)
  }

  /** What the bitwise operators are: they work on each bit by itself. */
  lemma {:induction false} BitwiseOperators(x: nat, y: nat, k: nat)
    ensures Pow2(k) >= 1
    ensures var p := Pow2(k);
            && BitOr(x, y) / p % 2 == (if x / p % 2 == 1 || y / p % 2 == 1 then 1 else 0)
            && BitAnd(x, y) / p % 2 == (if x / p % 2 == 1 && y / p % 2 == 1 then 1 else 0)
            && BitXor(x, y) / p % 2 == (if x / p % 2 != y / p % 2 then 1 else 0)
  {
    Pow2Positive(k);
    OrDigits(x, y);
    AndDigits(x, y);
    XorDigits(x, y);
    if k > 0 {
      hide BitOr, BitAnd, BitXor;
      BitwiseOperators(x / 2, y / 2, k - 1);
      HalveQuotient(x, Pow2(k - 1));
      HalveQuotient(y, Pow2(k - 1));
      HalveQuotient(BitOr(x, y), Pow2(k - 1));
      HalveQuotient(BitAnd(x, y), Pow2(k - 1));
      HalveQuotient(BitXor(x, y), Pow2(k - 1));
    }
  }

  lemma OrDigits(x: nat, y: nat)
    ensures BitOr(x, y) % 2 == (if x % 2 == 1 || y % 2 == 1 then 1 else 0) && BitOr(x, y) / 2 == BitOr(x / 2, y / 2)
  {
    FirstDigit(if x % 2 == 1 || y % 2 == 1 then 1 else 0, BitOr(x / 2, y / 2));
  }

  lemma AndDigits(x: nat, y: nat)
    ensures BitAnd(x, y) % 2 == (if x % 2 == 1 && y % 2 == 1 then 1 else 0) && BitAnd(x, y) / 2 == BitAnd(x / 2, y / 2)
  {
    FirstDigit(if x % 2 == 1 && y % 2 == 1 then 1 else 0, BitAnd(x / 2, y / 2));
  }

  lemma XorDigits(x: nat, y: nat)
    ensures BitXor(x, y) % 2 == (if x % 2 != y % 2 then 1 else 0) && BitXor(x, y) / 2 == BitXor(x / 2, y / 2)
  {
    FirstDigit(if x % 2 != y % 2 then 1 else 0, BitXor(x / 2, y / 2));
  }

  lemma FirstDigit(d: nat, rest: nat)
    requires d < 2
    ensures (d + 2 * rest) % 2 == d && (d + 2 * rest) / 2 == rest
  {}

  /** The bits from place k up, and those below. */
  function High(x: nat, k: nat): nat {
    if k == 0 then x else High(x / 2, k - 1)
  }

  function Low(x: nat, k: nat): nat {
    if k == 0 then 0 else x % 2 + 2 * Low(x / 2, k - 1)
  }

  lemma {:induction false} HighLow(x: nat, k: nat)
    ensures Pow2(k) >= 1 && High(x, k) == x / Pow2(k) && Low(x, k) == x % Pow2(k)
  {
    Pow2Positive(k);
    if k > 0 {
      HighLow(x / 2, k - 1);
      HalveQuotient(x, Pow2(k - 1));
      HalveModulus(x, Pow2(k - 1));
    }
  }

  /** `|` on the two ends of words. */
  lemma {:induction false} OrSplits(x: nat, y: nat, k: nat)
    ensures High(BitOr(x, y), k) == BitOr(High(x, k), High(y, k))
    ensures Low(BitOr(x, y), k) == BitOr(Low(x, k), Low(y, k))
  {
    if k == 0 {
      OrZero(0);
    } else {
      hide BitOr;
      OrSplits(x / 2, y / 2, k - 1);
      OrDigits(x, y);
      OrDouble(x % 2, Low(x / 2, k - 1), y % 2, Low(y / 2, k - 1));
    }
  }

  lemma OrBytes(x: nat, y: nat)
    ensures BitOr(x, y) / 0x100 == BitOr(x / 0x100, y / 0x100) && BitOr(x, y) % 0x100 == BitOr(x % 0x100, y % 0x100)
  {
    hide BitOr, High, Low, Pow2;
    WordSize();
    OrSplits(x, y, 8);
    HighLow(x, 8);
    HighLow(y, 8);
    HighLow(BitOr(x, y), 8);
  }

  lemma OrDouble(a: nat, x: nat, b: nat, y: nat)
    requires a < 2 && b < 2
    ensures BitOr(a + 2 * x, b + 2 * y) == (if a == 1 || b == 1 then 1 else 0) + 2 * BitOr(x, y)
  {
    hide BitOr;
    FirstDigit(a, x);
    FirstDigit(b, y);
    OrDigits(a + 2 * x, b + 2 * y);
  }

  /** A left shift drops what leaves the word. */
  lemma {:induction false} ShlModulo(w: uint32, k: nat)
    ensures Shl(w, k) == w * Pow2(k) % WORD
    decreases k
  {
    if k > 0 {
      hide ToUint32;
      ShlModulo(ToUint32(2 * w), k - 1);
      DoubledModulo(w, Pow2(k - 1));
    }
  }

  lemma DoubledModulo(w: uint32, p: nat)
    ensures ToUint32(2 * w) * p % WORD == w * (2 * p) % WORD
  {
    var a := 2 * w;
    var q, r := a / WORD, a % WORD;
    var x := r * p;
    assert w * (2 * p) == a * p == (q * WORD + r) * p == q * p * WORD + x;
    assert q * p * WORD + x == (q * p + x / WORD) * WORD + x % WORD;
    ModUnique(w * (2 * p), WORD, q * p + x / WORD, x % WORD);
  }

  lemma {:induction false} Pow2Positive(k: nat)
    ensures Pow2(k) >= 1
  {
    if k > 0 { Pow2Positive(k - 1); }
  }

  lemma WordSize()
    ensures Pow2(8) == 0x100 && Pow2(16) == 0x1_0000 && Pow2(32) == WORD
  {
    assert Pow2(4) == 16 && Pow2(8) == 0x100 && Pow2(12) == 0x1000 && Pow2(16) == 0x1_0000;
    assert Pow2(20) == 0x10_0000 && Pow2(24) == 0x100_0000 && Pow2(28) == 0x1000_0000;
  }

  lemma {:induction false} OrZero(x: nat)
    ensures BitOr(x, 0) == x
  {
    if x > 0 { OrZero(x / 2); }
  }

  lemma {:induction false} OrZeroLeft(x: nat)
    ensures BitOr(0, x) == x
  {
    if x > 0 { OrZeroLeft(x / 2); }
  }

  lemma {:induction false} OrBound(x: nat, y: nat, k: nat)
    requires x < Pow2(k) && y < Pow2(k)
    ensures BitOr(x, y) < Pow2(k)
  {
    if k > 0 { OrBound(x / 2, y / 2, k - 1); }
  }

  /** Words whose set bits do not overlap: `|` adds them, with no carry from one into the other. */
  lemma {:induction false} OrDisjoint(high: nat, low: nat, k: nat)
    requires low < Pow2(k)
    ensures BitOr(high * Pow2(k), low) == high * Pow2(k) + low
  {
    if k == 0 {
      OrZero(high);
    } else {
      var h := high * Pow2(k - 1);
      assert high * Pow2(k) == 2 * h;
      OrDisjoint(high, low / 2, k - 1);
    }
  }

  /** Masking with 2^k - 1 takes the remainder by 2^k. */
  lemma {:induction false} AndMask(x: nat, k: nat)
    ensures Pow2(k) >= 1
    ensures BitAnd(x, Pow2(k) - 1) == x % Pow2(k)
  {
    Pow2Positive(k);
    if k == 0 {
      AndZero(x);
    } else {
      AndMask(x / 2, k - 1);
      AndMaskStep(x, Pow2(k - 1));
    }
  }

  lemma AndMaskStep(x: nat, p: nat)
    requires p >= 1 && BitAnd(x / 2, p - 1) == x / 2 % p
    ensures BitAnd(x, 2 * p - 1) == x % (2 * p)
  {
    hide BitAnd;
    ModUnique(2 * p - 1, 2, p - 1, 1);
    AndStep(x, 2 * p - 1);
    HalveModulus(x, p);
  }

  lemma AndStep(x: nat, m: nat)
    requires m % 2 == 1
    ensures BitAnd(x, m) == x % 2 + 2 * BitAnd(x / 2, m / 2)
  {}

  lemma {:induction false} AndZero(x: nat)
    ensures BitAnd(x, 0) == 0
  {
    if x > 0 { AndZero(x / 2); }
  }

  lemma HalveModulus(x: nat, p: nat)
    requires p >= 1
    ensures x % (2 * p) == x % 2 + 2 * ((x / 2) % p)
  {
    var q, r := (x / 2) / p, (x / 2) % p;
    var m := x % 2 + 2 * r;
    assert x == 2 * (q * p + r) + x % 2;
    assert x == q * (2 * p) + m;
    ModUnique(x, 2 * p, q, m);
  }

  lemma ModUnique(x: int, d: int, q: int, r: int)
    requires d > 0 && x == q * d + r && 0 <= r < d
    ensures x % d == r && x / d == q
  {
    var k := q - x / d;
    assert x == (x / d) * d + x % d;
    assert k * d == x % d - r;
    MultipleBound(k, d);
  }

  lemma MultipleBound(k: int, d: int)
    requires d > 0
    ensures k >= 1 ==> k * d >= d
    ensures k <= -1 ==> k * d <= -d
  {}
}
