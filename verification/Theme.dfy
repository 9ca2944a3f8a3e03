/** The packed-colour helpers of include/apps/theme.h: 0xRRGGBB words, shaded and blended by
    fixed-point arithmetic on their channels. */
module Theme {
  import opened MachineWords

  // ---- the helpers ----

  function PtR(c: uint32): int { LowByte(Shr(c, 16)) }
  function PtG(c: uint32): int { LowByte(Shr(c, 8)) }
  function PtB(c: uint32): int { LowByte(c) }

  /** `((uint32_t)r << 16) | ((uint32_t)g << 8) | (uint32_t)b`, for any ints. */
  function PtRgb(r: int, g: int, b: int): uint32 {
    Or(Or(Shl(ToUint32(r), 16), Shl(ToUint32(g), 8)), ToUint32(b))
  }

  /** `x + ((y - x) * t >> 8)`; the shift of a negative product rounds down, as `/` does here. */
  function LerpChannel(x: int, y: int, t: int): int {
    x + (y - x) * t / 256
  }

  function FdLerp(a: uint32, b: uint32, t: int): uint32 {
    PtRgb(LerpChannel(PtR(a), PtR(b), t), LerpChannel(PtG(a), PtG(b), t), LerpChannel(PtB(a), PtB(b), t))
  }

  function PtShade(c: uint32, amt: int): uint32 {
    FdLerp(c, if amt < 0 then 0x000000 else 0xffffff, if amt < 0 then -amt else amt)
  }

  /** A channel minus `amt`: unsigned subtraction, stored in an `int`, clamped at zero. */
  function DarkenChannel(x: int, amt: int): int {
    var d := ToInt32(ToUint32(x - amt));
    if d < 0 then 0 else d
  }

  /** A channel plus `amt`: unsigned addition, stored in an `int`, clamped at 255. */
  function LightenChannel(x: int, amt: int): int {
    var d := ToInt32(ToUint32(x + amt));
    if d > 255 then 255 else d
  }

  function FdDarken(c: uint32, amt: int): uint32 {
    PtRgb(DarkenChannel(PtR(c), amt), DarkenChannel(PtG(c), amt), DarkenChannel(PtB(c), amt))
  }

  function FdLighten(c: uint32, amt: int): uint32 {
    PtRgb(LightenChannel(PtR(c), amt), LightenChannel(PtG(c), amt), LightenChannel(PtB(c), amt))
  }

  // ---- packing ----

  predicate IsByte(x: int) { 0 <= x < 256 }

  predicate HasChannels(c: uint32, r: int, g: int, b: int) {
    PtR(c) == r && PtG(c) == g && PtB(c) == b
  }

  /** The three channel readers are quotients and remainders. */
  lemma ChannelsArithmetic(c: uint32)
    ensures PtR(c) == c / 0x1_0000 % 0x100
    ensures PtG(c) == c / 0x100 % 0x100
    ensures PtB(c) == c % 0x100
    ensures IsByte(PtR(c)) && IsByte(PtG(c)) && IsByte(PtB(c))
  {
    WordSize();
    ShrQuotient(c, 16);
    ShrQuotient(c, 8);
    AndMask(Shr(c, 16), 8);
    AndMask(Shr(c, 8), 8);
    AndMask(c, 8);
  }

  lemma PackSum(r: int, g: int, b: int)
    requires IsByte(r) && IsByte(g) && IsByte(b)
    ensures PtRgb(r, g, b) == r * 0x1_0000 + g * 0x100 + b
  {
    hide Or, Shl, ToUint32;
    ShiftByte(r);
    ShiftByte(g);
    ShiftByte(b);
    OrAt16(r, g * 0x100);
    OrAt8(r * 0x100 + g, b);
    assert (r * 0x100 + g) * 0x100 == r * 0x1_0000 + g * 0x100;
  }

  lemma ShiftByte(x: int)
    requires IsByte(x)
    ensures ToUint32(x) == x
    ensures Shl(ToUint32(x), 16) == x * 0x1_0000 && Shl(ToUint32(x), 8) == x * 0x100
  {
    hide Pow2, Shl;
    WordSize();
    ShlProduct(x, 16);
    ShlProduct(x, 8);
  }

  lemma OrAt16(high: int, low: int)
    requires IsByte(high) && 0 <= low < 0x1_0000
    ensures Or(high * 0x1_0000, low) == high * 0x1_0000 + low
  {
    WordSize();
    OrDisjoint(high, low, 16);
  }

  lemma OrAt8(high: int, low: int)
    requires 0 <= high < 0x1_0000 && IsByte(low)
    ensures Or(high * 0x100, low) == high * 0x100 + low
  {
    WordSize();
    OrDisjoint(high, low, 8);
  }

  lemma ByteDigits(r: int, g: int, b: int)
    requires IsByte(r) && IsByte(g) && IsByte(b)
    ensures var c := r * 0x1_0000 + g * 0x100 + b;
            c / 0x1_0000 % 0x100 == r && c / 0x100 % 0x100 == g && c % 0x100 == b
  {
    var high, low := r * 0x100 + g, g * 0x100 + b;
    var c := r * 0x1_0000 + low;
    assert c == high * 0x100 + b;
    ModUnique(c, 0x1_0000, r, low);
    ModUnique(c, 0x100, high, b);
    ModUnique(high, 0x100, r, g);
  }

  lemma DigitsValue(c: uint32)
    ensures c / 0x1_0000 % 0x100 * 0x1_0000 + c / 0x100 % 0x100 * 0x100 + c % 0x100 == c % 0x100_0000
  {
    var high, b := c / 0x100, c % 0x100;
    var top, g := high / 0x100, high % 0x100;
    var over, r := top / 0x100, top % 0x100;
    assert c == high * 0x100 + b && high == top * 0x100 + g && top == over * 0x100 + r;
    DigitSum(c, over, r, g, b);
  }

  lemma DigitSum(c: int, over: int, r: int, g: int, b: int)
    requires IsByte(r) && IsByte(g) && IsByte(b)
    requires c == over * 0x100_0000 + r * 0x1_0000 + g * 0x100 + b
    ensures c / 0x1_0000 % 0x100 == r && c % 0x100_0000 == r * 0x1_0000 + g * 0x100 + b
  {
    ModUnique(c, 0x1_0000, over * 0x100 + r, g * 0x100 + b);
    ModUnique(over * 0x100 + r, 0x100, over, r);
    ModUnique(c, 0x100_0000, over, r * 0x1_0000 + g * 0x100 + b);
  }

  lemma PackedBytes(r: int, g: int, b: int)
    requires IsByte(r) && IsByte(g) && IsByte(b)
    ensures HasChannels(PtRgb(r, g, b), r, g, b)
    ensures PtRgb(r, g, b) < 0x100_0000
  {
    hide PtR, PtG, PtB, PtRgb;
    var c := PtRgb(r, g, b);
    PackSum(r, g, b);
    ByteDigits(r, g, b);
    ChannelsArithmetic(c);
  }

  lemma ChannelsAreBytes(c: uint32, r: int, g: int, b: int)
    requires HasChannels(c, r, g, b)
    ensures IsByte(r) && IsByte(g) && IsByte(b)
  {
    ChannelsArithmetic(c);
  }

  /** Packing keeps the channels apart exactly when each fits in a byte. */
  lemma PackUnpack(r: int, g: int, b: int)
    ensures HasChannels(PtRgb(r, g, b), r, g, b) <==> IsByte(r) && IsByte(g) && IsByte(b)
  {
    hide PtR, PtG, PtB, PtRgb;
    if IsByte(r) && IsByte(g) && IsByte(b) {
      PackedBytes(r, g, b);
    } else if HasChannels(PtRgb(r, g, b), r, g, b) {
      ChannelsAreBytes(PtRgb(r, g, b), r, g, b);
    }
  }

  /** Packing any ints at all: each is shifted to its place in the word, and the three are or'ed. */
  lemma PackWord(r: int, g: int, b: int)
    ensures PtRgb(r, g, b) ==
            BitOr(BitOr(r % 0x1_0000_0000 * 0x1_0000 % 0x1_0000_0000, g % 0x1_0000_0000 * 0x100 % 0x1_0000_0000),
                  b % 0x1_0000_0000)
  {
    hide BitOr, Pow2;
    WordSize();
    ShlModulo(ToUint32(r), 16);
    ShlModulo(ToUint32(g), 8);
  }

  /** What a channel that leaves its byte does to the next: the packed green is or'ed with what blue has
      above its own byte, and the packed blue keeps what fits. */
  lemma PackCarry(r: int, g: int, b: int)
    ensures PtB(PtRgb(r, g, b)) == b % 0x100
    ensures PtG(PtRgb(r, g, b)) == BitOr(g % 0x100, b / 0x100 % 0x100)
  {
    hide BitOr, Pow2, PtR, PtG, PtB, PtRgb;
    var u, v, w := r % WORD * 0x1_0000 % WORD, g % WORD * 0x100 % WORD, b % WORD;
    WordSize();
    PackWord(r, g, b);
    ChannelsArithmetic(PtRgb(r, g, b));
    OrBytes(BitOr(u, v), w);
    OrBytes(u, v);
    OrBytes(BitOr(u, v) / 0x100, w / 0x100);
    OrBytes(u / 0x100, v / 0x100);
    PlacedBytes(r, g, b);
    OrZero(0);
    OrZeroLeft(g % 0x100);
    OrZeroLeft(b % 0x100);
  }

  lemma PlacedBytes(r: int, g: int, b: int)
    ensures r % WORD * 0x1_0000 % WORD % 0x100 == 0 && r % WORD * 0x1_0000 % WORD / 0x100 % 0x100 == 0
    ensures g % WORD * 0x100 % WORD % 0x100 == 0 && g % WORD * 0x100 % WORD / 0x100 % 0x100 == g % 0x100
    ensures b % WORD % 0x100 == b % 0x100 && b % WORD / 0x100 % 0x100 == b / 0x100 % 0x100
  {
    PlacedRed(r % WORD);
    PlacedGreen(g % WORD);
    LowEnd(g);
    LowEnd(b);
  }

  lemma PlacedRed(r: nat)
    ensures r * 0x1_0000 % WORD % 0x100 == 0 && r * 0x1_0000 % WORD / 0x100 % 0x100 == 0
  {
    var q, l := r / 0x1_0000, r % 0x1_0000;
    ModUnique(r * 0x1_0000, WORD, q, l * 0x1_0000);
    ModUnique(l * 0x1_0000, 0x100, l * 0x100, 0);
    ModUnique(l * 0x100, 0x100, l, 0);
  }

  lemma PlacedGreen(g: nat)
    ensures g * 0x100 % WORD % 0x100 == 0 && g * 0x100 % WORD / 0x100 % 0x100 == g % 0x100
  {
    var q, l := g / 0x100_0000, g % 0x100_0000;
    ModUnique(g * 0x100, WORD, q, l * 0x100);
    ModUnique(l * 0x100, 0x100, l, 0);
    ModUnique(g, 0x100, q * 0x1_0000 + l / 0x100, l % 0x100);
  }

  lemma LowEnd(b: int)
    ensures b % WORD % 0x100 == b % 0x100 && b % WORD / 0x100 % 0x100 == b / 0x100 % 0x100
  {
    var q, l := b / WORD, b % WORD;
    var h, d := l / 0x100, l % 0x100;
    assert b == q * WORD + l && l == h * 0x100 + d;
    ModUnique(b, 0x100, q * 0x100_0000 + h, d);
    ModUnique(q * 0x100_0000 + h, 0x100, q * 0x1_0000 + h / 0x100, h % 0x100);
  }

  lemma UnpackPack(c: uint32)
    ensures PtRgb(PtR(c), PtG(c), PtB(c)) == c % 0x100_0000
  {
    hide PtR, PtG, PtB, PtRgb;
    ChannelsArithmetic(c);
    PackSum(PtR(c), PtG(c), PtB(c));
    DigitsValue(c);
  }
}
