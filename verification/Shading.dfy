/** Shading towards white or black: order, duality, the limits of repetition, and the saturating
    darken and lighten. */
module Shading {
  import opened MachineWords
  import opened Theme
  import opened Blend

  /** `c` is no brighter than `d` in any channel. */
  predicate Below(c: uint32, d: uint32) {
    PtR(c) <= PtR(d) && PtG(c) <= PtG(d) && PtB(c) <= PtB(d)
  }

  function ShadeChannel(x: int, amt: int): int {
    LerpChannel(x, if amt < 0 then 0 else 255, if amt < 0 then -amt else amt)
  }

  lemma PtShadeChannels(c: uint32, amt: int)
    requires -256 <= amt <= 256
    ensures HasChannels(PtShade(c, amt),
                        ShadeChannel(PtR(c), amt), ShadeChannel(PtG(c), amt), ShadeChannel(PtB(c), amt))
    ensures IsByte(PtR(c)) && IsByte(PtG(c)) && IsByte(PtB(c))
  {
    hide PtR, PtG, PtB, FdLerp, LerpChannel;
    ChannelsArithmetic(c);
    EndChannels();
    if amt < 0 { FdLerpInRange(c, 0x000000, -amt); } else { FdLerpInRange(c, 0xffffff, amt); }
  }

  lemma EndChannels()
    ensures PtR(0x000000) == 0 && PtG(0x000000) == 0 && PtB(0x000000) == 0
    ensures PtR(0xffffff) == 255 && PtG(0xffffff) == 255 && PtB(0xffffff) == 255
  {
    hide PtR, PtG, PtB;
    ChannelsArithmetic(0x000000);
    ChannelsArithmetic(0xffffff);
  }

  // ---- order and duality ----

  lemma MulLe(a: int, b: int, k: nat)
    requires a <= b
    ensures a * k <= b * k
  {}

  lemma ShadeChannelMonotone(x: int, y: int, s: int, t: int)
    requires IsByte(x) && IsByte(y) && x <= y
    requires -256 <= s <= t <= 256
    ensures ShadeChannel(x, s) <= ShadeChannel(y, t)
  {
    MonotoneInAmount(x, s, t);
    MonotoneInChannel(x, y, t);
  }

  lemma MonotoneInAmount(x: int, s: int, t: int)
    requires IsByte(x) && -256 <= s <= t <= 256
    ensures ShadeChannel(x, s) <= ShadeChannel(x, t)
  {
    if s < 0 <= t {
      hide LerpChannel;
      LerpChannelMean(x, 0, -s);
      LerpChannelMean(x, 255, t);
    } else if t < 0 {
      TowardsBlack(x, -s, -t);
    } else {
      MulLe(s, t, 255 - x);
      assert (255 - x) * s == s * (255 - x) && (255 - x) * t == t * (255 - x);
    }
  }

  lemma TowardsBlack(x: int, u: nat, v: nat)
    requires IsByte(x) && v <= u
    ensures LerpChannel(x, 0, u) <= LerpChannel(x, 0, v)
  {
    MulLe(v, u, x);
    assert (0 - x) * u == -(u * x) && (0 - x) * v == -(v * x);
  }

  lemma MonotoneInChannel(x: int, y: int, t: int)
    requires IsByte(x) && IsByte(y) && x <= y && -256 <= t <= 256
    ensures ShadeChannel(x, t) <= ShadeChannel(y, t)
  {
    var target, w := if t < 0 then 0 else 255, if t < 0 then -t else t;
    LerpChannelMean(x, target, w);
    LerpChannelMean(y, target, w);
    MulLe(x, y, 256 - w);
  }

  /** A larger amount, or a brighter colour, never gives a darker channel, across the change of target
      at zero too. */
  lemma PtShadeMonotone(c: uint32, d: uint32, s: int, t: int)
    requires Below(c, d) && -255 <= s <= t <= 255
    ensures Below(PtShade(c, s), PtShade(d, t))
  {
    hide PtR, PtG, PtB, PtRgb;
    PtShadeChannels(c, s);
    PtShadeChannels(d, t);
    ShadeChannelMonotone(PtR(c), PtR(d), s, t);
    ShadeChannelMonotone(PtG(c), PtG(d), s, t);
    ShadeChannelMonotone(PtB(c), PtB(d), s, t);
  }

  /** Lightening x mirrors darkening 255 - x exactly when nothing is rounded away; otherwise it comes
      out one lower. */
  lemma ShadeDuality(x: int, t: int)
    requires IsByte(x) && 0 <= t <= 255
    ensures var mirrored := 255 - ShadeChannel(255 - x, -t);
            ShadeChannel(x, t) == if (255 - x) * t % 256 == 0 then mirrored else mirrored - 1
  {
    var p := (255 - x) * t;
    assert (0 - (255 - x)) * t == -p;
    assert -p / 256 == if p % 256 == 0 then -(p / 256) else -(p / 256) - 1;
  }

  /** The colour whose channels are 255 minus those of `c`. */
  function Complement(c: uint32): uint32 {
    PtRgb(255 - PtR(c), 255 - PtG(c), 255 - PtB(c))
  }

  lemma ComplementChannels(c: uint32)
    ensures HasChannels(Complement(c), 255 - PtR(c), 255 - PtG(c), 255 - PtB(c))
  {
    hide PtR, PtG, PtB, PtRgb;
    ChannelsArithmetic(c);
    PackedBytes(255 - PtR(c), 255 - PtG(c), 255 - PtB(c));
  }

  /** The same for packed colours. */
  lemma PtShadeDuality(c: uint32, t: int)
    requires 0 <= t <= 255
    ensures var l, m := PtShade(c, t), Complement(PtShade(Complement(c), -t));
            HasChannels(m, PtR(l) + (if (255 - PtR(c)) * t % 256 == 0 then 0 else 1),
                           PtG(l) + (if (255 - PtG(c)) * t % 256 == 0 then 0 else 1),
                           PtB(l) + (if (255 - PtB(c)) * t % 256 == 0 then 0 else 1))
  {
    hide PtR, PtG, PtB, PtRgb, PtShade, ShadeChannel, Complement;
    var k := Complement(c);
    PtShadeChannels(c, t);
    ComplementChannels(c);
    PtShadeChannels(k, -t);
    ComplementChannels(PtShade(k, -t));
    ShadeDuality(PtR(c), t);
    ShadeDuality(PtG(c), t);
    ShadeDuality(PtB(c), t);
  }

  // ---- repeated shading ----

  function ShadeTimes(c: uint32, amt: int, n: nat): uint32 {
    if n == 0 then c else PtShade(ShadeTimes(c, amt, n - 1), amt)
  }

  lemma {:induction false} ShadeTimesBlends(c: uint32, amt: int, n: nat)
    ensures ShadeTimes(c, amt, n)
            == BlendTimes(c, if amt < 0 then 0x000000 else 0xffffff, if amt < 0 then -amt else amt, n)
  {
    hide PtRgb, FdLerp;
    if n > 0 { ShadeTimesBlends(c, amt, n - 1); }
  }

  /** The brightest value rounding lets repeated lightening by t reach. */
  function Ceiling(t: int): int
    requires 1 <= t
  {
    255 - 255 / t
  }

  /** One lightening step: it stands still exactly from the ceiling on, and from below it moves up
      without passing the ceiling. */
  lemma LightenStep(x: int, t: int)
    requires IsByte(x) && 1 <= t <= 255
    ensures 0 <= Ceiling(t) <= 254
    ensures x >= Ceiling(t) ==> LerpChannel(x, 255, t) == x
    ensures x < Ceiling(t) ==> x < LerpChannel(x, 255, t) <= Ceiling(t)
  {
    var d, m := 255 - x, 255 / t;
    CeilingQuotient(t);
    if d <= m {
      MulLe(d, m, t);
      MulLe(0, d, t);
    } else {
      var e := d - (m + 1);
      assert d * t == (m + 1) * t + e * t;
      MulLe(t, 256, e);
      MulLe(0, t, e);
      assert e * t == t * e && e * 256 == 256 * e;
    }
  }

  lemma CeilingQuotient(t: int)
    requires 1 <= t <= 255
    ensures var m := 255 / t; 1 <= m <= 255 && 0 <= m * t <= 255 && 256 <= (m + 1) * t <= 510
  {
    var m := 255 / t;
    assert 255 == m * t + 255 % t;
    assert (m + 1) * t == m * t + t;
  }

  /** Repeated lightening climbs strictly, then rests for ever at the ceiling, or where it started if
      that was higher. */
  lemma {:induction false} LightenLimit(x: int, t: int, n: nat)
    requires IsByte(x) && 1 <= t <= 255
    ensures var v := LerpTimes(x, 255, t, n);
            IsByte(v) && (if x >= Ceiling(t) then v == x else Min(x + n, Ceiling(t)) <= v <= Ceiling(t))
  {
    LightenStep(x, t);
    if n > 0 {
      LightenLimit(x, t, n - 1);
      LightenStep(LerpTimes(x, 255, t, n - 1), t);
    }
  }

  lemma DarkenStep(x: int, t: int)
    requires IsByte(x) && 1 <= t <= 256
    ensures if x == 0 then LerpChannel(x, 0, t) == 0 else 0 <= LerpChannel(x, 0, t) < x
  {
    var p := x * t;
    assert (0 - x) * t == -p;
    MulLe(1, t, x);
    MulLe(t, 256, x);
    FloorBelowZero(x, p);
  }

  lemma FloorBelowZero(x: int, p: int)
    requires 0 <= x <= p <= x * 256
    ensures -x <= -p / 256 <= 0
    ensures x > 0 ==> -p / 256 < 0
  {}

  /** Each nonzero channel drops by at least one per step, so black is reached and kept. */
  lemma {:induction false} DarkenLimit(x: int, t: int, n: nat)
    requires IsByte(x) && 1 <= t <= 256
    ensures 0 <= LerpTimes(x, 0, t, n) <= Max(0, x - n)
  {
    if n > 0 {
      DarkenLimit(x, t, n - 1);
      DarkenStep(LerpTimes(x, 0, t, n - 1), t);
    }
  }

  lemma LightenRests(x: int, t: int, n: nat)
    requires IsByte(x) && 1 <= t <= 255 && n >= 254
    ensures LerpTimes(x, 255, t, n) == Max(x, 255 - 255 / t) && 255 - 255 / t < 255
  {
    hide LerpTimes;
    LightenStep(x, t);
    LightenLimit(x, t, n);
  }

  /** Shading towards white stops, after at most 254 steps, with every channel at the larger of its
      start and 255 - 255 div t: no channel below 255 ever becomes 255. */
  lemma PtShadeLightLimit(c: uint32, t: int, n: nat)
    requires 1 <= t <= 255 && n >= 254
    ensures HasChannels(ShadeTimes(c, t, n),
                        Max(PtR(c), 255 - 255 / t), Max(PtG(c), 255 - 255 / t), Max(PtB(c), 255 - 255 / t))
    ensures 255 - 255 / t < 255
  {
    hide PtR, PtG, PtB, FdLerp, ShadeTimes, LerpTimes, Max;
    ShadeTimesBlends(c, t, n);
    ChannelsArithmetic(c);
    EndChannels();
    BlendTimesChannels(c, 0xffffff, t, n);
    LightenRests(PtR(c), t, n);
    LightenRests(PtG(c), t, n);
    LightenRests(PtB(c), t, n);
  }

  /** Shading towards black reaches 0x000000 within as many steps as the brightest channel counts. */
  lemma PtShadeDarkLimit(c: uint32, t: int, n: nat)
    requires 1 <= t <= 255
    requires n >= 1 && n >= PtR(c) && n >= PtG(c) && n >= PtB(c)
    ensures ShadeTimes(c, -t, n) == 0x000000
  {
    hide PtR, PtG, PtB, PtRgb, ShadeTimes, LerpTimes, BlendTimes;
    ShadeTimesBlends(c, -t, n);
    ChannelsArithmetic(c);
    EndChannels();
    BlendTimesChannels(c, 0, t, n);
    DarkenLimit(PtR(c), t, n);
    DarkenLimit(PtG(c), t, n);
    DarkenLimit(PtB(c), t, n);
    BlendTimesTop(c, 0, t, n);
    BlackFromChannels(BlendTimes(c, 0, t, n));
  }

  lemma BlendTimesTop(a: uint32, b: uint32, t: int, n: nat)
    requires 0 <= t <= 256 && n >= 1
    ensures BlendTimes(a, b, t, n) < 0x100_0000
  {
    hide FdLerp;
    FdLerpInRange(BlendTimes(a, b, t, n - 1), b, t);
  }

  lemma BlackFromChannels(c: uint32)
    requires PtR(c) == 0 && PtG(c) == 0 && PtB(c) == 0 && c < 0x100_0000
    ensures c == 0x000000
  {
    hide PtR, PtG, PtB, PtRgb;
    UnpackPack(c);
    PackSum(0, 0, 0);
  }

  // ---- saturating darken and lighten ----

  /** Both for every amount an `int` can hold: a difference or sum past its range wraps and is negative. */
  lemma SaturateExactly(x: int, amt: int)
    requires IsByte(x) && -INT_MAX - 1 <= amt <= INT_MAX
    ensures DarkenChannel(x, amt) == if x - amt < 0 || x - amt > INT_MAX then 0 else x - amt
    ensures LightenChannel(x, amt) ==
            if x + amt > INT_MAX then x + amt - 0x1_0000_0000 else if x + amt > 255 then 255 else x + amt
  {
    hide ToInt32, ToUint32;
    WrapInt(x - amt);
    WrapInt(x + amt);
  }

  lemma WrapInt(d: int)
    requires -INT_MAX - 1 <= d < 0x1_0000_0000
    ensures ToInt32(ToUint32(d)) == if d > INT_MAX then d - 0x1_0000_0000 else d
  {}

  /** Darkening by any amount an `int` can hold stops at zero. */
  lemma DarkenSaturates(x: int, amt: int)
    requires IsByte(x) && 0 <= amt <= INT_MAX
    ensures DarkenChannel(x, amt) == Max(0, x - amt)
  {}

  /** Lightening stops at 255 exactly when the sum fits an `int`; past that it wraps. */
  lemma LightenSaturates(x: int, amt: int)
    requires IsByte(x) && 0 <= amt <= INT_MAX
    ensures LightenChannel(x, amt) == Min(255, x + amt) <==> x + amt <= INT_MAX
  {}

  lemma FdDarkenChannels(c: uint32, amt: int)
    requires 0 <= amt <= INT_MAX
    ensures HasChannels(FdDarken(c, amt), Max(0, PtR(c) - amt), Max(0, PtG(c) - amt), Max(0, PtB(c) - amt))
    ensures FdDarken(c, amt) == PtRgb(Max(0, PtR(c) - amt), Max(0, PtG(c) - amt), Max(0, PtB(c) - amt))
  {
    hide PtR, PtG, PtB, PtRgb;
    ChannelsArithmetic(c);
    DarkenSaturates(PtR(c), amt);
    DarkenSaturates(PtG(c), amt);
    DarkenSaturates(PtB(c), amt);
    PackedBytes(Max(0, PtR(c) - amt), Max(0, PtG(c) - amt), Max(0, PtB(c) - amt));
  }

  lemma FdLightenChannels(c: uint32, amt: int)
    requires 0 <= amt <= INT_MAX - 255
    ensures HasChannels(FdLighten(c, amt), Min(255, PtR(c) + amt), Min(255, PtG(c) + amt), Min(255, PtB(c) + amt))
    ensures FdLighten(c, amt) == PtRgb(Min(255, PtR(c) + amt), Min(255, PtG(c) + amt), Min(255, PtB(c) + amt))
  {
    hide PtR, PtG, PtB, PtRgb;
    ChannelsArithmetic(c);
    LightenSaturates(PtR(c), amt);
    LightenSaturates(PtG(c), amt);
    LightenSaturates(PtB(c), amt);
    PackedBytes(Min(255, PtR(c) + amt), Min(255, PtG(c) + amt), Min(255, PtB(c) + amt));
  }

  function Sum(amounts: seq<nat>): nat {
    if amounts == [] then 0 else Sum(amounts[..|amounts| - 1]) + amounts[|amounts| - 1]
  }

  function DarkenAll(c: uint32, amounts: seq<nat>): uint32 {
    if amounts == [] then c else FdDarken(DarkenAll(c, amounts[..|amounts| - 1]), amounts[|amounts| - 1])
  }

  function LightenAll(c: uint32, amounts: seq<nat>): uint32 {
    if amounts == [] then c else FdLighten(LightenAll(c, amounts[..|amounts| - 1]), amounts[|amounts| - 1])
  }

  /** Any run of darkenings is one darkening by their sum. */
  lemma {:induction false} DarkenAllIsOne(c: uint32, amounts: seq<nat>)
    requires amounts != [] && Sum(amounts) <= INT_MAX
    ensures DarkenAll(c, amounts) == FdDarken(c, Sum(amounts))
  {
    hide FdDarken, PtRgb, PtR, PtG, PtB;
    var init, last := amounts[..|amounts| - 1], amounts[|amounts| - 1];
    if init != [] {
      DarkenAllIsOne(c, init);
      FdDarkenChannels(c, Sum(init));
      FdDarkenChannels(FdDarken(c, Sum(init)), last);
      FdDarkenChannels(c, Sum(amounts));
    }
  }

  /** Any run of lightenings is one lightening by their sum. */
  lemma {:induction false} LightenAllIsOne(c: uint32, amounts: seq<nat>)
    requires amounts != [] && Sum(amounts) <= INT_MAX - 255
    ensures LightenAll(c, amounts) == FdLighten(c, Sum(amounts))
  {
    hide FdLighten, PtRgb, PtR, PtG, PtB;
    var init, last := amounts[..|amounts| - 1], amounts[|amounts| - 1];
    if init != [] {
      LightenAllIsOne(c, init);
      FdLightenChannels(c, Sum(init));
      FdLightenChannels(FdLighten(c, Sum(init)), last);
      FdLightenChannels(c, Sum(amounts));
    }
  }

  /** Darkening is below a colour exactly when the start is below that colour lightened. */
  lemma DarkenLightenAdjoint(c: uint32, d: uint32, n: int)
    requires 0 <= n <= INT_MAX - 255
    ensures Below(FdDarken(c, n), d) <==> Below(c, FdLighten(d, n))
  {
    hide FdLighten, FdDarken, PtRgb, PtR, PtG, PtB;
    ChannelsArithmetic(c);
    ChannelsArithmetic(d);
    FdDarkenChannels(c, n);
    FdLightenChannels(d, n);
  }
}
