/** Blending and shading: what the packed helpers compute channel by channel, and where repeated
    rounding takes them. */
module Blend {
  import opened MachineWords
  import opened Theme

  const INT_MAX := 0x7fff_ffff

  function Max(x: int, y: int): int { if x < y then y else x }
  function Min(x: int, y: int): int { if x < y then x else y }

  // ---- one blend ----

  /** A blend weight of t/256 gives the weighted mean of the two ends, rounded down, between them. */
  lemma LerpChannelMean(x: int, y: int, t: int)
    requires 0 <= t <= 256
    ensures LerpChannel(x, y, t) == (x * (256 - t) + y * t) / 256
    ensures Min(x, y) <= LerpChannel(x, y, t) <= Max(x, y)
    ensures LerpChannel(x, y, 0) == x && LerpChannel(x, y, 256) == y
  {
    var p := (y - x) * t;
    assert x * (256 - t) + y * t == x * 256 + p;
    if x <= y { MulBounds(y - x, t); } else { MulBounds(x - y, t); assert p == -((x - y) * t); }
  }

  /** With any weight at all it is that mean rounded down. */
  lemma LerpChannelFloor(x: int, y: int, t: int)
    ensures LerpChannel(x, y, t) == (x * (256 - t) + y * t) / 256
  {
    var p := (y - x) * t;
    assert x * (256 - t) + y * t == x * 256 + p;
  }

  lemma MulBounds(d: nat, t: int)
    requires 0 <= t <= 256
    ensures 0 <= d * t <= d * 256
  {}

  /** The packed blend is the channel blend, for any weight at all, exactly when no blended channel
      leaves the byte range. */
  lemma FdLerpChannels(a: uint32, b: uint32, t: int)
    ensures var r, g := LerpChannel(PtR(a), PtR(b), t), LerpChannel(PtG(a), PtG(b), t);
            var bl := LerpChannel(PtB(a), PtB(b), t);
            HasChannels(FdLerp(a, b, t), r, g, bl) <==> IsByte(r) && IsByte(g) && IsByte(bl)
  {
    PackUnpack(LerpChannel(PtR(a), PtR(b), t), LerpChannel(PtG(a), PtG(b), t), LerpChannel(PtB(a), PtB(b), t));
  }

  lemma LerpChannelByte(x: int, y: int, t: int)
    requires IsByte(x) && IsByte(y) && 0 <= t <= 256
    ensures IsByte(LerpChannel(x, y, t))
  {
    LerpChannelMean(x, y, t);
  }

  /** For weights 0..256 no channel leaves it, and the top byte is clear. */
  lemma FdLerpInRange(a: uint32, b: uint32, t: int)
    requires 0 <= t <= 256
    ensures HasChannels(FdLerp(a, b, t),
                        LerpChannel(PtR(a), PtR(b), t), LerpChannel(PtG(a), PtG(b), t), LerpChannel(PtB(a), PtB(b), t))
    ensures FdLerp(a, b, t) < 0x100_0000
  {
    ChannelsArithmetic(a);
    ChannelsArithmetic(b);
    LerpChannelByte(PtR(a), PtR(b), t);
    LerpChannelByte(PtG(a), PtG(b), t);
    LerpChannelByte(PtB(a), PtB(b), t);
    PackedBytes(LerpChannel(PtR(a), PtR(b), t), LerpChannel(PtG(a), PtG(b), t), LerpChannel(PtB(a), PtB(b), t));
  }

  /** The two extreme weights give the two colours, without their top byte. */
  lemma FdLerpEnds(a: uint32, b: uint32)
    ensures FdLerp(a, b, 0) == a % 0x100_0000
    ensures FdLerp(a, b, 256) == b % 0x100_0000
  {
    LerpChannelMean(PtR(a), PtR(b), 0);
    LerpChannelMean(PtG(a), PtG(b), 0);
    LerpChannelMean(PtB(a), PtB(b), 0);
    UnpackPack(a);
    UnpackPack(b);
  }

  /** The weight alone tells when the packed blend can be trusted: all pairs of colours blend channel by
      channel exactly for weights 0..256. */
  lemma FdLerpWeights(t: int)
    ensures (forall a: uint32, b: uint32 :: BlendsByChannel(a, b, t)) <==> 0 <= t <= 256
  {
    hide BlendsByChannel;
    if 0 <= t <= 256 {
      forall a: uint32, b: uint32 ensures BlendsByChannel(a, b, t) {
        InRangeBlends(a, b, t);
      }
    } else {
      OutOfRangeCarries(t);
    }
  }

  ghost predicate BlendsByChannel(a: uint32, b: uint32, t: int) {
    HasChannels(FdLerp(a, b, t),
                LerpChannel(PtR(a), PtR(b), t), LerpChannel(PtG(a), PtG(b), t), LerpChannel(PtB(a), PtB(b), t))
  }

  lemma InRangeBlends(a: uint32, b: uint32, t: int)
    requires 0 <= t <= 256
    ensures BlendsByChannel(a, b, t)
  {
    hide FdLerp, PtR, PtG, PtB, LerpChannel;
    FdLerpInRange(a, b, t);
  }

  lemma LerpLeavesByte(t: int)
    ensures t > 256 ==> LerpChannel(255, 0, t) < 0
    ensures t < 0 ==> LerpChannel(0, 255, t) < 0
  {
    assert LerpChannel(255, 0, t) == 255 + (-255 * t) / 256;
    assert LerpChannel(0, 255, t) == (255 * t) / 256;
  }

  lemma BlackAndWhite()
    ensures HasChannels(0xffffff, 255, 255, 255) && HasChannels(0x000000, 0, 0, 0)
  {
    hide PtR, PtG, PtB;
    ChannelsArithmetic(0xffffff);
    ChannelsArithmetic(0);
  }

  /** Past 256 the blend of white towards black leaves the byte range, below 0 that of black towards
      white. */
  lemma OutOfRangeCarries(t: int)
    requires t < 0 || t > 256
    ensures !BlendsByChannel(0xffffff, 0x000000, t) || !BlendsByChannel(0x000000, 0xffffff, t)
  {
    hide FdLerp, PtR, PtG, PtB, LerpChannel;
    BlackAndWhite();
    LerpLeavesByte(t);
    FdLerpChannels(0xffffff, 0x000000, t);
    FdLerpChannels(0x000000, 0xffffff, t);
  }

  lemma LerpChannelSymmetric(x: int, y: int, t: int)
    ensures LerpChannel(x, y, t) == LerpChannel(y, x, 256 - t)
  {
    assert (x - y) * (256 - t) == (x - y) * 256 + (y - x) * t;
  }

  /** Swapping the colours and complementing the weight changes nothing, rounding included. */
  lemma FdLerpSymmetric(a: uint32, b: uint32, t: int)
    ensures FdLerp(a, b, t) == FdLerp(b, a, 256 - t)
  {
    LerpChannelSymmetric(PtR(a), PtR(b), t);
    LerpChannelSymmetric(PtG(a), PtG(b), t);
    LerpChannelSymmetric(PtB(a), PtB(b), t);
  }

  // ---- repeated blending ----

  /** The colour after blending `a` towards `b` n times with the same weight. */
  function BlendTimes(a: uint32, b: uint32, t: int, n: nat): uint32 {
    if n == 0 then a else FdLerp(BlendTimes(a, b, t, n - 1), b, t)
  }

  function LerpTimes(x: int, y: int, t: int, n: nat): int {
    if n == 0 then x else LerpChannel(LerpTimes(x, y, t, n - 1), y, t)
  }

  lemma {:induction false} BlendTimesChannels(a: uint32, b: uint32, t: int, n: nat)
    requires 0 <= t <= 256
    ensures HasChannels(BlendTimes(a, b, t, n),
                        LerpTimes(PtR(a), PtR(b), t, n),
                        LerpTimes(PtG(a), PtG(b), t, n),
                        LerpTimes(PtB(a), PtB(b), t, n))
  {
    hide PtR, PtG, PtB, FdLerp;
    if n > 0 {
      BlendTimesChannels(a, b, t, n - 1);
      FdLerpInRange(BlendTimes(a, b, t, n - 1), b, t);
    }
  }

  function Power(q: real, n: nat): real {
    if n == 0 then 1.0 else q * Power(q, n - 1)
  }

  /** The channel value n unrounded blends would give. */
  function Exact(x: int, y: int, t: int, n: nat): real {
    y as real + (x - y) as real * Power((256 - t) as real / 256.0, n)
  }

  function Drift(x: int, y: int, t: int, n: nat): real {
    Exact(x, y, t, n) - LerpTimes(x, y, t, n) as real
  }

  function Times(a: real, b: real): real { a * b }

  /** One more blend scales the drift by (256 - t)/256 and adds what that blend's rounding lost. */
  lemma DriftStep(x: int, y: int, t: int, n: nat) returns (lost: real)
    ensures Drift(x, y, t, n + 1) == Times((256 - t) as real / 256.0, Drift(x, y, t, n)) + lost
    ensures 0.0 <= lost < 1.0
  {
    var q := (256 - t) as real / 256.0;
    var v := LerpTimes(x, y, t, n);
    var p := (y - v) * t;
    lost := p as real / 256.0 - (p / 256) as real;
    FloorLoss(p);
    ExactStep(x, y, t, n);
    assert p as real == (y - v) as real * t as real;
    assert LerpTimes(x, y, t, n + 1) as real == v as real + (y - v) as real * (t as real / 256.0) - lost;
    assert t as real / 256.0 == 1.0 - q;
    LinearStep(Exact(x, y, t, n), v as real, y as real, q, lost);
  }

  lemma ExactStep(x: int, y: int, t: int, n: nat)
    ensures var q := (256 - t) as real / 256.0;
            Exact(x, y, t, n + 1) == y as real + q * (Exact(x, y, t, n) - y as real)
  {
    var q := (256 - t) as real / 256.0;
    var d, p := (x - y) as real, Power(q, n);
    assert d * (q * p) == q * (d * p);
  }

  lemma FloorLoss(p: int)
    ensures 0.0 <= p as real / 256.0 - (p / 256) as real < 1.0
  {
    assert p == 256 * (p / 256) + p % 256;
    assert p as real == 256.0 * (p / 256) as real + (p % 256) as real;
  }

  lemma LinearStep(e: real, v: real, y: real, q: real, lost: real)
    ensures y + q * (e - y) - (v + (y - v) * (1.0 - q) - lost) == q * (e - v) + lost
  {}

  /** Rounding never lifts a channel above the exact value, and never drops it by n or by 256/t. */
  lemma {:induction false} DriftBound(x: int, y: int, t: int, n: nat)
    requires 1 <= t <= 256
    ensures 0.0 <= Drift(x, y, t, n)
    ensures if n == 0 then Drift(x, y, t, n) == 0.0 else Drift(x, y, t, n) < n as real
    ensures Drift(x, y, t, n) < 256.0 / t as real
  {
    hide Drift, LerpChannel, Times;
    if n == 0 {
      NoDriftYet(x, y, t);
    } else {
      DriftBound(x, y, t, n - 1);
      var lost := DriftStep(x, y, t, n - 1);
      WeightProduct(t);
      DriftGrowth(Drift(x, y, t, n - 1), (256 - t) as real / 256.0, 256.0 / t as real, lost, n - 1);
    }
  }

  lemma NoDriftYet(x: int, y: int, t: int)
    ensures Drift(x, y, t, 0) == 0.0
  {
    assert Power((256 - t) as real / 256.0, 0) == 1.0;
  }

  /** One step of the drift, with m the limit 256/t. */
  lemma DriftGrowth(e: real, q: real, m: real, lost: real, n: nat)
    requires 0.0 <= q <= 1.0 && Times(q, m) == m - 1.0
    requires 0.0 <= e < m && 0.0 <= lost < 1.0
    requires if n == 0 then e == 0.0 else e < n as real
    ensures 0.0 <= Times(q, e) + lost < m
    ensures Times(q, e) + lost < (n + 1) as real
  {
    hide Times;
    NotNegative(q, e);
    AtMost(q, e);
    AtMostScaled(q, e, m);
    assert (n + 1) as real == n as real + 1.0;
  }

  lemma NotNegative(a: real, b: real)
    requires 0.0 <= a && 0.0 <= b
    ensures 0.0 <= Times(a, b)
  {}

  lemma AtMost(q: real, e: real)
    requires q <= 1.0 && 0.0 <= e
    ensures Times(q, e) <= e
  {
    NotNegative(1.0 - q, e);
    assert (1.0 - q) * e == e - q * e;
  }

  lemma AtMostScaled(q: real, e: real, m: real)
    requires 0.0 <= q && e <= m
    ensures Times(q, e) <= Times(q, m)
  {
    NotNegative(q, m - e);
    assert q * (m - e) == q * m - q * e;
  }

  lemma WeightProduct(t: int)
    requires 1 <= t <= 256
    ensures var q, m := (256 - t) as real / 256.0, 256.0 / t as real;
            0.0 <= q <= 1.0 && 0.0 < m && Times(q, m) == m - 1.0
  {
    hide Times;
    var w := t as real;
    assert (256 - t) as real == 256.0 - w && 1.0 <= w <= 256.0;
    QuotientTimes(256.0, w);
    ComplementTimes(w, 256.0 / w, (256 - t) as real / 256.0);
  }

  lemma QuotientTimes(a: real, w: real)
    requires w > 0.0 && a > 0.0
    ensures Times(a / w, w) == a && a / w > 0.0
  {}

  lemma ComplementTimes(w: real, m: real, q: real)
    requires Times(m, w) == 256.0 && 256.0 * q == 256.0 - w
    ensures Times(q, m) == m - 1.0
  {
    assert 256.0 * q * m == (256.0 - w) * m;
    assert (256.0 - w) * m == 256.0 * m - m * w;
  }

  /** The drift bound for the packed colour. */
  lemma FdLerpDrift(a: uint32, b: uint32, t: int, n: nat)
    requires 1 <= t <= 256 && n >= 1
    ensures var c := BlendTimes(a, b, t, n);
            && (var e := Exact(PtR(a), PtR(b), t, n) - PtR(c) as real; 0.0 <= e < n as real && e < 256.0 / t as real)
            && (var e := Exact(PtG(a), PtG(b), t, n) - PtG(c) as real; 0.0 <= e < n as real && e < 256.0 / t as real)
            && (var e := Exact(PtB(a), PtB(b), t, n) - PtB(c) as real; 0.0 <= e < n as real && e < 256.0 / t as real)
  {
    hide PtR, PtG, PtB, PtRgb;
    BlendTimesChannels(a, b, t, n);
    DriftBound(PtR(a), PtR(b), t, n);
    DriftBound(PtG(a), PtG(b), t, n);
    DriftBound(PtB(a), PtB(b), t, n);
  }
}
