/** The arithmetic of one output sample of opencv_resize_fmu: 11-bit weights, three truncations,
    and the packing of several narrow samples into one byte. */
module Interpolation {
  import opened Bits

  const ONE: nat := 2048

  function Mul(a: nat, b: nat): nat {
    a * b
  }

  /** Two neighbours weighted by 2048 - w and w. */
  function Mix(a: nat, b: nat, w: nat): nat
    requires w <= ONE
  {
    Mul(a, ONE - w) + Mul(b, w)
  }

  /** (v * w) >> 16. */
  function Share(v: nat, w: nat): nat {
    Mul(v, w) / 65536
  }

  /** One bilinear sample; `wx` and `wy` are the weights of the right and the lower neighbours. */
  function Lerp(d0: nat, d1: nat, d2: nat, d3: nat, wx: nat, wy: nat): nat
    requires wx <= ONE && wy <= ONE
  {
    var v0 := Mix(d0, d1, wx) / 16;
    var v1 := Mix(d2, d3, wx) / 16;
    (Share(v0, ONE - wy) + Share(v1, wy) + 2) / 4
  }

  /** The exact interpolation, scaled by 2^22. */
  function Exact(d0: nat, d1: nat, d2: nat, d3: nat, wx: nat, wy: nat): nat
    requires wx <= ONE && wy <= ONE
  {
    Mix(Mix(d0, d1, wx), Mix(d2, d3, wx), wy)
  }

  // ---------------------------------------------------------------- bounds

  lemma MulLe(a: nat, b: nat, k: nat)
    requires a <= b
    ensures Mul(a, k) <= Mul(b, k)
  {
    assert (b - a) * k >= 0;
  }

  /** Weights add up to one. */
  lemma MixSame(a: nat, w: nat)
    requires w <= ONE
    ensures Mul(a, ONE - w) + Mul(a, w) == 2048 * a
  {
    assert a * (ONE - w) + a * w == a * ONE;
  }

  /** A weighted mean of two values lies between any bounds of both. */
  lemma MixBetween(d0: nat, d1: nat, w: nat, lo: nat, hi: nat)
    requires w <= ONE && lo <= d0 <= hi && lo <= d1 <= hi
    ensures 2048 * lo <= Mix(d0, d1, w) <= 2048 * hi
  {
    MulLe(lo, d0, ONE - w);
    MulLe(lo, d1, w);
    MulLe(d0, hi, ONE - w);
    MulLe(d1, hi, w);
    MixSame(lo, w);
    MixSame(hi, w);
  }

  /** Both rows together, before the final rounding: between 4 lo - 1 and 4 hi. */
  lemma RowsBetween(v0: nat, v1: nat, wy: nat, lo: nat, hi: nat)
    requires wy <= ONE && 128 * lo <= v0 <= 128 * hi && 128 * lo <= v1 <= 128 * hi
    ensures 4 * lo <= Share(v0, ONE - wy) + Share(v1, wy) + 1
    ensures Share(v0, ONE - wy) + Share(v1, wy) <= 4 * hi
  {
    MixBetween(v0, v1, wy, 128 * lo, 128 * hi);
    var a, b := Mul(v0, ONE - wy), Mul(v1, wy);
    assert 262144 * lo <= a + b <= 262144 * hi;
  }

  /** Main result on range: the truncating sample lies between the least and the greatest of its four
      inputs, so a flat area stays flat and a lane never spills into its neighbour. */
  lemma LerpBetween(d0: nat, d1: nat, d2: nat, d3: nat, wx: nat, wy: nat, lo: nat, hi: nat)
    requires wx <= ONE && wy <= ONE
    requires lo <= d0 <= hi && lo <= d1 <= hi && lo <= d2 <= hi && lo <= d3 <= hi
    ensures lo <= Lerp(d0, d1, d2, d3, wx, wy) <= hi
  {
    MixBetween(d0, d1, wx, lo, hi);
    MixBetween(d2, d3, wx, lo, hi);
    RowsBetween(Mix(d0, d1, wx) / 16, Mix(d2, d3, wx) / 16, wy, lo, hi);
  }

  /** Main result on precision, in units of 2^-22: the sample exceeds the exact interpolation by at most
      1/2 and falls short of it by less than 0.7574. */
  lemma LerpError(d0: nat, d1: nat, d2: nat, d3: nat, wx: nat, wy: nat)
    requires wx <= ONE && wy <= ONE
    ensures var r := Lerp(d0, d1, d2, d3, wx, wy) * 4194304; var e := Exact(d0, d1, d2, d3, wx, wy);
      e - 3176416 <= r <= e + 2097152
  {
    var a, b := Mix(d0, d1, wx), Mix(d2, d3, wx);
    RowError(a, ONE - wy);
    RowError(b, wy);
    FinalRounding(Share(a / 16, ONE - wy), Share(b / 16, wy), Mul(a, ONE - wy), Mul(b, wy), wy);
  }

  lemma FinalRounding(s0: nat, s1: nat, e0: nat, e1: nat, wy: nat)
    requires wy <= ONE
    requires e0 - 15 * (ONE - wy) - 16 * 65535 <= 1048576 * s0 <= e0
    requires e1 - 15 * wy - 16 * 65535 <= 1048576 * s1 <= e1
    ensures e0 + e1 - 3176416 <= (s0 + s1 + 2) / 4 * 4194304 <= e0 + e1 + 2097152
  {
  }

  /** Truncating a row value and its weighted share. */
  lemma RowError(a: nat, w: nat)
    ensures Mul(a, w) - 15 * w - 16 * 65535 <= 1048576 * Share(a / 16, w) <= Mul(a, w)
  {
    var v := a / 16;
    MulLe(16 * v, a, w);
    MulLe(a, 16 * v + 15, w);
    assert (16 * v) * w == 16 * (v * w);
    assert (16 * v + 15) * w == 16 * (v * w) + 15 * w;
    ShareBounds(v, w);
  }

  lemma ShareBounds(v: nat, w: nat)
    ensures 65536 * Share(v, w) <= Mul(v, w) <= 65536 * Share(v, w) + 65535
  {
  }

  /** No intermediate value of an 8-bit sample leaves 32 bits. */
  lemma IntermediatesFit(d0: Byte, d1: Byte, d2: Byte, d3: Byte, wx: nat, wy: nat)
    requires wx <= ONE && wy <= ONE
    ensures Mix(d0, d1, wx) < 0x8000_0000
    ensures Mul(Mix(d0, d1, wx) / 16, ONE - wy) < 0x1_0000_0000 && Mul(Mix(d2, d3, wx) / 16, wy) < 0x1_0000_0000
  {
    MixBetween(d0, d1, wx, 0, 255);
    MixBetween(d2, d3, wx, 0, 255);
    MixBetween(Mix(d0, d1, wx) / 16, Mix(d2, d3, wx) / 16, wy, 0, 32640);
  }

  /** With both weights zero the sample is the upper left input. */
  lemma LerpAtSample(d0: nat, d1: nat, d2: nat, d3: nat)
    ensures Lerp(d0, d1, d2, d3, 0, 0) == d0
  {
  }

  // ---------------------------------------------------------------- lanes

  /** Lane `b` of a byte that packs lanes of `w` bits: (d >> (b * w)) & (2^w - 1). */
  function Lane(d: nat, b: nat, w: nat): nat {
    And(Shr(d, b * w), Pow2(w) - 1)
  }

  lemma LaneIsDigit(d: nat, b: nat, w: nat)
    ensures Lane(d, b, w) == d / Pow2(b * w) % Pow2(w) < Pow2(w)
  {
    ShrIsDiv(d, b * w);
    AndMaskIsMod(Shr(d, b * w), w);
  }

  function LerpLane(d0: nat, d1: nat, d2: nat, d3: nat, wx: nat, wy: nat, b: nat, w: nat): nat
    requires wx <= ONE && wy <= ONE
  {
    Lerp(Lane(d0, b, w), Lane(d1, b, w), Lane(d2, b, w), Lane(d3, b, w), wx, wy)
  }

  lemma LerpLaneFits(d0: nat, d1: nat, d2: nat, d3: nat, wx: nat, wy: nat, b: nat, w: nat)
    requires wx <= ONE && wy <= ONE
    ensures LerpLane(d0, d1, d2, d3, wx, wy, b, w) < Pow2(w)
  {
    LaneIsDigit(d0, b, w);
    LaneIsDigit(d1, b, w);
    LaneIsDigit(d2, b, w);
    LaneIsDigit(d3, b, w);
    LerpBetween(Lane(d0, b, w), Lane(d1, b, w), Lane(d2, b, w), Lane(d3, b, w), wx, wy, 0, Pow2(w) - 1);
  }

  /** The first `n` lanes of the result, packed. */
  function Packed(d0: nat, d1: nat, d2: nat, d3: nat, wx: nat, wy: nat, n: nat, w: nat): nat
    requires wx <= ONE && wy <= ONE
  {
    if n == 0 then 0
    else Packed(d0, d1, d2, d3, wx, wy, n - 1, w) + LerpLane(d0, d1, d2, d3, wx, wy, n - 1, w) * Pow2((n - 1) * w)
  }

  lemma DigitBelow(s: nat, v: nat, m: nat, q: nat)
    requires s < m && v < q
    ensures s + v * m < m * q
  {
    MulLe(v + 1, q, m);
    assert Mul(v + 1, m) == v * m + m;
  }

  lemma {:induction false} PackedFits(d0: nat, d1: nat, d2: nat, d3: nat, wx: nat, wy: nat, n: nat, w: nat)
    requires wx <= ONE && wy <= ONE
    ensures Packed(d0, d1, d2, d3, wx, wy, n, w) < Pow2(n * w)
  {
    if n > 0 {
      PackedFits(d0, d1, d2, d3, wx, wy, n - 1, w);
      LerpLaneFits(d0, d1, d2, d3, wx, wy, n - 1, w);
      AppendDigit(Packed(d0, d1, d2, d3, wx, wy, n - 1, w), LerpLane(d0, d1, d2, d3, wx, wy, n - 1, w), n - 1, w);
    }
  }

  lemma AppendDigit(s: nat, v: nat, b: nat, w: nat)
    requires s < Pow2(b * w) && v < Pow2(w)
    ensures s + v * Pow2(b * w) < Pow2((b + 1) * w)
  {
    StepPow2(b, w);
    DigitBelow(s, v, Pow2(b * w), Pow2(w));
  }

  lemma StepPow2(b: nat, w: nat)
    ensures Pow2((b + 1) * w) == Pow2(b * w) * Pow2(w)
  {
    assert (b + 1) * w == b * w + w;
    Pow2Add(b * w, w);
  }

  /** A multiple of p q, added, does not change the digit between p and p q. */
  lemma DigitApart(a: nat, m: nat, p: nat, q: nat)
    requires p > 0 && q > 0
    ensures (a + m * (p * q)) / p % q == a / p % q
  {
    assert m * (p * q) == (m * q) * p;
    AddMultiple(a, m * q, p);
    AddMultiple(a / p, m, q);
  }

  lemma AddMultiple(a: nat, k: nat, p: nat)
    requires p > 0
    ensures (a + k * p) / p == a / p + k && (a + k * p) % p == a % p
  {
    var h, l := a / p, a % p;
    assert p * (h + k) == p * h + k * p;
    ModUnique(a + k * p, p, h + k, l);
  }

  /** Adding a multiple of 2^((b+1) w) does not change lane `b`. */
  lemma HigherLanesApart(a: nat, m: nat, b: nat, w: nat)
    ensures (a + m * Pow2((b + 1) * w)) / Pow2(b * w) % Pow2(w) == a / Pow2(b * w) % Pow2(w)
  {
    StepPow2(b, w);
    DigitApart(a, m, Pow2(b * w), Pow2(w));
  }

  lemma TopDigit(s: nat, v: nat, p: nat, q: nat)
    requires s < p && v < q
    ensures (s + v * p) / p % q == v
  {
    ModUnique(s + v * p, p, v, s);
    assert v == q * 0 + v;
    ModUnique(v, q, 0, v);
  }

  /** Lane `b` of a value whose lanes from `n - 1` on were put on top of `s`. */
  lemma LowerLane(s: nat, v: nat, n: nat, w: nat, b: nat)
    requires b + 1 < n
    ensures Lane(s + v * Pow2((n - 1) * w), b, w) == Lane(s, b, w)
  {
    LaneIsDigit(s, b, w);
    LaneIsDigit(s + v * Pow2((n - 1) * w), b, w);
    var m := MultipleOfHigher(v, n, b, w);
    HigherLanesApart(s, m, b, w);
  }

  lemma TopLane(s: nat, v: nat, b: nat, w: nat)
    requires s < Pow2(b * w) && v < Pow2(w)
    ensures Lane(s + v * Pow2(b * w), b, w) == v
  {
    LaneIsDigit(s + v * Pow2(b * w), b, w);
    TopDigit(s, v, Pow2(b * w), Pow2(w));
  }

  /** Main result on packing: lane `b` of the result is the interpolation of lane `b` of the inputs and
      depends on nothing else. */
  lemma {:induction false} PackedLane(d0: nat, d1: nat, d2: nat, d3: nat, wx: nat, wy: nat, n: nat, w: nat, b: nat)
    requires wx <= ONE && wy <= ONE && b < n
    ensures Lane(Packed(d0, d1, d2, d3, wx, wy, n, w), b, w) == LerpLane(d0, d1, d2, d3, wx, wy, b, w)
  {
    var s := Packed(d0, d1, d2, d3, wx, wy, n - 1, w);
    var v := LerpLane(d0, d1, d2, d3, wx, wy, n - 1, w);
    if b == n - 1 {
      PackedFits(d0, d1, d2, d3, wx, wy, b, w);
      LerpLaneFits(d0, d1, d2, d3, wx, wy, b, w);
      TopLane(s, v, b, w);
    } else {
      PackedLane(d0, d1, d2, d3, wx, wy, n - 1, w, b);
      LowerLane(s, v, n, w, b);
    }
  }

  lemma MultipleOfHigher(v: nat, n: nat, b: nat, w: nat) returns (m: nat)
    requires b + 1 < n
    ensures v * Pow2((n - 1) * w) == m * Pow2((b + 1) * w)
  {
    SplitProduct(b + 1, n - 2 - b, w);
    Pow2Add((b + 1) * w, (n - 2 - b) * w);
    m := Mul(v, Pow2((n - 2 - b) * w));
    MulShuffle(v, Pow2((n - 2 - b) * w), Pow2((b + 1) * w));
  }

  lemma SplitProduct(x: nat, y: nat, w: nat)
    ensures (x + y) * w == x * w + y * w
  {
  }

  lemma MulShuffle(v: nat, x: nat, y: nat)
    ensures v * (y * x) == Mul(v, x) * y
  {
  }
}
