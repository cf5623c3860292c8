/** The resized image value by value: each lane of each output byte, with every rounding written out in
    integers, from the source bytes at places that are written out too. */
module PixelTheory {
  import opened Bits
  import opened Interpolation
  import opened Resize
  import opened ResizeTheory

  // ---------------------------------------------------------------- one sample

  /** `v` is a row sum shifted right by 4. */
  predicate RowValue(v: nat, left: nat, right: nat, wx: nat) {
    16 * v <= left * (2048 - wx) + right * wx < 16 * (v + 1)
  }

  /** `s` is a weighted row shifted right by 16. */
  predicate RowShare(s: nat, v: nat, w: int) {
    65536 * s <= v * w < 65536 * (s + 1)
  }

  /** `r` is the sample with its three truncations. */
  predicate Rounded(r: nat, s0: nat, s1: nat) {
    4 * r <= s0 + s1 + 2 < 4 * (r + 1)
  }

  /** `r` is the sample of four values, with all truncations. */
  ghost predicate IsSample(r: nat, d0: nat, d1: nat, d2: nat, d3: nat, wx: nat, wy: nat) {
    exists v0: nat, v1: nat, s0: nat, s1: nat ::
      RowValue(v0, d0, d1, wx) && RowValue(v1, d2, d3, wx) &&
      RowShare(s0, v0, 2048 - wy) && RowShare(s1, v1, wy) && Rounded(r, s0, s1)
  }

  lemma RowValueIff(v: nat, left: nat, right: nat, wx: nat)
    requires wx <= 2048
    ensures RowValue(v, left, right, wx) <==> v == Mix(left, right, wx) / 16
  {
    assert left * (2048 - wx) + right * wx == Mix(left, right, wx);
  }

  lemma RowShareIff(s: nat, v: nat, w: nat)
    ensures RowShare(s, v, w) <==> s == Share(v, w)
  {
    assert v * w == Mul(v, w);
  }

  /** Main result on the value of a sample: there is exactly one number that the truncations allow, and
      it is the one computed. */
  lemma SampleIff(r: nat, d0: nat, d1: nat, d2: nat, d3: nat, wx: nat, wy: nat)
    requires wx <= 2048 && wy <= 2048
    ensures IsSample(r, d0, d1, d2, d3, wx, wy) <==> r == Lerp(d0, d1, d2, d3, wx, wy)
  {
    var v0, v1 := Mix(d0, d1, wx) / 16, Mix(d2, d3, wx) / 16;
    var s0, s1 := Share(v0, 2048 - wy), Share(v1, wy);
    RowValueIff(v0, d0, d1, wx);
    RowValueIff(v1, d2, d3, wx);
    RowShareIff(s0, v0, 2048 - wy);
    RowShareIff(s1, v1, wy);
    assert Rounded(r, s0, s1) <==> r == (s0 + s1 + 2) / 4;
    if IsSample(r, d0, d1, d2, d3, wx, wy) {
      var u0: nat, u1: nat, t0: nat, t1: nat :|
        RowValue(u0, d0, d1, wx) && RowValue(u1, d2, d3, wx) &&
        RowShare(t0, u0, 2048 - wy) && RowShare(t1, u1, wy) && Rounded(r, t0, t1);
      RowValueIff(u0, d0, d1, wx);
      RowValueIff(u1, d2, d3, wx);
      RowShareIff(t0, u0, 2048 - wy);
      RowShareIff(t1, u1, wy);
    }
  }

  // ---------------------------------------------------------------- lanes

  /** Lanes per byte: four of 2 bits, two of 4 bits, or the byte. */
  function LanesPerByte(ty: nat): nat {
    if ty == 2 then 4 else if ty == 4 then 2 else 1
  }

  /** The value of a lane. */
  function LaneValue(ty: nat, d: Byte, b: nat): nat {
    if ty == 2 then d / Pow2(2 * b) % 4 else if ty == 4 then d / Pow2(4 * b) % 16 else d
  }

  lemma LaneValueIsLane(ty: nat, d: Byte, b: nat)
    requires ValidType(ty) && b < LanesPerByte(ty)
    ensures LaneValue(ty, d, b) == Lane(d, b, LaneBits(ty))
  {
    if ty == 2 {
      LaneIsDigit(d, b, 2);
      assert Pow2(2) == 4;
    } else if ty == 4 {
      LaneIsDigit(d, b, 4);
      assert Pow2(4) == 16;
    } else {
      WholeByteLane(d);
    }
  }

  /** Main result on the value of a byte: each of its lanes is the sample of the same lane of the four
      source bytes, truncations and all. */
  lemma BlendIsSampled(ty: nat, d0: Byte, d1: Byte, d2: Byte, d3: Byte, wx: nat, wy: nat, b: nat)
    requires ValidType(ty) && wx <= 2048 && wy <= 2048 && b < LanesPerByte(ty)
    ensures IsSample(LaneValue(ty, Blend(ty, d0, d1, d2, d3, wx, wy), b),
                     LaneValue(ty, d0, b), LaneValue(ty, d1, b), LaneValue(ty, d2, b), LaneValue(ty, d3, b), wx, wy)
  {
    BlendLane(ty, d0, d1, d2, d3, wx, wy, b);
    LaneValueIsLane(ty, Blend(ty, d0, d1, d2, d3, wx, wy), b);
    LaneValueIsLane(ty, d0, b);
    LaneValueIsLane(ty, d1, b);
    LaneValueIsLane(ty, d2, b);
    LaneValueIsLane(ty, d3, b);
    SampleIff(LaneValue(ty, Blend(ty, d0, d1, d2, d3, wx, wy), b),
              LaneValue(ty, d0, b), LaneValue(ty, d1, b), LaneValue(ty, d2, b), LaneValue(ty, d3, b), wx, wy);
  }

  // ---------------------------------------------------------------- scales and offsets

  /** `scale` is 65536 src / dst rounded down. */
  predicate IsScale(src: nat, dst: nat, scale: int) {
    scale * dst <= 65536 * src < (scale + 1) * dst
  }

  /** `trans` is 32768 (src - dst) / dst rounded towards zero. */
  predicate IsOffset(src: nat, dst: nat, trans: int) {
    if src >= dst then 0 <= trans && trans * dst <= (src - dst) * 32768 < (trans + 1) * dst
    else trans <= 0 && (trans - 1) * dst < (src - dst) * 32768 <= trans * dst
  }

  predicate IsMapping(g: Geometry, m: Mapping) {
    && IsScale(g.srcW, g.dstW, m.scaleX) && IsScale(g.srcH, g.dstH, m.scaleY)
    && IsOffset(g.srcW, g.dstW, m.transX) && IsOffset(g.srcH, g.dstH, m.transY)
  }

  lemma Scaled(a: real, b: real, n: nat)
    requires n > 0
    ensures a <= b <==> a * n as real <= b * n as real
    ensures a < b <==> a * n as real < b * n as real
  {
    assert (b - a) * n as real == b * n as real - a * n as real;
  }

  lemma IntScaled(k: int, x: real, n: nat, p: int)
    requires n > 0 && x * n as real == p as real
    ensures k as real <= x <==> k * n <= p
    ensures k as real < x <==> k * n < p
    ensures x < k as real <==> p < k * n
    ensures x <= k as real <==> p <= k * n
  {
    Scaled(k as real, x, n);
    Scaled(x, k as real, n);
    assert k as real * n as real == (k * n) as real;
  }

  lemma ScaleMeaning(src: nat, dst: nat)
    requires src > 0 && dst > 0
    ensures IsScale(src, dst, ScaleOf(src, dst))
  {
    var s := src as real / dst as real;
    RealProduct(src, dst);
    RatioBounds(s, src, dst);
    var x := s * 65536.0;
    assert x * dst as real == (s * dst as real) * 65536.0;
    var k := ScaleOf(src, dst);
    assert k == x.Floor;
    IntScaled(k, x, dst, 65536 * src);
    IntScaled(k + 1, x, dst, 65536 * src);
  }

  lemma OffsetMeaning(src: nat, dst: nat)
    requires src > 0 && dst > 0
    ensures IsOffset(src, dst, TransOf(src, dst))
  {
    var s := src as real / dst as real;
    RealProduct(src, dst);
    var x := (s * 0.5 - 0.5) * 65536.0;
    assert x * dst as real == (s * dst as real) * 32768.0 - 32768.0 * dst as real;
    var p := (src - dst) * 32768;
    assert x * dst as real == p as real;
    var k := TransOf(src, dst);
    IntScaled(0, x, dst, p);
    IntScaled(k, x, dst, p);
    IntScaled(k + 1, x, dst, p);
    IntScaled(k - 1, x, dst, p);
    if x >= 0.0 {
      assert k == x.Floor;
    } else {
      assert k == -((-x).Floor);
    }
  }

  lemma FloorUnique(a: int, b: int, n: nat, p: int)
    requires n > 0 && a * n <= p < (a + 1) * n && b * n <= p < (b + 1) * n
    ensures a == b
  {
    if a < b {
      LeScaled(a + 1, b, n);
    } else if b < a {
      LeScaled(b + 1, a, n);
    }
  }

  lemma LeScaled(a: int, b: int, n: nat)
    requires a <= b
    ensures a * n <= b * n
  {
    assert (b - a) * n >= 0;
  }

  lemma OffsetUnique(src: nat, dst: nat, a: int, b: int)
    requires dst > 0 && IsOffset(src, dst, a) && IsOffset(src, dst, b)
    ensures a == b
  {
    if src >= dst {
      FloorUnique(a, b, dst, (src - dst) * 32768);
    } else {
      var p := (src - dst) * 32768;
      assert (-a) * dst == -(a * dst) && (-b) * dst == -(b * dst);
      assert (-a + 1) * dst == -((a - 1) * dst) && (-b + 1) * dst == -((b - 1) * dst);
      FloorUnique(-a, -b, dst, -p);
    }
  }

  /** Main result on the mapping, for all sizes and in integers: each axis is scaled by the ratio of its
      own sizes, rounded down, and shifted by half the difference, rounded towards zero; nothing else
      is a mapping of the two images. */
  lemma MappingIff(g: Geometry, m: Mapping)
    requires g.srcW > 0 && g.srcH > 0 && g.dstW > 0 && g.dstH > 0
    ensures IsMapping(g, m) <==> m == MappingOf(g)
  {
    var c := MappingOf(g);
    ScaleMeaning(g.srcW, g.dstW);
    ScaleMeaning(g.srcH, g.dstH);
    OffsetMeaning(g.srcW, g.dstW);
    OffsetMeaning(g.srcH, g.dstH);
    if IsMapping(g, m) {
      FloorUnique(m.scaleX, c.scaleX, g.dstW, 65536 * g.srcW);
      FloorUnique(m.scaleY, c.scaleY, g.dstH, 65536 * g.srcH);
      OffsetUnique(g.srcW, g.dstW, m.transX, c.transX);
      OffsetUnique(g.srcH, g.dstH, m.transY, c.transY);
    }
  }

  // ---------------------------------------------------------------- pixels

  /** The two source pixels and the weight for the coordinate `f` on an axis of `n` pixels. */
  predicate IsTap(f: int, n: nat, t: Tap) {
    var r := f + 16;
    && 32 * t.w <= r % 65536 < 32 * (t.w + 1)
    && (r < 0 ==> t.i0 == 0 && t.i1 == 0)
    && (0 <= r < 65536 * (n - 1) ==> 65536 * t.i0 <= r < 65536 * (t.i0 + 1) && t.i1 == t.i0 + 1)
    && (r >= 65536 * (n - 1) && r >= 0 ==> t.i0 == n - 1 && t.i1 == n - 1)
  }

  lemma TapIff(f: int, n: nat, t: Tap)
    requires n > 0
    ensures IsTap(f, n, t) <==> t == TapOf(f, n)
  {
  }

  /** Bytes per pixel of the four types. */
  function PixelBytes(ty: nat): nat {
    if ty == 2 then 8 else if ty == 8 then 32 else 16
  }

  /** The four places lie in the source, and lane `b` of `out` is the sample of lane `b` found there. */
  ghost predicate SampledFrom(ty: nat, out: Byte, src: seq<Byte>, p0: nat, p1: nat, p2: nat, p3: nat,
                              b: nat, wx: nat, wy: nat)
  {
    && p0 < |src| && p1 < |src| && p2 < |src| && p3 < |src|
    && IsSample(LaneValue(ty, out, b), LaneValue(ty, src[p0], b), LaneValue(ty, src[p1], b),
                LaneValue(ty, src[p2], b), LaneValue(ty, src[p3], b), wx, wy)
  }

  /** Main result on pixels, for all sizes, types, pixels, bytes and lanes. With the integer mapping of the
      two images, the tap of column `x` on the width and the tap of row `y` on the height, the lane of
      output byte `k` is the sample of that lane of byte `k` of the four source pixels: upper left, upper
      right, lower left, lower right, the column weight first. */
  lemma PixelIsSampled(g: Geometry, m: Mapping, src: seq<Byte>, dst: seq<Byte>,
                       y: nat, x: nat, k: nat, b: nat, col: Tap, row: Tap)
    requires SrcFits(g, src) && g.dstW > 0 && |dst| == g.dstH * (g.dstW * Bpp(g.ty))
    requires y < g.dstH && x < g.dstW && k < PixelBytes(g.ty) && b < LanesPerByte(g.ty)
    requires Written(g, MappingOf(g), src, dst, |dst|)
    requires IsMapping(g, m)
    requires IsTap(m.transX + x * m.scaleX, g.srcW, col) && IsTap(m.transY + y * m.scaleY, g.srcH, row)
    ensures var n := PixelBytes(g.ty); var w := g.srcW;
      && Index(y, x, k, g.dstW, n) < |dst|
      && SampledFrom(g.ty, dst[Index(y, x, k, g.dstW, n)], src,
                     Index(row.i0, col.i0, k, w, n), Index(row.i0, col.i1, k, w, n),
                     Index(row.i1, col.i0, k, w, n), Index(row.i1, col.i1, k, w, n), b, col.w, row.w)
  {
    MappingIff(g, m);
    TapIff(m.transX + x * m.scaleX, g.srcW, col);
    TapIff(m.transY + y * m.scaleY, g.srcH, row);
    assert PixelBytes(g.ty) == Bpp(g.ty);
    WrittenMeans(g, m, src, dst, y, x, k);
    OutByteIsSampled(g, m, src, y, x, k, b, col, row);
  }

  lemma OutByteIsSampled(g: Geometry, m: Mapping, src: seq<Byte>, y: nat, x: nat, k: nat, b: nat, col: Tap, row: Tap)
    requires SrcFits(g, src) && k < Bpp(g.ty) && b < LanesPerByte(g.ty)
    requires col == TapOf(m.transX + x * m.scaleX, g.srcW) && row == TapOf(m.transY + y * m.scaleY, g.srcH)
    ensures var n := Bpp(g.ty); var w := g.srcW;
      SampledFrom(g.ty, OutByte(g, m, src, y, x, k), src,
                  Index(row.i0, col.i0, k, w, n), Index(row.i0, col.i1, k, w, n),
                  Index(row.i1, col.i0, k, w, n), Index(row.i1, col.i1, k, w, n), b, col.w, row.w)
  {
    IndexInBounds(row.i0, col.i0, k, g.srcW, g.srcH, Bpp(g.ty));
    IndexInBounds(row.i0, col.i1, k, g.srcW, g.srcH, Bpp(g.ty));
    IndexInBounds(row.i1, col.i0, k, g.srcW, g.srcH, Bpp(g.ty));
    IndexInBounds(row.i1, col.i1, k, g.srcW, g.srcH, Bpp(g.ty));
    var d0, d1 := Sample(g, src, row.i0, col.i0, k), Sample(g, src, row.i0, col.i1, k);
    var d2, d3 := Sample(g, src, row.i1, col.i0, k), Sample(g, src, row.i1, col.i1, k);
    BlendIsSampled(g.ty, d0, d1, d2, d3, col.w, row.w, b);
  }
}
