/** What the resized image is: sample by sample, lane by lane, and for equal sizes. */
module ResizeTheory {
  import opened Bits
  import opened Interpolation
  import opened Resize

  // ---------------------------------------------------------------- coverage

  /** A finished destination holds, at the place of every byte of every pixel, that byte's blend. */
  lemma WrittenMeans(g: Geometry, m: Mapping, src: seq<Byte>, dst: seq<Byte>, y: nat, x: nat, k: nat)
    requires SrcFits(g, src) && g.dstW > 0 && |dst| == g.dstH * (g.dstW * Bpp(g.ty))
    requires Written(g, m, src, dst, |dst|)
    requires y < g.dstH && x < g.dstW && k < Bpp(g.ty)
    ensures Index(y, x, k, g.dstW, Bpp(g.ty)) < |dst|
    ensures dst[Index(y, x, k, g.dstW, Bpp(g.ty))] == OutByte(g, m, src, y, x, k)
  {
    IndexInBounds(y, x, k, g.dstW, g.dstH, Bpp(g.ty));
    IndexSplits(y, x, k, g.dstW, Bpp(g.ty));
  }

  predicate AtPlace(y: nat, x: nat, k: nat, w: nat, bpp: nat, i: nat) {
    x < w && k < bpp && Index(y, x, k, w, bpp) == i
  }

  /** Every place of the buffer belongs to one byte of one pixel, and to only one: the destination is
      covered exactly once. */
  lemma PlacesAreExact(w: nat, h: nat, bpp: nat, i: nat)
    requires w > 0 && bpp > 0 && i < h * (w * bpp)
    ensures exists y: nat, x: nat, k: nat :: AtPlace(y, x, k, w, bpp, i) && y < h
    ensures forall y: nat, x: nat, k: nat, y': nat, x': nat, k': nat ::
      (AtPlace(y, x, k, w, bpp, i) && AtPlace(y', x', k', w, bpp, i)) ==> (y == y' && x == x' && k == k')
  {
    var y0, x0, k0 := IndexJoins(w, h, bpp, i);
    assert AtPlace(y0, x0, k0, w, bpp, i);
    forall y: nat, x: nat, k: nat | AtPlace(y, x, k, w, bpp, i) ensures y == y0 && x == x0 && k == k0 {
      IndexSplits(y, x, k, w, bpp);
    }
  }

  lemma IndexJoins(w: nat, h: nat, bpp: nat, i: nat) returns (y: nat, x: nat, k: nat)
    requires w > 0 && bpp > 0 && i < h * (w * bpp)
    ensures w * bpp > 0
    ensures y == Quotient(i, w * bpp) && x == Quotient(Remainder(i, w * bpp), bpp)
    ensures k == Remainder(Remainder(i, w * bpp), bpp)
    ensures y < h && x < w && k < bpp && Index(y, x, k, w, bpp) == i
  {
    IndexInBounds(0, 0, 0, w, 1, bpp);
    var s := w * bpp;
    y := Quotient(i, s);
    var r := Remainder(i, s);
    x, k := Quotient(r, bpp), Remainder(r, bpp);
    DivisionFacts(i, s, h);
    DivisionFacts(r, bpp, w);
  }

  lemma DivisionFacts(i: nat, s: nat, h: nat)
    requires s > 0 && i < h * s
    ensures i == Quotient(i, s) * s + Remainder(i, s) && Quotient(i, s) < h
  {
    var q := Quotient(i, s);
    DivisionIdentity(i, s);
    NonNegative(s, q - h);
    assert s * (q - h) == s * q - h * s;
  }

  lemma NonNegative(s: nat, d: int)
    ensures d >= 0 ==> s * d >= 0
  {
  }

  // ---------------------------------------------------------------- lanes

  /** The bits per lane and the lanes per byte of each type. */
  function LaneBits(ty: nat): nat {
    if ty == 2 then 2 else if ty == 4 then 4 else 8
  }

  function LaneCount(ty: nat): nat {
    if ty == 2 then 4 else if ty == 4 then 2 else 1
  }

  lemma WholeByteLane(d: Byte)
    ensures Lane(d, 0, 8) == d
  {
    LaneIsDigit(d, 0, 8);
    PowersOfTwo();
    var z := 0 * 8;
    assert z == 0;
    assert d / Pow2(z) == d;
  }

  /** Main result on lanes, for every type: each lane of an output byte is the interpolation of the same
      lane of its four source bytes. */
  lemma BlendLane(ty: nat, d0: Byte, d1: Byte, d2: Byte, d3: Byte, wx: nat, wy: nat, b: nat)
    requires ValidType(ty) && wx <= ONE && wy <= ONE && b < LaneCount(ty)
    ensures Lane(Blend(ty, d0, d1, d2, d3, wx, wy), b, LaneBits(ty)) ==
      LerpLane(d0, d1, d2, d3, wx, wy, b, LaneBits(ty))
  {
    if ty == 2 {
      PackedLane(d0, d1, d2, d3, wx, wy, 4, 2, b);
    } else if ty == 4 {
      PackedLane(d0, d1, d2, d3, wx, wy, 2, 4, b);
    } else {
      WholeByteLane(d0);
      WholeByteLane(d1);
      WholeByteLane(d2);
      WholeByteLane(d3);
      WholeByteLane(Blend(ty, d0, d1, d2, d3, wx, wy));
    }
  }

  lemma Nested(p: nat, q: nat, hh: nat, hl: nat)
    ensures p * (q * hh + hl) == (p * q) * hh + hl * p
  {
    assert p * (q * hh) == (p * q) * hh;
    assert p * (q * hh + hl) == p * (q * hh) + p * hl;
  }

  lemma DigitSplit(d: nat, p: nat, q: nat)
    requires p > 0 && q > 0 && p * q > 0
    ensures d % (p * q) == d % p + d / p % q * p
  {
    var h, l := Quotient(d, p), Remainder(d, p);
    var hh, hl := Quotient(h, q), Remainder(h, q);
    DivisionIdentity(d, p);
    DivisionIdentity(h, q);
    Nested(p, q, hh, hl);
    DigitBelow(l, hl, p, q);
    ModUnique(d, p * q, hh, l + hl * p);
  }

  /** Lanes equal to those of `d`, packed, give back the low bits of `d`. */
  lemma {:induction false} PackedRebuilds(d: nat, d0: nat, d1: nat, d2: nat, d3: nat, wx: nat, wy: nat, n: nat, w: nat)
    requires wx <= ONE && wy <= ONE
    requires forall b :: 0 <= b < n ==> LerpLane(d0, d1, d2, d3, wx, wy, b, w) == Lane(d, b, w)
    ensures Packed(d0, d1, d2, d3, wx, wy, n, w) == d % Pow2(n * w)
  {
    if n == 0 {
      assert 0 * w == 0 && Pow2(0) == 1;
    } else {
      PackedRebuilds(d, d0, d1, d2, d3, wx, wy, n - 1, w);
      RebuildStep(d, n - 1, w);
    }
  }

  lemma RebuildStep(d: nat, b: nat, w: nat)
    ensures d % Pow2(b * w) + Lane(d, b, w) * Pow2(b * w) == d % Pow2((b + 1) * w)
  {
    LaneIsDigit(d, b, w);
    StepPow2(b, w);
    DigitSplit(d, Pow2(b * w), Pow2(w));
  }

  lemma ByteRebuilds(d: Byte, d0: Byte, d1: Byte, d2: Byte, d3: Byte, wx: nat, wy: nat, n: nat, w: nat)
    requires wx <= ONE && wy <= ONE && n * w == 8
    requires forall b :: 0 <= b < n ==> LerpLane(d0, d1, d2, d3, wx, wy, b, w) == Lane(d, b, w)
    ensures Packed(d0, d1, d2, d3, wx, wy, n, w) == d
  {
    PackedRebuilds(d, d0, d1, d2, d3, wx, wy, n, w);
    PowersOfTwo();
    EightBits(d, n * w);
  }

  lemma EightBits(d: Byte, bits: nat)
    requires bits == 8
    ensures d % Pow2(bits) == d
  {
    PowersOfTwo();
  }

  /** Lanes that agree with those of `d`. */
  ghost predicate LanesOf(ty: nat, d: Byte, d0: Byte, d1: Byte, d2: Byte, d3: Byte, wx: nat, wy: nat)
    requires wx <= ONE && wy <= ONE
  {
    forall b :: 0 <= b < LaneCount(ty) ==> LerpLane(d0, d1, d2, d3, wx, wy, b, LaneBits(ty)) == Lane(d, b, LaneBits(ty))
  }

  /** If every lane of the blend equals that lane of `d`, the blend is `d`. */
  lemma BlendRebuilds(ty: nat, d: Byte, d0: Byte, d1: Byte, d2: Byte, d3: Byte, wx: nat, wy: nat)
    requires ValidType(ty) && wx <= ONE && wy <= ONE && LanesOf(ty, d, d0, d1, d2, d3, wx, wy)
    ensures Blend(ty, d0, d1, d2, d3, wx, wy) == d
  {
    if ty == 2 {
      assert LaneBits(ty) == 2 && LaneCount(ty) == 4;
      ByteRebuilds(d, d0, d1, d2, d3, wx, wy, 4, 2);
    } else if ty == 4 {
      assert LaneBits(ty) == 4 && LaneCount(ty) == 2;
      ByteRebuilds(d, d0, d1, d2, d3, wx, wy, 2, 4);
    } else {
      assert LaneBits(ty) == 8 && LerpLane(d0, d1, d2, d3, wx, wy, 0, LaneBits(ty)) == Lane(d, 0, LaneBits(ty));
      SingleLane(ty, d, d0, d1, d2, d3, wx, wy);
    }
  }

  lemma SingleLane(ty: nat, d: Byte, d0: Byte, d1: Byte, d2: Byte, d3: Byte, wx: nat, wy: nat)
    requires (ty == 8 || ty == 16) && wx <= ONE && wy <= ONE
    requires LerpLane(d0, d1, d2, d3, wx, wy, 0, 8) == Lane(d, 0, 8)
    ensures Blend(ty, d0, d1, d2, d3, wx, wy) == d
  {
    BlendLane(ty, d0, d1, d2, d3, wx, wy, 0);
    WholeByteLane(Blend(ty, d0, d1, d2, d3, wx, wy));
    WholeByteLane(d);
  }

  // ---------------------------------------------------------------- the image

  lemma FlatBlend(ty: nat, v: Byte, wx: nat, wy: nat)
    requires ValidType(ty) && wx <= ONE && wy <= ONE
    ensures Blend(ty, v, v, v, v, wx, wy) == v
  {
    forall b | 0 <= b < LaneCount(ty)
      ensures LerpLane(v, v, v, v, wx, wy, b, LaneBits(ty)) == Lane(v, b, LaneBits(ty))
    {
      var l := Lane(v, b, LaneBits(ty));
      LerpBetween(l, l, l, l, wx, wy, l, l);
    }
    BlendRebuilds(ty, v, v, v, v, v, wx, wy);
  }

  /** Main result on flat images, for any sizes, scales and offsets: a constant source gives a constant
      destination. */
  lemma FlatStaysFlat(g: Geometry, m: Mapping, src: seq<Byte>, v: Byte, y: nat, x: nat, k: nat)
    requires SrcFits(g, src) && k < Bpp(g.ty) && forall i :: 0 <= i < |src| ==> src[i] == v
    ensures OutByte(g, m, src, y, x, k) == v
  {
    var tx, ty := TapOf(m.transX + x * m.scaleX, g.srcW), TapOf(m.transY + y * m.scaleY, g.srcH);
    SampleFlat(g, src, v, ty.i0, tx.i0, k);
    SampleFlat(g, src, v, ty.i0, tx.i1, k);
    SampleFlat(g, src, v, ty.i1, tx.i0, k);
    SampleFlat(g, src, v, ty.i1, tx.i1, k);
    FlatBlend(g.ty, v, tx.w, ty.w);
  }

  lemma SampleFlat(g: Geometry, src: seq<Byte>, v: Byte, y: nat, x: nat, k: nat)
    requires SrcFits(g, src) && y < g.srcH && x < g.srcW && k < Bpp(g.ty) && forall i :: 0 <= i < |src| ==> src[i] == v
    ensures Sample(g, src, y, x, k) == v
  {
    IndexInBounds(y, x, k, g.srcW, g.srcH, Bpp(g.ty));
  }

  /** The four source bytes behind an output byte, and their weights. */
  datatype Corners = Corners(d0: Byte, d1: Byte, d2: Byte, d3: Byte, wx: nat, wy: nat)

  ghost function CornersOf(g: Geometry, m: Mapping, src: seq<Byte>, y: nat, x: nat, k: nat): (q: Corners)
    requires SrcFits(g, src) && k < Bpp(g.ty)
    ensures q.wx < ONE && q.wy < ONE && OutByte(g, m, src, y, x, k) == Blend(g.ty, q.d0, q.d1, q.d2, q.d3, q.wx, q.wy)
  {
    var tx, ty := TapOf(m.transX + x * m.scaleX, g.srcW), TapOf(m.transY + y * m.scaleY, g.srcH);
    Corners(Sample(g, src, ty.i0, tx.i0, k), Sample(g, src, ty.i0, tx.i1, k),
            Sample(g, src, ty.i1, tx.i0, k), Sample(g, src, ty.i1, tx.i1, k), tx.w, ty.w)
  }

  /** Main result on precision over the image: every lane of every output byte lies between its four
      source lanes and within (-0.7574, +0.5] of their exact interpolation. */
  lemma OutputLanePrecise(g: Geometry, m: Mapping, src: seq<Byte>, y: nat, x: nat, k: nat, b: nat, lo: nat, hi: nat)
    requires SrcFits(g, src) && k < Bpp(g.ty) && b < LaneCount(g.ty)
    requires var q := CornersOf(g, m, src, y, x, k);
      forall d :: d in [q.d0, q.d1, q.d2, q.d3] ==> lo <= Lane(d, b, LaneBits(g.ty)) <= hi
    ensures var q, w := CornersOf(g, m, src, y, x, k), LaneBits(g.ty);
      var e := Exact(Lane(q.d0, b, w), Lane(q.d1, b, w), Lane(q.d2, b, w), Lane(q.d3, b, w), q.wx, q.wy);
      var r := Lane(OutByte(g, m, src, y, x, k), b, w);
      lo <= r <= hi && e - 3176416 <= r * 4194304 <= e + 2097152
  {
    var q := CornersOf(g, m, src, y, x, k);
    LanePrecise(g.ty, q.d0, q.d1, q.d2, q.d3, q.wx, q.wy, b, lo, hi);
  }

  lemma LanePrecise(ty: nat, d0: Byte, d1: Byte, d2: Byte, d3: Byte, wx: nat, wy: nat, b: nat, lo: nat, hi: nat)
    requires ValidType(ty) && wx <= ONE && wy <= ONE && b < LaneCount(ty)
    requires forall d :: d in [d0, d1, d2, d3] ==> lo <= Lane(d, b, LaneBits(ty)) <= hi
    ensures var w := LaneBits(ty);
      var e := Exact(Lane(d0, b, w), Lane(d1, b, w), Lane(d2, b, w), Lane(d3, b, w), wx, wy);
      var r := Lane(Blend(ty, d0, d1, d2, d3, wx, wy), b, w);
      lo <= r <= hi && e - 3176416 <= r * 4194304 <= e + 2097152
  {
    var w := LaneBits(ty);
    assert d0 in [d0, d1, d2, d3] && d1 in [d0, d1, d2, d3] && d2 in [d0, d1, d2, d3] && d3 in [d0, d1, d2, d3];
    BlendLane(ty, d0, d1, d2, d3, wx, wy, b);
    LerpBetween(Lane(d0, b, w), Lane(d1, b, w), Lane(d2, b, w), Lane(d3, b, w), wx, wy, lo, hi);
    LerpError(Lane(d0, b, w), Lane(d1, b, w), Lane(d2, b, w), Lane(d3, b, w), wx, wy);
  }

  // ---------------------------------------------------------------- equal sizes

  lemma SameSizeMapping(n: nat)
    requires n > 0
    ensures ScaleOf(n, n) == 65536 && TransOf(n, n) == 0
  {
    assert n as real / n as real == 1.0;
  }

  lemma TapOnPixel(x: nat, n: nat)
    requires x < n
    ensures TapOf(x * 65536, n).i0 == x && TapOf(x * 65536, n).w == 0
  {
    var r := x * 65536 + 16;
    assert r / 65536 == x && r % 65536 == 16;
  }

  /** Main result on equal sizes: resizing an image to its own size gives it back, byte for byte. */
  lemma SameSizeIsIdentity(g: Geometry, src: seq<Byte>, dst: seq<Byte>)
    requires SrcFits(g, src) && g.dstW == g.srcW && g.dstH == g.srcH
    requires |dst| == g.dstH * (g.dstW * Bpp(g.ty)) && Written(g, MappingOf(g), src, dst, |dst|)
    ensures dst == src
  {
    SameSizeMapping(g.srcW);
    SameSizeMapping(g.srcH);
    var m := MappingOf(g);
    forall i | 0 <= i < |src| ensures dst[i] == src[i] {
      var y, x, k := IndexJoins(g.srcW, g.srcH, Bpp(g.ty), i);
      SameSizeByte(g, m, src, y, x, k);
    }
  }

  lemma SameSizeByte(g: Geometry, m: Mapping, src: seq<Byte>, y: nat, x: nat, k: nat)
    requires SrcFits(g, src) && m == Mapping(65536, 65536, 0, 0)
    requires y < g.srcH && x < g.srcW && k < Bpp(g.ty)
    ensures OutByte(g, m, src, y, x, k) == Sample(g, src, y, x, k)
  {
    TapOnPixel(x, g.srcW);
    TapOnPixel(y, g.srcH);
    var tx, ty := TapOf(x * 65536, g.srcW), TapOf(y * 65536, g.srcH);
    var w := LaneBits(g.ty);
    var d0, d1 := Sample(g, src, y, x, k), Sample(g, src, y, tx.i1, k);
    var d2, d3 := Sample(g, src, ty.i1, x, k), Sample(g, src, ty.i1, tx.i1, k);
    forall b | 0 <= b < LaneCount(g.ty) ensures LerpLane(d0, d1, d2, d3, 0, 0, b, w) == Lane(d0, b, w) {
      LerpAtSample(Lane(d0, b, w), Lane(d1, b, w), Lane(d2, b, w), Lane(d3, b, w));
    }
    assert LanesOf(g.ty, d0, d0, d1, d2, d3, 0, 0);
    BlendRebuilds(g.ty, d0, d0, d1, d2, d3, 0, 0);
  }

  // ---------------------------------------------------------------- machine range

  lemma RealProduct(src: nat, dst: nat)
    requires dst > 0
    ensures (src as real / dst as real) * (dst as real) == src as real
  {
  }

  predicate IsInt(v: int) {
    -0x8000_0000 <= v < 0x8000_0000
  }

  /** The running coordinate before column or row `i`; the last one is formed but not used. */
  function Coordinate(src: nat, dst: nat, i: nat): int
    requires dst > 0
  {
    TransOf(src, dst) + i * ScaleOf(src, dst)
  }

  /** Every int that one axis of the loops forms is in range: scale and offset, the running coordinates,
      and the rounded ones. */
  ghost predicate AxisFits(src: nat, dst: nat)
    requires dst > 0
  {
    && IsInt(ScaleOf(src, dst)) && IsInt(TransOf(src, dst))
    && (forall i: nat :: i <= dst ==> IsInt(Coordinate(src, dst, i)))
    && (forall i: nat :: i < dst ==> IsInt(Coordinate(src, dst, i) + 16))
  }

  lemma ScaleAndOffset(src: nat, dst: nat)
    requires src > 0 && dst > 0
    ensures var scale, trans := ScaleOf(src, dst), TransOf(src, dst);
      0 <= scale && -32768 <= trans && (scale >= 65536 ==> trans >= 0)
  {
    var s := src as real / dst as real;
    RealProduct(src, dst);
    RatioBounds(s, src, dst);
    assert ScaleOf(src, dst) as real <= s * 65536.0;
  }

  lemma CoordinatesGrow(src: nat, dst: nat, i: nat, j: nat)
    requires src > 0 && dst > 0 && i <= j
    ensures -32768 <= Coordinate(src, dst, i) <= Coordinate(src, dst, j)
  {
    ScaleAndOffset(src, dst);
    MulLe(i, j, ScaleOf(src, dst));
    MulLe(0, i, ScaleOf(src, dst));
  }

  /** Main result on the machine range, for every pair of sizes: the running coordinates of an axis stay
      in a 32-bit int exactly if the last one does; and nothing the loops form on that axis leaves it
      exactly if the last coordinate and the last rounded one do not. All three numbers are known before
      the loop. */
  lemma AxisFitsIff(src: nat, dst: nat)
    requires src > 0 && dst > 0
    ensures (forall i: nat :: i <= dst ==> IsInt(Coordinate(src, dst, i)))
       <==> TransOf(src, dst) + dst * ScaleOf(src, dst) < 0x8000_0000
    ensures AxisFits(src, dst) <==>
      TransOf(src, dst) + dst * ScaleOf(src, dst) < 0x8000_0000 &&
      TransOf(src, dst) + (dst - 1) * ScaleOf(src, dst) + 16 < 0x8000_0000
  {
    ScaleAndOffset(src, dst);
    MulLe(1, dst, ScaleOf(src, dst));
    var last := Coordinate(src, dst, dst);
    assert last == TransOf(src, dst) + dst * ScaleOf(src, dst);
    assert Coordinate(src, dst, dst - 1) == TransOf(src, dst) + (dst - 1) * ScaleOf(src, dst);
    CoordinatesGrow(src, dst, 0, dst);
    forall i: nat | i <= dst ensures -32768 <= Coordinate(src, dst, i) <= last {
      CoordinatesGrow(src, dst, i, dst);
    }
    forall i: nat | i < dst ensures -32768 <= Coordinate(src, dst, i) <= Coordinate(src, dst, dst - 1) {
      CoordinatesGrow(src, dst, i, dst - 1);
    }
  }

  /** For every destination at once: the axis fits whatever its destination exactly for sources of up to
      21845 pixels. A larger one overflows on the way to one pixel. */
  lemma SourceFitsAllIff(src: nat)
    requires src > 0
    ensures (forall dst: nat :: dst > 0 ==> AxisFits(src, dst)) <==> src <= 21845
  {
    if src <= 21845 {
      forall dst: nat | dst > 0 ensures AxisFits(src, dst) {
        SmallSourceFits(src, dst);
      }
    } else {
      OnePixelMapping(src);
      AxisFitsIff(src, 1);
      assert !AxisFits(src, 1);
    }
  }

  lemma OnePixelMapping(src: nat)
    ensures ScaleOf(src, 1) == 65536 * src
    ensures src > 0 ==> TransOf(src, 1) == 32768 * src - 32768
  {
    var s := src as real / 1 as real;
    RealProduct(src, 1);
    assert s == src as real;
  }

  lemma SmallSourceFits(src: nat, dst: nat)
    requires 0 < src <= 21845 && dst > 0
    ensures AxisFits(src, dst)
  {
    var s := src as real / dst as real;
    RealProduct(src, dst);
    RatioBounds(s, src, dst);
    ScaleAndOffset(src, dst);
    assert ScaleOf(src, dst) as real <= s * 65536.0;
    assert TransOf(src, dst) as real <= s * 32768.0;
    ScaledWidth(s, ScaleOf(src, dst), src, dst, dst);
    CoordinatesGrow(src, dst, dst - 1, dst);
    assert Coordinate(src, dst, dst) + 16 < 0x8000_0000;
    AxisFitsIff(src, dst);
  }

  /** Equal sizes, where the resize is the identity, fit exactly up to 32767 pixels. */
  lemma EqualSizesFitIff(n: nat)
    requires n > 0
    ensures AxisFits(n, n) <==> n <= 32767
  {
    SameSizeMapping(n);
    AxisFitsIff(n, n);
  }

  // ---------------------------------------------------------------- indices in int

  lemma LastIndex(w: nat, h: nat, bpp: nat)
    requires w > 0 && h > 0 && bpp > 0
    ensures Index(h - 1, w - 1, bpp - 1, w, bpp) == h * (w * bpp) - 1
  {
    assert (h - 1) * (w * bpp) == h * (w * bpp) - w * bpp;
    assert (w - 1) * bpp == w * bpp - bpp;
  }

  /** Every int that the places of an image are made of: the product and the quotient behind the stride,
      and all indices. The partial sums of an index are smaller than the index. */
  ghost predicate ImageFits(w: nat, h: nat, ty: nat) {
    && IsInt(w * Channels(ty)) && IsInt(StrideOf(w, Channels(ty), ty))
    && forall y: nat, x: nat, k: nat :: y < h && x < w && k < Bpp(ty) ==> IsInt(Index(y, x, k, w, Bpp(ty)))
  }

  /** Main result on indices, for every image: all of them stay in a 32-bit int exactly if the image has at
      most 2^31 bytes. */
  lemma IndexFitsIff(w: nat, h: nat, bpp: nat)
    requires w > 0 && h > 0 && bpp > 0
    ensures (forall y: nat, x: nat, k: nat :: y < h && x < w && k < bpp ==> IsInt(Index(y, x, k, w, bpp)))
       <==> h * (w * bpp) <= 0x8000_0000
  {
    LastIndex(w, h, bpp);
    forall y: nat, x: nat, k: nat | y < h && x < w && k < bpp ensures Index(y, x, k, w, bpp) < h * (w * bpp) {
      IndexInBounds(y, x, k, w, h, bpp);
    }
  }

  /** With the product that the stride starts from, which can overflow before any index does. */
  lemma ImageFitsIff(w: nat, h: nat, ty: nat)
    requires ValidType(ty) && w > 0 && h > 0
    ensures ImageFits(w, h, ty) <==> h * (w * Bpp(ty)) <= 0x8000_0000 && w * Channels(ty) < 0x8000_0000
  {
    IndexFitsIff(w, h, Bpp(ty));
    StrideIsRow(w, ty);
  }

  /** Nothing that a call of opencv_resize_fmu computes in int leaves it. */
  ghost predicate CallFits(g: Geometry)
    requires g.dstW > 0 && g.dstH > 0
  {
    && AxisFits(g.srcW, g.dstW) && AxisFits(g.srcH, g.dstH)
    && ImageFits(g.srcW, g.srcH, g.ty) && ImageFits(g.dstW, g.dstH, g.ty)
  }

  /** The last running coordinate of an axis and the last rounded one. */
  predicate AxisEnds(src: nat, dst: nat)
    requires dst > 0
  {
    && TransOf(src, dst) + dst * ScaleOf(src, dst) < 0x8000_0000
    && TransOf(src, dst) + (dst - 1) * ScaleOf(src, dst) + 16 < 0x8000_0000
  }

  predicate ImageEnds(w: nat, h: nat, ty: nat) {
    h * (w * Bpp(ty)) <= 0x8000_0000 && w * Channels(ty) < 0x8000_0000
  }

  /** Main result on the machine range of a whole call: for every geometry, no int overflows exactly if eight
      numbers known before the loops are in range. */
  lemma CallFitsIff(g: Geometry)
    requires ValidType(g.ty) && g.srcW > 0 && g.srcH > 0 && g.dstW > 0 && g.dstH > 0
    ensures CallFits(g) <==>
      && AxisEnds(g.srcW, g.dstW) && AxisEnds(g.srcH, g.dstH)
      && ImageEnds(g.srcW, g.srcH, g.ty) && ImageEnds(g.dstW, g.dstH, g.ty)
  {
    AxisFitsIff(g.srcW, g.dstW);
    AxisFitsIff(g.srcH, g.dstH);
    ImageFitsIff(g.srcW, g.srcH, g.ty);
    ImageFitsIff(g.dstW, g.dstH, g.ty);
  }

  lemma RatioBounds(s: real, src: nat, dst: nat)
    requires s * (dst as real) == src as real && src > 0 && dst > 0
    ensures 0.0 < s <= src as real
  {
    assert s <= 0.0 ==> s * (dst as real) <= 0.0;
    RealMulLe(1.0, dst as real, s);
  }

  lemma ScaledWidth(s: real, scale: nat, src: nat, dst: nat, i: nat)
    requires scale as real <= s * 65536.0 && s * (dst as real) == src as real && i <= dst
    ensures 0 <= i * scale <= src * 65536
  {
    MulLe(i, dst, scale);
    assert (dst * scale) as real == (dst as real) * (scale as real);
    RealMulLe(scale as real, s * 65536.0, dst as real);
    assert (s * 65536.0) * (dst as real) == (s * (dst as real)) * 65536.0;
  }

  lemma RealMulLe(a: real, b: real, c: real)
    requires a <= b && c >= 0.0
    ensures c * a <= b * c
  {
  }
}
