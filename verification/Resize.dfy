/** opencv_resize_fmu: 16.16 coordinates with running accumulators, edge clamping, and a
    destination buffer written byte by byte. */
module Resize {
  import opened Bits
  import opened Interpolation

  /** Image sizes in pixels and the element type (2, 4, 8 or 16). */
  datatype Geometry = Geometry(srcW: nat, srcH: nat, dstW: nat, dstH: nat, ty: nat)

  /** Scale and offset per axis, in 1/65536 of a source pixel. */
  datatype Mapping = Mapping(scaleX: int, scaleY: int, transX: int, transY: int)

  /** The source pixels and the weight of the second one that serve one coordinate. */
  datatype Tap = Tap(i0: nat, i1: nat, w: nat)

  predicate ValidType(ty: nat) {
    ty == 2 || ty == 4 || ty == 8 || ty == 16
  }

  /** Bytes per pixel. */
  function Bpp(ty: nat): (n: nat)
    ensures n > 0
  {
    if ty == 2 then 8 else if ty == 4 then 16 else if ty == 8 then 32 else 16
  }

  /** The channel count each type is made for. */
  function Channels(ty: nat): nat {
    if ty == 16 then 16 else 32
  }

  function StrideOf(w: nat, chn: nat, ty: nat): nat {
    if ty == 2 then w * chn / 4 else if ty == 4 then w * chn / 2 else w * chn
  }

  /** With the matching channel count a row of pixels fills the stride exactly. */
  lemma StrideIsRow(w: nat, ty: nat)
    requires ValidType(ty)
    ensures StrideOf(w, Channels(ty), ty) == w * Bpp(ty)
  {
  }

  // ---------------------------------------------------------------- coordinates

  /** Rounding, splitting and clamping of one coordinate on an axis of `n` pixels. */
  function TapOf(f: int, n: nat): (t: Tap)
    requires n > 0
    ensures t.i0 < n && t.i1 < n && t.w < ONE
  {
    var r := f + 16;
    var x := r / 65536;
    var w := r % 65536 / 32;
    if x >= n - 1 then Tap(n - 1, n - 1, w)
    else if x < 0 then Tap(0, 0, w)
    else Tap(x, x + 1, w)
  }

  function ClampTo(v: int, hi: nat): nat {
    if v < 0 then 0 else if v > hi then hi else v
  }

  /** The position a tap stands for, in 1/2048 of a pixel. With equal ends the weight has no effect. */
  function Position(t: Tap): nat {
    t.i0 * 2048 + (if t.i0 == t.i1 then 0 else t.w)
  }

  /** What the branches compute: the rounded coordinate in 1/2048 pixel, clamped to the image; the two
      ends are equal or neighbours. */
  lemma TapMeaning(f: int, n: nat)
    requires n > 0
    ensures Position(TapOf(f, n)) == ClampTo((f + 16) / 32, (n - 1) * 2048)
    ensures TapOf(f, n).i1 == TapOf(f, n).i0 || TapOf(f, n).i1 == TapOf(f, n).i0 + 1
  {
    var r := f + 16;
    var x, l := r / 65536, r % 65536;
    assert r / 32 == x * 2048 + l / 32;
  }

  /** src_fx_round & 0xFFFF on a two's complement word. */
  lemma LowHalf(r: int)
    ensures And(r % 0x1_0000_0000, 0xFFFF) == r % 65536
  {
    PowersOfTwo();
    AndMaskIsMod(r % 0x1_0000_0000, 16);
    LowBits(r);
  }

  lemma LowBits(r: int)
    ensures r % 0x1_0000_0000 % 65536 == r % 65536
  {
    var q, t := r / 0x1_0000_0000, r % 0x1_0000_0000;
    SameRemainder(r, t, 65536 * q);
  }

  lemma SameRemainder(r: int, t: int, k: int)
    requires r == 65536 * k + t
    ensures r % 65536 == t % 65536
  {
    var a, b := r % 65536, t % 65536;
    assert r == 65536 * (r / 65536) + a && t == 65536 * (t / 65536) + b;
    assert 65536 * (r / 65536 - t / 65536 - k) == b - a;
  }

  lemma PowersOfTwo()
    ensures Pow2(2) == 4 && Pow2(4) == 16 && Pow2(8) == 256 && Pow2(16) == 65536
  {
    Pow2Add(2, 2);
    Pow2Add(4, 4);
    Pow2Add(8, 8);
  }

  // ---------------------------------------------------------------- one output byte

  /** The byte made of four source bytes: one sample, or four or two packed ones. */
  function Blend(ty: nat, d0: Byte, d1: Byte, d2: Byte, d3: Byte, wx: nat, wy: nat): (r: Byte)
    requires ValidType(ty) && wx <= ONE && wy <= ONE
  {
    if ty == 2 then
      PackedIsByte(d0, d1, d2, d3, wx, wy, 4, 2);
      Packed(d0, d1, d2, d3, wx, wy, 4, 2)
    else if ty == 4 then
      PackedIsByte(d0, d1, d2, d3, wx, wy, 2, 4);
      Packed(d0, d1, d2, d3, wx, wy, 2, 4)
    else
      LerpBetween(d0, d1, d2, d3, wx, wy, 0, 255);
      Lerp(d0, d1, d2, d3, wx, wy)
  }

  lemma PackedIsByte(d0: Byte, d1: Byte, d2: Byte, d3: Byte, wx: nat, wy: nat, n: nat, w: nat)
    requires wx <= ONE && wy <= ONE && n * w == 8
    ensures Packed(d0, d1, d2, d3, wx, wy, n, w) < 256
  {
    PackedFits(d0, d1, d2, d3, wx, wy, n, w);
    PowersOfTwo();
  }

  /** The loop over the lanes of one byte, with `|=` for each lane. */
  method PackLanes(d0: Byte, d1: Byte, d2: Byte, d3: Byte, wx: nat, wy: nat, n: nat, w: nat) returns (res: nat)
    requires wx <= ONE && wy <= ONE
    ensures res == Packed(d0, d1, d2, d3, wx, wy, n, w)
  {
    res := 0;
    var b := 0;
    while b < n
      invariant 0 <= b <= n && res == Packed(d0, d1, d2, d3, wx, wy, b, w)
    {
      var v := Lerp(And(Shr(d0, b * w), Pow2(w) - 1), And(Shr(d1, b * w), Pow2(w) - 1),
                    And(Shr(d2, b * w), Pow2(w) - 1), And(Shr(d3, b * w), Pow2(w) - 1), wx, wy);
      assert v == LerpLane(d0, d1, d2, d3, wx, wy, b, w);
      PackedFits(d0, d1, d2, d3, wx, wy, b, w);
      ShlIsMul(v, b * w);
      OrDisjointIsAdd(res, v, b * w);
      res := Or(res, Shl(v, b * w));
      b := b + 1;
    }
  }

  method BlendBytes(ty: nat, d0: Byte, d1: Byte, d2: Byte, d3: Byte, wx: nat, wy: nat) returns (r: Byte)
    requires ValidType(ty) && wx <= ONE && wy <= ONE
    ensures r == Blend(ty, d0, d1, d2, d3, wx, wy)
  {
    if ty == 8 || ty == 16 {
      LerpBetween(d0, d1, d2, d3, wx, wy, 0, 255);
      r := Lerp(d0, d1, d2, d3, wx, wy) % 256;
    } else if ty == 2 {
      PackedIsByte(d0, d1, d2, d3, wx, wy, 4, 2);
      r := PackLanes(d0, d1, d2, d3, wx, wy, 4, 2);
    } else {
      PackedIsByte(d0, d1, d2, d3, wx, wy, 2, 4);
      r := PackLanes(d0, d1, d2, d3, wx, wy, 2, 4);
    }
  }

  // ---------------------------------------------------------------- buffers

  /** Byte index of byte `k` of pixel (`y`, `x`) in an image of `w` pixels per row. */
  function Index(y: nat, x: nat, k: nat, w: nat, bpp: nat): nat {
    y * (w * bpp) + x * bpp + k
  }

  /** Every byte of every pixel has its own place inside the buffer. */
  lemma IndexInBounds(y: nat, x: nat, k: nat, w: nat, h: nat, bpp: nat)
    requires y < h && x < w && k < bpp
    ensures Index(y, x, k, w, bpp) < h * (w * bpp)
    ensures x * bpp + k < w * bpp
  {
    MulLe(x + 1, w, bpp);
    assert Mul(x + 1, bpp) == x * bpp + bpp;
    MulLe(y + 1, h, w * bpp);
    assert Mul(y + 1, w * bpp) == y * (w * bpp) + w * bpp;
  }

  /** The place determines row, pixel and byte. */
  lemma IndexSplits(y: nat, x: nat, k: nat, w: nat, bpp: nat)
    requires x < w && k < bpp
    ensures var i := Index(y, x, k, w, bpp);
      w * bpp > 0 && i / (w * bpp) == y && i % (w * bpp) / bpp == x && i % (w * bpp) % bpp == k
  {
    IndexInBounds(0, x, k, w, 1, bpp);
    var s := w * bpp;
    assert y * s == s * y && x * bpp == bpp * x;
    ModUnique(Index(y, x, k, w, bpp), s, y, x * bpp + k);
    ModUnique(x * bpp + k, bpp, x, k);
  }

  ghost predicate SrcFits(g: Geometry, src: seq<Byte>) {
    ValidType(g.ty) && g.srcW > 0 && g.srcH > 0 && |src| == g.srcH * (g.srcW * Bpp(g.ty))
  }

  /** The four source bytes of one output byte, blended. */
  ghost function OutByte(g: Geometry, m: Mapping, src: seq<Byte>, y: nat, x: nat, k: nat): Byte
    requires SrcFits(g, src) && k < Bpp(g.ty)
  {
    var tx, ty := TapOf(m.transX + x * m.scaleX, g.srcW), TapOf(m.transY + y * m.scaleY, g.srcH);
    Blend(g.ty, Sample(g, src, ty.i0, tx.i0, k), Sample(g, src, ty.i0, tx.i1, k),
          Sample(g, src, ty.i1, tx.i0, k), Sample(g, src, ty.i1, tx.i1, k), tx.w, ty.w)
  }

  ghost function Sample(g: Geometry, src: seq<Byte>, y: nat, x: nat, k: nat): Byte
    requires SrcFits(g, src) && y < g.srcH && x < g.srcW && k < Bpp(g.ty)
  {
    IndexInBounds(y, x, k, g.srcW, g.srcH, Bpp(g.ty));
    src[Index(y, x, k, g.srcW, Bpp(g.ty))]
  }

  /** The output byte at place `i`. */
  ghost function OutAt(g: Geometry, m: Mapping, src: seq<Byte>, i: nat): Byte
    requires SrcFits(g, src) && g.dstW > 0
  {
    IndexInBounds(0, 0, 0, g.dstW, 1, Bpp(g.ty));
    var stride := g.dstW * Bpp(g.ty);
    OutByte(g, m, src, Quotient(i, stride), Quotient(Remainder(i, stride), Bpp(g.ty)),
            Remainder(Remainder(i, stride), Bpp(g.ty)))
  }

  /** The first `n` bytes of the destination are final. */
  ghost predicate Written(g: Geometry, m: Mapping, src: seq<Byte>, dst: seq<Byte>, n: nat)
    requires SrcFits(g, src) && g.dstW > 0
  {
    n <= |dst| && forall i :: 0 <= i < n ==> dst[i] == OutAt(g, m, src, i)
  }

  /** The loop over the bytes of one pixel. `n` counts the bytes written so far: each write goes to
      place `n`, so no place is written twice and none is skipped. */
  method WritePixel(src: array<Byte>, dst: array<Byte>, g: Geometry, m: Mapping, y: nat, x: nat, tx: Tap, ty: Tap,
                    srcStride: nat, dstStride: nat, bpp: nat, ghost n0: nat) returns (ghost n: nat)
    requires src != dst && SrcFits(g, src[..]) && bpp == Bpp(g.ty)
    requires srcStride == g.srcW * bpp && dstStride == g.dstW * bpp
    requires y < g.dstH && x < g.dstW && dst.Length == g.dstH * (g.dstW * bpp)
    requires tx == TapOf(m.transX + x * m.scaleX, g.srcW) && ty == TapOf(m.transY + y * m.scaleY, g.srcH)
    requires n0 == Index(y, x, 0, g.dstW, bpp) && Written(g, m, src[..], dst[..], n0)
    modifies dst
    ensures n == n0 + bpp && Written(g, m, src[..], dst[..], n)
  {
    n := n0;
    var k := 0;
    while k < bpp
      invariant 0 <= k <= bpp && n == n0 + k && Written(g, m, src[..], dst[..], n)
    {
      n := WriteByte(src, dst, g, m, y, x, k, tx, ty, srcStride, dstStride, bpp, n);
      k := k + 1;
    }
  }

  /** One byte: four reads inside the source, one write at place `n0`. */
  method WriteByte(src: array<Byte>, dst: array<Byte>, g: Geometry, m: Mapping, y: nat, x: nat,
                   k: nat, tx: Tap, ty: Tap,
                   srcStride: nat, dstStride: nat, bpp: nat, ghost n0: nat) returns (ghost n: nat)
    requires src != dst && SrcFits(g, src[..]) && bpp == Bpp(g.ty)
    requires srcStride == g.srcW * bpp && dstStride == g.dstW * bpp
    requires y < g.dstH && x < g.dstW && k < bpp && dst.Length == g.dstH * (g.dstW * bpp)
    requires tx == TapOf(m.transX + x * m.scaleX, g.srcW) && ty == TapOf(m.transY + y * m.scaleY, g.srcH)
    requires n0 == Index(y, x, k, g.dstW, bpp) && Written(g, m, src[..], dst[..], n0)
    modifies dst
    ensures n == n0 + 1 && Written(g, m, src[..], dst[..], n)
  {
    IndexInBounds(ty.i0, tx.i0, k, g.srcW, g.srcH, bpp);
    IndexInBounds(ty.i0, tx.i1, k, g.srcW, g.srcH, bpp);
    IndexInBounds(ty.i1, tx.i0, k, g.srcW, g.srcH, bpp);
    IndexInBounds(ty.i1, tx.i1, k, g.srcW, g.srcH, bpp);
    var d0 := src[ty.i0 * srcStride + tx.i0 * bpp + k];
    var d1 := src[ty.i0 * srcStride + tx.i1 * bpp + k];
    var d2 := src[ty.i1 * srcStride + tx.i0 * bpp + k];
    var d3 := src[ty.i1 * srcStride + tx.i1 * bpp + k];
    var res := BlendBytes(g.ty, d0, d1, d2, d3, tx.w, ty.w);
    assert res == OutByte(g, m, src[..], y, x, k);
    IndexInBounds(y, x, k, g.dstW, g.dstH, bpp);
    IndexSplits(y, x, k, g.dstW, bpp);
    var dstIdx := y * dstStride + x * bpp + k;
    assert dstIdx == n0;
    dst[dstIdx] := res;
    n := n0 + 1;
  }

  // ---------------------------------------------------------------- the whole image

  /** The fixed-point coordinates of one pixel: the branches of the source, on two's complement words. */
  method ComputeTap(f: int, n: nat) returns (t: Tap)
    requires n > 0
    ensures t == TapOf(f, n)
  {
    var round := f + 16;
    var x := round / 65536;
    var w := And(round % 0x1_0000_0000, 0xFFFF) / 32;
    LowHalf(round);
    var x0, x1 := x, x + 1;
    if x < 0 {
      x0, x1 := 0, 0;
    }
    if x >= n - 1 {
      x0, x1 := n - 1, n - 1;
    }
    t := Tap(x0, x1, w);
  }

  lemma NextPixel(y: nat, x: nat, w: nat, bpp: nat)
    ensures Index(y, x, 0, w, bpp) + bpp == Index(y, x + 1, 0, w, bpp)
    ensures Index(y, w, 0, w, bpp) == Index(y + 1, 0, 0, w, bpp)
  {
  }

  /** The loop over the pixels of one row, with the running x coordinate. */
  method WriteRow(src: array<Byte>, dst: array<Byte>, g: Geometry, m: Mapping, y: nat, srcFy: int,
                  srcStride: nat, dstStride: nat, bpp: nat, ghost n0: nat) returns (ghost n: nat)
    requires src != dst && SrcFits(g, src[..]) && bpp == Bpp(g.ty) && g.dstW > 0
    requires srcStride == g.srcW * bpp && dstStride == g.dstW * bpp
    requires y < g.dstH && dst.Length == g.dstH * (g.dstW * bpp) && srcFy == m.transY + y * m.scaleY
    requires n0 == Index(y, 0, 0, g.dstW, bpp) && Written(g, m, src[..], dst[..], n0)
    modifies dst
    ensures n == Index(y + 1, 0, 0, g.dstW, bpp) && Written(g, m, src[..], dst[..], n)
  {
    n := n0;
    var srcFx := m.transX;
    var x := 0;
    while x < g.dstW
      invariant 0 <= x <= g.dstW && srcFx == m.transX + x * m.scaleX
      invariant n == Index(y, x, 0, g.dstW, bpp) && Written(g, m, src[..], dst[..], n)
    {
      var tx := ComputeTap(srcFx, g.srcW);
      var ty := ComputeTap(srcFy, g.srcH);
      n := WritePixel(src, dst, g, m, y, x, tx, ty, srcStride, dstStride, bpp, n);
      NextPixel(y, x, g.dstW, bpp);
      NextCoordinate(m.transX, m.scaleX, x);
      srcFx := srcFx + m.scaleX;
      x := x + 1;
    }
    NextPixel(y, x, g.dstW, bpp);
  }

  lemma NextCoordinate(trans: int, scale: int, i: nat)
    ensures trans + i * scale + scale == trans + (i + 1) * scale
  {
  }

  /** opencv_resize_fmu for given scales and offsets: the whole destination is written, in order. */
  method ResizeWith(src: array<Byte>, dst: array<Byte>, g: Geometry, srcChn: nat, dstChn: nat, m: Mapping)
    requires src != dst && SrcFits(g, src[..]) && g.dstW > 0
    requires srcChn == dstChn == Channels(g.ty)
    requires dst.Length == g.dstH * (g.dstW * Bpp(g.ty))
    modifies dst
    ensures Written(g, m, src[..], dst[..], dst.Length)
  {
    StrideIsRow(g.srcW, g.ty);
    StrideIsRow(g.dstW, g.ty);
    var srcStride, dstStride := StrideOf(g.srcW, srcChn, g.ty), StrideOf(g.dstW, dstChn, g.ty);
    var bpp := Bpp(g.ty);
    var srcFy := m.transY;
    var y := 0;
    ghost var n := 0;
    while y < g.dstH
      invariant 0 <= y <= g.dstH && srcFy == m.transY + y * m.scaleY
      invariant n == Index(y, 0, 0, g.dstW, bpp) && Written(g, m, src[..], dst[..], n)
    {
      n := WriteRow(src, dst, g, m, y, srcFy, srcStride, dstStride, bpp, n);
      NextCoordinate(m.transY, m.scaleY, y);
      srcFy := srcFy + m.scaleY;
      y := y + 1;
    }
  }

  // ---------------------------------------------------------------- scales and offsets

  /** (int) of a non-negative or negative value: towards zero. */
  function Truncate(r: real): int {
    if r >= 0.0 then r.Floor else -(-r).Floor
  }

  function ScaleOf(src: nat, dst: nat): int
    requires dst > 0
  {
    Truncate(src as real / dst as real * 65536.0)
  }

  function TransOf(src: nat, dst: nat): int
    requires dst > 0
  {
    Truncate((src as real / dst as real * 0.5 - 0.5) * 65536.0)
  }

  function MappingOf(g: Geometry): Mapping
    requires g.dstW > 0 && g.dstH > 0
  {
    Mapping(ScaleOf(g.srcW, g.dstW), ScaleOf(g.srcH, g.dstH), TransOf(g.srcW, g.dstW), TransOf(g.srcH, g.dstH))
  }

  /** opencv_resize_fmu. */
  method ResizeFmu(src: array<Byte>, dst: array<Byte>, g: Geometry, srcChn: nat, dstChn: nat)
    requires src != dst && SrcFits(g, src[..]) && g.dstW > 0 && g.dstH > 0
    requires srcChn == dstChn == Channels(g.ty)
    requires dst.Length == g.dstH * (g.dstW * Bpp(g.ty))
    modifies dst
    ensures Written(g, MappingOf(g), src[..], dst[..], dst.Length)
  {
    ResizeWith(src, dst, g, srcChn, dstChn, MappingOf(g));
  }
}
