/** First fit and coalescing in terms of free bytes. */
module BoFirstFit {
  import opened BoModel
  import opened BoLayout

  /** Address `x` lies inside block `b`. */
  predicate Inside(b: Blk, x: nat) {
    b.paddr <= x < b.paddr + b.size
  }

  /** Address `x` of the region belongs to no live buffer. */
  ghost predicate ByteFree(r: Region, bs: seq<Blk>, x: nat) {
    r.base <= x < r.End() && forall i :: 0 <= i < |bs| && Inside(bs[i], x) ==> bs[i].idle
  }

  ghost predicate FreeRange(r: Region, bs: seq<Blk>, a: nat, n: nat) {
    forall x :: a <= x < a + n ==> ByteFree(r, bs, x)
  }

  /** A free range that no free byte continues on either side. */
  ghost predicate MaximalGap(r: Region, bs: seq<Blk>, a: nat, n: nat) {
    && n > 0 && FreeRange(r, bs, a, n)
    && (a > 0 ==> !ByteFree(r, bs, a - 1))
    && !ByteFree(r, bs, a + n)
  }

  ghost predicate IdleBlock(bs: seq<Blk>, a: nat, n: nat) {
    exists i :: 0 <= i < |bs| && bs[i].idle && bs[i].paddr == a && bs[i].size == n
  }

  lemma {:induction false} BlockOf(r: Region, bs: seq<Blk>, p: nat, x: nat) returns (i: nat)
    requires Tiles(r, bs, p) && p <= x < p + SumSizes(bs)
    ensures i < |bs| && Inside(bs[i], x)
    decreases |bs|
  {
    if x < p + bs[0].size {
      i := 0;
    } else {
      i := BlockOf(r, bs[1..], p + bs[0].size, x);
      i := i + 1;
    }
  }

  lemma OneBlock(r: Region, bs: seq<Blk>, i: nat, j: nat, x: nat)
    requires Tiles(r, bs, r.base) && i < |bs| && j < |bs| && Inside(bs[i], x) && Inside(bs[j], x)
    ensures i == j
  {
    if i < j {
      TilesOrdered(r, bs, r.base, i, j);
    } else if j < i {
      TilesOrdered(r, bs, r.base, j, i);
    }
  }

  lemma IdleBlockIsFree(r: Region, bs: seq<Blk>, i: nat)
    requires Good(r, bs) && i < |bs| && bs[i].idle
    ensures FreeRange(r, bs, bs[i].paddr, bs[i].size)
  {
    TilesAt(r, bs, r.base, i);
    forall x | bs[i].paddr <= x < bs[i].paddr + bs[i].size ensures ByteFree(r, bs, x) {
      forall j | 0 <= j < |bs| && Inside(bs[j], x) ensures bs[j].idle {
        OneBlock(r, bs, i, j, x);
      }
    }
  }

  /** A free range never crosses a block boundary: neighbouring free blocks have been merged. */
  lemma FreeRangeInOneBlock(r: Region, bs: seq<Blk>, a: nat, n: nat) returns (i: nat)
    requires Good(r, bs) && n > 0 && FreeRange(r, bs, a, n)
    ensures i < |bs| && bs[i].idle && bs[i].paddr <= a && a + n <= bs[i].paddr + bs[i].size
  {
    assert ByteFree(r, bs, a);
    i := BlockOf(r, bs, r.base, a);
    TilesAt(r, bs, r.base, i);
    var e := bs[i].paddr + bs[i].size;
    if i + 1 < |bs| {
      TilesAt(r, bs, r.base, i + 1);
      assert !bs[i + 1].idle && Inside(bs[i + 1], e);
    }
    assert !ByteFree(r, bs, e);
  }

  /** Main result on coalescing: the idle blocks are exactly the maximal gaps between live buffers. */
  lemma IdleBlocksAreMaximalGaps(r: Region, bs: seq<Blk>, a: nat, n: nat)
    requires Good(r, bs)
    ensures IdleBlock(bs, a, n) <==> MaximalGap(r, bs, a, n)
  {
    if IdleBlock(bs, a, n) {
      var i :| 0 <= i < |bs| && bs[i].idle && bs[i].paddr == a && bs[i].size == n;
      IdleBlockIsGap(r, bs, i);
    }
    if MaximalGap(r, bs, a, n) {
      var i := FreeRangeInOneBlock(r, bs, a, n);
      IdleBlockIsFree(r, bs, i);
      var b := bs[i];
      assert b.paddr < a ==> b.paddr <= a - 1 < b.paddr + b.size;
      assert b.paddr == a;
      assert !ByteFree(r, bs, a + n);
    }
  }

  lemma IdleBlockIsGap(r: Region, bs: seq<Blk>, i: nat)
    requires Good(r, bs) && i < |bs| && bs[i].idle
    ensures MaximalGap(r, bs, bs[i].paddr, bs[i].size)
  {
    IdleBlockIsFree(r, bs, i);
    TilesAt(r, bs, r.base, i);
    TilesAt(r, bs, r.base, i - 1);
    assert !bs[i - 1].idle && Inside(bs[i - 1], bs[i].paddr - 1);
    var e := bs[i].paddr + bs[i].size;
    if i + 1 < |bs| {
      TilesAt(r, bs, r.base, i + 1);
      assert !bs[i + 1].idle && Inside(bs[i + 1], e);
    }
  }

  /** The bytes a request looks for: its rounded size, or one byte if that is zero. */
  function Sought(size: nat): nat {
    if AlignSize(size) == 0 then 1 else AlignSize(size)
  }

  /** Main result on first fit, for every size_t: a request is served exactly when some contiguous range
      of free bytes can hold its rounded size; the grant starts at the lowest such range, lies in free
      bytes, and exceeds the rounded size by less than the split threshold. It holds the request exactly
      if the rounding does not wrap, and then exceeds it by at most the rounding and that remainder. */
  lemma FirstFitIsComplete(r: Region, bs: seq<Blk>, size: nat)
    requires Good(r, bs) && size < SIZE_MOD
    ensures Alloc(bs, size).Some? <==> exists a :: FreeRange(r, bs, a, Sought(size))
    ensures Alloc(bs, size).Some? ==>
      var (bs', k) := Alloc(bs, size).value;
      && k < |bs| && k < |bs'|
      && FreeRange(r, bs, bs'[k].paddr, bs'[k].size)
      && AlignSize(size) <= bs'[k].size <= AlignSize(size) + 0x1ff
      && (bs'[k].size >= size <==> size <= SIZE_MOD - 64)
      && (size <= SIZE_MOD - 64 ==> bs'[k].size <= size + 63 + 0x1ff)
      && (forall a :: FreeRange(r, bs, a, Sought(size)) ==> bs'[k].paddr <= a)
  {
    var need := AlignSize(size);
    var k := FirstFit(bs, need);
    AlignSizeZeroIff(size);
    forall a | FreeRange(r, bs, a, Sought(size)) ensures k < |bs| && bs[k].paddr <= a {
      var i := FreeRangeInOneBlock(r, bs, a, Sought(size));
      assert k <= i;
      if k < i {
        TilesOrdered(r, bs, r.base, k, i);
      }
    }
    if k < |bs| {
      TilesAt(r, bs, r.base, k);
      IdleBlockIsFree(r, bs, k);
      assert FreeRange(r, bs, bs[k].paddr, Sought(size));
    }
  }

  /** `a` is the size in bytes, rounded up to 64; sizes above 2^32 - 64 wrap to nothing. */
  predicate IsRounded(size: nat, a: nat) {
    if size <= 0xFFFF_FFC0 then a % 64 == 0 && size <= a < size + 64 else a == 0
  }

  predicate Fits(b: Blk, a: nat) {
    b.idle && b.size >= a
  }

  /** The first block that fits is the one at `k`, which is the length if none does. */
  ghost predicate FirstThatFits(bs: seq<Blk>, a: nat, k: nat) {
    k <= |bs| && (k < |bs| ==> Fits(bs[k], a)) && forall i :: 0 <= i < k ==> !Fits(bs[i], a)
  }

  /** Block `b` when `a` bytes of it are granted. */
  function Divided(b: Blk, a: nat): seq<Blk>
    requires b.size >= a
  {
    if b.size - a < 512 then [b.(idle := false)]
    else [b.(size := a, idle := false), Blk(b.size - a, true, false, b.handle, b.paddr + a, b.vaddr + a)]
  }

  /** Main result on the granted block, for every list and every size_t. The first idle block of at least
      the rounded size is granted. Whole, if fewer than 512 bytes would remain; otherwise cut to exactly
      the rounded size, with an idle block of the remaining bytes directly behind it. No other block
      changes. If no block fits, there is no grant. */
  lemma GrantIsExact(bs: seq<Blk>, size: nat, a: nat, k: nat)
    requires size < 0x1_0000_0000 && IsRounded(size, a) && FirstThatFits(bs, a, k)
    ensures k == |bs| ==> Alloc(bs, size) == None
    ensures k < |bs| ==> Alloc(bs, size) == Some((bs[..k] + Divided(bs[k], a) + bs[k + 1..], k))
  {
    RoundedIsAligned(size, a);
    FirstFitIs(bs, a, k);
    if k < |bs| {
      assert Grant(bs, k, a) == bs[..k] + Divided(bs[k], a) + bs[k + 1..];
    }
  }

  lemma RoundedIsAligned(size: nat, a: nat)
    requires size < 0x1_0000_0000 && IsRounded(size, a)
    ensures AlignSize(size) == a
  {
  }

  lemma FirstFitIs(bs: seq<Blk>, a: nat, k: nat)
    requires FirstThatFits(bs, a, k)
    ensures FirstFit(bs, a) == k
  {
    var f := FirstFit(bs, a);
    assert f < |bs| ==> Fits(bs[f], a);
    assert k < |bs| ==> bs[k].idle && bs[k].size >= a;
  }
}
