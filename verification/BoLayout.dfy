/** The tiling invariant of the allocator, and what allocation and release do to it. */
module BoLayout {
  import opened BoModel

  // ---------------------------------------------------------------- tilings

  lemma {:induction false} TilesConcat(r: Region, a: seq<Blk>, b: seq<Blk>, p: nat)
    ensures Tiles(r, a + b, p) <==> Tiles(r, a, p) && Tiles(r, b, p + SumSizes(a))
    ensures SumSizes(a + b) == SumSizes(a) + SumSizes(b)
    decreases |a|
  {
    if a == [] {
      assert a + b == b;
    } else {
      assert (a + b)[1..] == a[1..] + b;
      TilesConcat(r, a[1..], b, p + a[0].size);
    }
  }

  lemma TilesOne(r: Region, b: Blk, p: nat)
    ensures Tiles(r, [b], p) <==> BlockOk(r, b, p)
    ensures SumSizes([b]) == b.size
  {
    assert [b][1..] == [];
  }

  lemma {:induction false} TilesTwo(r: Region, b: Blk, c: Blk, p: nat)
    ensures Tiles(r, [b, c], p) <==> BlockOk(r, b, p) && BlockOk(r, c, p + b.size)
    ensures SumSizes([b, c]) == b.size + c.size
  {
    assert [b, c][1..] == [c];
    TilesOne(r, c, p + b.size);
  }

  lemma {:induction false} TilesThree(r: Region, a: seq<Blk>, b: seq<Blk>, c: seq<Blk>, p: nat)
    ensures Tiles(r, a + b + c, p) <==>
            Tiles(r, a, p) && Tiles(r, b, p + SumSizes(a)) && Tiles(r, c, p + SumSizes(a) + SumSizes(b))
    ensures SumSizes(a + b + c) == SumSizes(a) + SumSizes(b) + SumSizes(c)
  {
    TilesConcat(r, a + b, c, p);
    TilesConcat(r, a, b, p);
  }

  /** Replacing a stretch of blocks by another one that tiles the same addresses. */
  lemma {:induction false} ReplaceStretch(r: Region, pre: seq<Blk>, mid: seq<Blk>, mid': seq<Blk>,
                                          post: seq<Blk>, p: nat)
    requires Tiles(r, pre + mid + post, p)
    requires Tiles(r, mid', p + SumSizes(pre)) && SumSizes(mid') == SumSizes(mid)
    ensures Tiles(r, pre + mid' + post, p)
    ensures SumSizes(pre + mid' + post) == SumSizes(pre + mid + post)
  {
    TilesThree(r, pre, mid, post, p);
    TilesThree(r, pre, mid', post, p);
  }

  /** Every block starts where the previous one ends. */
  lemma {:induction false} TilesAt(r: Region, bs: seq<Blk>, p: nat, i: nat)
    requires Tiles(r, bs, p) && i < |bs|
    ensures BlockOk(r, bs[i], p + SumSizes(bs[..i]))
    ensures bs[i].paddr + bs[i].size <= p + SumSizes(bs)
    ensures i + 1 < |bs| ==> bs[i + 1].paddr == bs[i].paddr + bs[i].size
    ensures i + 1 == |bs| ==> bs[i].paddr + bs[i].size == p + SumSizes(bs)
    decreases |bs|
  {
    if i > 0 {
      assert bs[..i][1..] == bs[1..][..i - 1];
      TilesAt(r, bs[1..], p + bs[0].size, i - 1);
    }
  }

  lemma {:induction false} TilesOrdered(r: Region, bs: seq<Blk>, p: nat, i: nat, j: nat)
    requires Tiles(r, bs, p) && i < j < |bs|
    ensures bs[i].paddr + bs[i].size <= bs[j].paddr
    decreases j
  {
    TilesAt(r, bs, p, j - 1);
    TilesAt(r, bs, p, i);
    if i < j - 1 {
      TilesOrdered(r, bs, p, i, j - 1);
    }
  }

  /** What the invariant says address by address: blocks of positive size lie behind one another
      without gap or overlap and fill the region, every start is a multiple of 64 from the base,
      and physical and virtual addresses keep their distance. */
  lemma BlocksTileTheRegion(r: Region, bs: seq<Blk>)
    requires Good(r, bs)
    ensures bs[0].paddr == r.base && bs[|bs| - 1].paddr + bs[|bs| - 1].size == r.End()
    ensures forall i :: 0 <= i < |bs| - 1 ==> bs[i + 1].paddr == bs[i].paddr + bs[i].size
    ensures forall i :: 0 <= i < |bs| ==>
      BlockOk(r, bs[i], bs[i].paddr) && r.base <= bs[i].paddr < bs[i].paddr + bs[i].size <= r.End()
    ensures forall i, j :: 0 <= i < j < |bs| ==> bs[i].paddr + bs[i].size <= bs[j].paddr
  {
    TilesAt(r, bs, r.base, |bs| - 1);
    forall i | 0 <= i < |bs| - 1 ensures bs[i + 1].paddr == bs[i].paddr + bs[i].size {
      TilesAt(r, bs, r.base, i);
    }
    forall i | 0 <= i < |bs|
      ensures BlockOk(r, bs[i], bs[i].paddr) && r.base <= bs[i].paddr < bs[i].paddr + bs[i].size <= r.End()
    {
      TilesAt(r, bs, r.base, i);
    }
    forall i, j | 0 <= i < j < |bs| ensures bs[i].paddr + bs[i].size <= bs[j].paddr {
      TilesOrdered(r, bs, r.base, i, j);
    }
  }

  // ---------------------------------------------------------------- allocation

  lemma GrantTiles(r: Region, bs: seq<Blk>, k: nat, need: nat)
    requires Good(r, bs) && k < |bs| && bs[k].idle && bs[k].size >= need && 0 < need && need % 64 == 0
    ensures Tiles(r, Grant(bs, k, need), r.base) && SumSizes(Grant(bs, k, need)) == r.total
  {
    var pre, post, b := bs[..k], bs[k + 1..], bs[k];
    assert bs == pre + [b] + post;
    TilesAt(r, bs, r.base, k);
    TilesOne(r, b, b.paddr);
    if b.size - need < SPLIT_THRESHOLD {
      var b' := b.(idle := false);
      TilesOne(r, b', b.paddr);
      ReplaceStretch(r, pre, [b], [b'], post, r.base);
      assert Grant(bs, k, need) == pre + [b'] + post;
    } else {
      var b1 := b.(size := need, idle := false);
      var b2 := Rest(b, need);
      TilesTwo(r, b1, b2, b.paddr);
      ReplaceStretch(r, pre, [b], [b1, b2], post, r.base);
      assert Grant(bs, k, need) == pre + [b1, b2] + post;
    }
  }

  lemma GrantCoalesced(bs: seq<Blk>, k: nat, need: nat)
    requires Coalesced(bs) && k < |bs| && bs[k].idle && bs[k].size >= need
    ensures Coalesced(Grant(bs, k, need))
  {
    var g := Grant(bs, k, need);
    forall i | 0 <= i < |g| - 1 && g[i].idle ensures !g[i + 1].idle {
      if bs[k].size - need < SPLIT_THRESHOLD {
        assert bs[i].idle || i == k;
      } else if i < k {
        assert bs[i].idle;
      } else if i == k + 1 {
        assert bs[k].idle && g[i + 1] == bs[i];
      } else if i > k + 1 {
        assert bs[i - 1].idle && g[i + 1] == bs[i];
      }
    }
  }

  /** An allocation keeps the invariant. */
  lemma AllocKeepsGood(r: Region, bs: seq<Blk>, size: nat)
    requires Good(r, bs) && AlignSize(size) > 0
    ensures Alloc(bs, size).Some? ==> Good(r, Alloc(bs, size).value.0)
  {
    var k := FirstFit(bs, AlignSize(size));
    if k < |bs| {
      GrantTiles(r, bs, k, AlignSize(size));
      GrantCoalesced(bs, k, AlignSize(size));
    }
  }

  /** The rounded size is zero exactly for an empty request and for the sizes that wrap. */
  lemma AlignSizeZeroIff(size: nat)
    requires size < SIZE_MOD
    ensures AlignSize(size) == 0 <==> size == 0 || size > SIZE_MOD - 64
  {
  }

  /** Exactly when, for every request: the invariant survives if the size neither is zero nor wraps, or if
      the first idle block, which is what such a request is given, is absent or too small to be split. */
  lemma AllocKeepsGoodIff(r: Region, bs: seq<Blk>, size: nat)
    requires Good(r, bs) && size < SIZE_MOD
    ensures (Alloc(bs, size).Some? ==> Good(r, Alloc(bs, size).value.0)) <==>
            (0 < size <= SIZE_MOD - 64 || FirstFit(bs, 0) == |bs| || bs[FirstFit(bs, 0)].size < SPLIT_THRESHOLD)
  {
    AlignSizeZeroIff(size);
    if AlignSize(size) > 0 {
      AllocKeepsGood(r, bs, size);
    } else if FirstFit(bs, 0) < |bs| {
      EmptyGrant(r, bs, FirstFit(bs, 0));
    }
  }

  /** A grant of no bytes keeps the invariant exactly if it takes the whole block. */
  lemma EmptyGrant(r: Region, bs: seq<Blk>, k: nat)
    requires Good(r, bs) && k < |bs| && bs[k].idle
    ensures Good(r, Grant(bs, k, 0)) <==> bs[k].size < SPLIT_THRESHOLD
  {
    var bs' := Grant(bs, k, 0);
    if bs[k].size < SPLIT_THRESHOLD {
      var b, b' := bs[k], bs[k].(idle := false);
      TilesAt(r, bs, r.base, k);
      assert bs == bs[..k] + [b] + bs[k + 1..] && bs' == bs[..k] + [b'] + bs[k + 1..];
      TilesOne(r, b, b.paddr);
      TilesOne(r, b', b.paddr);
      ReplaceStretch(r, bs[..k], [b], [b'], bs[k + 1..], r.base);
      GrantCoalesced(bs, k, 0);
    } else {
      assert bs'[k].size == 0;
      if Good(r, bs') {
        TilesAt(r, bs', r.base, k);
        assert false;
      }
    }
  }

  // ---------------------------------------------------------------- release

  lemma {:induction false} FuseStretch(r: Region, bs: seq<Blk>, f: seq<Blk>, pre: seq<Blk>, b: Blk,
                                       c: Blk, m: Blk, post: seq<Blk>)
    requires Tiles(r, bs, r.base) && bs == pre + [b, c] + post
    requires m == b.(size := b.size + c.size) && f == pre + [m] + post
    ensures Tiles(r, f, r.base) && SumSizes(f) == SumSizes(bs)
  {
    var p := r.base + SumSizes(pre);
    TilesThree(r, pre, [b, c], post, r.base);
    TilesTwo(r, b, c, p);
    TilesOne(r, m, p);
    TilesThree(r, pre, [m], post, r.base);
  }

  lemma SplitTwo(bs: seq<Blk>, k: nat)
    requires k + 1 < |bs|
    ensures bs == bs[..k] + [bs[k], bs[k + 1]] + bs[k + 2..]
  {
  }

  lemma FuseTiles(r: Region, bs: seq<Blk>, k: nat)
    requires Tiles(r, bs, r.base) && k + 1 < |bs|
    ensures Tiles(r, Fuse(bs, k), r.base) && SumSizes(Fuse(bs, k)) == SumSizes(bs)
  {
    SplitTwo(bs, k);
    FuseStretch(r, bs, Fuse(bs, k), bs[..k], bs[k], bs[k + 1],
      bs[k].(size := bs[k].size + bs[k + 1].size), bs[k + 2..]);
  }

  /** In a coalesced list with block `k` just marked idle, each merge loop fuses at most once. */
  lemma FreeAtShape(bs: seq<Blk>, k: nat)
    requires 0 < k < |bs| && Coalesced(bs) && !bs[0].idle && !bs[k].isBo && !bs[k].idle
    ensures var marked := bs[k := bs[k].(idle := true)];
      var back := bs[k - 1].idle;
      var fwd := k + 1 < |bs| && bs[k + 1].idle;
      FreeAt(bs, k) ==
        if back && fwd then Fuse(Fuse(marked, k - 1), k - 1)
        else if back then Fuse(marked, k - 1)
        else if fwd then Fuse(marked, k)
        else marked
  {
    var marked := bs[k := bs[k].(idle := true)];
    if bs[k - 1].idle {
      var f := Fuse(marked, k - 1);
      assert k - 1 > 0 && !bs[k - 2].idle;
      assert f[k - 2] == bs[k - 2];
      assert MergeBack(f, k - 1) == (f, k - 1);
      assert MergeBack(marked, k) == (f, k - 1);
      assert k + 1 < |bs| ==> f[k] == bs[k + 1];
      ForwardOnce(f, k - 1);
    } else {
      assert MergeBack(marked, k) == (marked, k);
      ForwardOnce(marked, k);
    }
  }

  /** The forward loop fuses at most once when idle blocks further on are isolated. */
  lemma ForwardOnce(bs: seq<Blk>, k: nat)
    requires k < |bs| && (k + 2 < |bs| && bs[k + 1].idle ==> !bs[k + 2].idle)
    ensures MergeForward(bs, k) == if k + 1 < |bs| && bs[k + 1].idle then Fuse(bs, k) else bs
  {
    if k + 2 < |bs| {
      assert Fuse(bs, k)[k + 1] == bs[k + 2];
    }
  }

  lemma MarkTiles(r: Region, bs: seq<Blk>, k: nat)
    requires Tiles(r, bs, r.base) && k < |bs|
    ensures var m := bs[k := bs[k].(idle := true)]; Tiles(r, m, r.base) && SumSizes(m) == SumSizes(bs)
  {
    var b, b' := bs[k], bs[k].(idle := true);
    TilesAt(r, bs, r.base, k);
    assert bs == bs[..k] + [b] + bs[k + 1..] && bs[k := b'] == bs[..k] + [b'] + bs[k + 1..];
    TilesOne(r, b, b.paddr);
    TilesOne(r, b', b.paddr);
    ReplaceStretch(r, bs[..k], [b], [b'], bs[k + 1..], r.base);
  }

  lemma MergeLoopsTile(r: Region, bs: seq<Blk>, k: nat)
    requires Good(r, bs) && 0 < k < |bs| && !bs[k].idle
    ensures Tiles(r, FreeAt(bs, k), r.base) && SumSizes(FreeAt(bs, k)) == r.total
  {
    var m := bs[k := bs[k].(idle := true)];
    TilesOrdered(r, bs, r.base, 0, k);
    TilesAt(r, bs, r.base, k);
    FreeAtShape(bs, k);
    MarkTiles(r, bs, k);
    FuseTiles(r, m, k - 1);
    if k + 1 < |bs| {
      FuseTiles(r, m, k);
      FuseTiles(r, Fuse(m, k - 1), k - 1);
    }
  }

  /** How the list after a release maps to the list before: block `at` is idle and stands for the
      blocks `at .. at + cut`, all idle except the released one. */
  lemma {:induction false} FreeAtMap(bs: seq<Blk>, k: nat) returns (at: nat, cut: nat)
    requires 0 < k < |bs| && Coalesced(bs) && !bs[0].idle && !bs[k].isBo && !bs[k].idle
    ensures var f := FreeAt(bs, k);
      && 0 < at <= k <= at + cut < |bs| && |f| == |bs| - cut && f[at].idle
      && (forall i :: 0 <= i < at ==> f[i] == bs[i])
      && (forall i :: at < i < |f| ==> f[i] == bs[i + cut])
      && (forall i :: at <= i <= at + cut && i != k ==> bs[i].idle)
      && !bs[at - 1].idle && (at + cut + 1 < |bs| ==> !bs[at + cut + 1].idle)
  {
    FreeAtShape(bs, k);
    at := if bs[k - 1].idle then k - 1 else k;
    cut := |bs| - |FreeAt(bs, k)|;
    if bs[k - 1].idle {
      assert !bs[k - 2].idle;
    }
    if k + 1 < |bs| && bs[k + 1].idle && k + 2 < |bs| {
      assert !bs[k + 2].idle;
    }
  }

  lemma FreeCoalesced(bs: seq<Blk>, k: nat)
    requires 0 < k < |bs| && Coalesced(bs) && !bs[0].idle && !bs[k].isBo && !bs[k].idle
    ensures Coalesced(FreeAt(bs, k)) && FreeAt(bs, k) != [] && FreeAt(bs, k)[0] == bs[0]
  {
    var at, cut := FreeAtMap(bs, k);
    var f := FreeAt(bs, k);
    forall i | 0 <= i < |f| - 1 && f[i].idle ensures !f[i + 1].idle {
      if i + 1 < at {
        assert bs[i].idle;
      } else if i > at {
        assert bs[i + cut].idle;
      }
    }
  }

  /** Releasing a block that is idle already changes nothing. */
  lemma FreeIdle(bs: seq<Blk>, k: nat)
    requires 0 < k < |bs| && Coalesced(bs) && bs[k].idle
    ensures FreeAt(bs, k) == bs
  {
    assert bs[k := bs[k].(idle := true)] == bs;
    assert !bs[k - 1].idle;
  }

  lemma NotTheRoot(r: Region, bs: seq<Blk>, paddr: nat)
    requires Good(r, bs) && paddr != r.base && Lookup(bs, paddr) < |bs|
    ensures 0 < Lookup(bs, paddr) && !bs[Lookup(bs, paddr)].isBo
  {
    TilesAt(r, bs, r.base, Lookup(bs, paddr));
  }

  /** A release of anything but the root keeps the invariant, whatever the address. */
  lemma FreeKeepsGood(r: Region, bs: seq<Blk>, paddr: nat)
    requires Good(r, bs) && paddr != r.base
    ensures Free(bs, paddr).Some? ==> Good(r, Free(bs, paddr).value)
  {
    var k := Lookup(bs, paddr);
    if k < |bs| {
      NotTheRoot(r, bs, paddr);
      if bs[k].idle {
        FreeIdle(bs, k);
      } else {
        MergeLoopsTile(r, bs, k);
        FreeCoalesced(bs, k);
      }
    }
  }

  /** The release of the root marks it idle and swallows an idle block behind it. */
  lemma RootFreeShape(r: Region, bs: seq<Blk>)
    requires Good(r, bs)
    ensures Free(bs, r.base) == Some(
      if |bs| > 1 && bs[1].idle then [bs[0].(size := bs[0].size + bs[1].size, idle := true)] + bs[2..]
      else [bs[0].(idle := true)] + bs[1..])
  {
    var marked := bs[0 := bs[0].(idle := true)];
    assert Lookup(bs, r.base) == 0;
    assert |bs| > 2 && bs[1].idle ==> !bs[2].idle;
    ForwardOnce(marked, 0);
    assert MergeBack(marked, 0) == (marked, 0);
    assert marked == [bs[0].(idle := true)] + bs[1..];
    if |bs| > 1 && bs[1].idle {
      assert Fuse(marked, 0) == [bs[0].(size := bs[0].size + bs[1].size, idle := true)] + bs[2..];
    }
  }

  /** Exactly when: only the release of the root gives the invariant up. */
  lemma FreeKeepsGoodIff(r: Region, bs: seq<Blk>, paddr: nat)
    requires Good(r, bs) && Free(bs, paddr).Some?
    ensures Good(r, Free(bs, paddr).value) <==> paddr != r.base
  {
    if paddr == r.base {
      assert Lookup(bs, paddr) == 0;
      ForwardKeepsFirst(bs[0 := bs[0].(idle := true)]);
    } else {
      FreeKeepsGood(r, bs, paddr);
    }
  }

  lemma {:induction false} ForwardKeepsFirst(bs: seq<Blk>)
    requires bs != []
    ensures MergeForward(bs, 0) != [] && MergeForward(bs, 0)[0].idle == bs[0].idle
    decreases |bs|
  {
    if 1 < |bs| && bs[1].idle {
      ForwardKeepsFirst(Fuse(bs, 0));
    }
  }
}
