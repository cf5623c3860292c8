/** The layout is canonical: it is determined by the live buffers alone. From that follow the
    round trips, the run theorems, and the meaning of first fit in terms of free bytes. */
module BoCanonical {
  import opened BoModel
  import opened BoLayout

  // ---------------------------------------------------------------- live buffers

  lemma LiveIff(bs: seq<Blk>, a: nat, s: nat)
    ensures (a, s) in Live(bs) <==> exists i :: 0 <= i < |bs| && !bs[i].idle && bs[i].paddr == a && bs[i].size == s
  {
    if i :| 0 <= i < |bs| && !bs[i].idle && bs[i].paddr == a && bs[i].size == s {
      assert (bs[i].paddr, bs[i].size) == (a, s);
    }
  }

  lemma LiveTail(r: Region, bs: seq<Blk>, p: nat)
    requires Tiles(r, bs, p) && bs != []
    ensures forall x :: x in Live(bs[1..]) ==> x.0 >= p + bs[0].size
    ensures Live(bs) == Live(bs[1..]) + (if bs[0].idle then {} else {(p, bs[0].size)})
  {
    var t := bs[1..];
    forall x | x in Live(t) ensures x.0 >= p + bs[0].size {
      var i :| 0 <= i < |t| && !t[i].idle && (t[i].paddr, t[i].size) == x;
      assert t[i] == bs[i + 1];
      TilesOrdered(r, bs, p, 0, i + 1);
    }
    forall x ensures x in Live(bs) <==> x in Live(t) + (if bs[0].idle then {} else {(p, bs[0].size)}) {
      if x in Live(bs) {
        var i :| 0 <= i < |bs| && !bs[i].idle && (bs[i].paddr, bs[i].size) == x;
        if i > 0 {
          assert t[i - 1] == bs[i];
        }
      }
      if x in Live(t) {
        var i :| 0 <= i < |t| && !t[i].idle && (t[i].paddr, t[i].size) == x;
        assert bs[i + 1] == t[i];
      }
    }
  }

  lemma CoalescedTail(bs: seq<Blk>)
    requires Coalesced(bs) && bs != []
    ensures Coalesced(bs[1..])
  {
    var t := bs[1..];
    forall i | 0 <= i < |t| - 1 && t[i].idle ensures !t[i + 1].idle {
      assert bs[i + 1].idle;
    }
  }

  /** If two canonical layouts with the same live buffers both start with an idle block, the first
      idle block of the one cannot be shorter than that of the other. */
  lemma IdleHeads(r: Region, a: seq<Blk>, b: seq<Blk>, p: nat)
    requires Tiles(r, a, p) && Tiles(r, b, p) && SumSizes(a) == SumSizes(b)
    requires Coalesced(a) && Coalesced(b) && Live(a) == Live(b)
    requires a != [] && b != [] && a[0].idle && b[0].idle
    ensures a[0].size >= b[0].size
  {
    TilesAt(r, b, p, 0);
    if |a| == 1 {
      assert a[1..] == [];
    } else {
      assert !a[1].idle;
      TilesAt(r, a, p, 0);
      assert (a[1].paddr, a[1].size) in Live(a);
      LiveTail(r, b, p);
    }
  }

  /** Main result: a canonical layout is determined by its live buffers. */
  lemma {:induction false} CanonicalUnique(r: Region, a: seq<Blk>, b: seq<Blk>, p: nat)
    requires Tiles(r, a, p) && Tiles(r, b, p) && SumSizes(a) == SumSizes(b)
    requires Coalesced(a) && Coalesced(b) && Live(a) == Live(b)
    ensures a == b
    decreases |a|
  {
    if a == [] || b == [] {
      assert a == [] && b == [];
    } else {
      LiveTail(r, a, p);
      LiveTail(r, b, p);
      CoalescedTail(a);
      CoalescedTail(b);
      if a[0].idle && b[0].idle {
        IdleHeads(r, a, b, p);
        IdleHeads(r, b, a, p);
        assert Live(a[1..]) == Live(b[1..]);
      } else {
        SameLiveHead(r, a, b, p);
      }
      assert a[0] == b[0];
      CanonicalUnique(r, a[1..], b[1..], p + a[0].size);
      assert a == [a[0]] + a[1..] && b == [b[0]] + b[1..];
    }
  }

  lemma SameLiveHead(r: Region, a: seq<Blk>, b: seq<Blk>, p: nat)
    requires Tiles(r, a, p) && Tiles(r, b, p) && a != [] && b != [] && Live(a) == Live(b)
    requires !a[0].idle || !b[0].idle
    ensures a[0] == b[0] && Live(a[1..]) == Live(b[1..])
  {
    LiveTail(r, a, p);
    LiveTail(r, b, p);
    assert !a[0].idle ==> (p, a[0].size) in Live(b) && (p, a[0].size) !in Live(b[1..]);
    assert !b[0].idle ==> (p, b[0].size) in Live(a) && (p, b[0].size) !in Live(a[1..]);
    var x := (p, a[0].size);
    assert x !in Live(a[1..]) && x !in Live(b[1..]);
    assert Live(a[1..]) == Live(a) - {x} == Live(b[1..]);
  }

  lemma GoodUnique(r: Region, a: seq<Blk>, b: seq<Blk>)
    requires Good(r, a) && Good(r, b) && Live(a) == Live(b)
    ensures a == b
  {
    CanonicalUnique(r, a, b, r.base);
  }

  // ---------------------------------------------------------------- the effect on the live buffers

  /** An allocation adds exactly the granted buffer, at an address where none was live. */
  lemma AllocLive(r: Region, bs: seq<Blk>, size: nat)
    requires Good(r, bs) && AlignSize(size) > 0 && Alloc(bs, size).Some?
    ensures var (bs', k) := Alloc(bs, size).value;
      && k < |bs'| && !bs'[k].idle && bs'[k].paddr == bs[k].paddr
      && Live(bs') == Live(bs) + {(bs'[k].paddr, bs'[k].size)}
      && forall x :: x in Live(bs) ==> x.0 != bs'[k].paddr
  {
    var (bs', k) := Alloc(bs, size).value;
    var need := AlignSize(size);
    var whole := bs[k].size - need < SPLIT_THRESHOLD;
    forall x | x in Live(bs) ensures x.0 != bs'[k].paddr {
      var i :| 0 <= i < |bs| && !bs[i].idle && (bs[i].paddr, bs[i].size) == x;
      BlocksTileTheRegion(r, bs);
    }
    forall x ensures x in Live(bs') <==> x in Live(bs) + {(bs'[k].paddr, bs'[k].size)} {
      if x in Live(bs) {
        var i :| 0 <= i < |bs| && !bs[i].idle && (bs[i].paddr, bs[i].size) == x;
        var j := if whole || i < k then i else i + 1;
        assert bs'[j] == bs[i];
      }
      if x in Live(bs') {
        var j :| 0 <= j < |bs'| && !bs'[j].idle && (bs'[j].paddr, bs'[j].size) == x;
        if j != k {
          var i := if whole || j < k then j else j - 1;
          assert bs'[j] == bs[i];
        }
      }
    }
  }

  lemma FreeAtLive(bs: seq<Blk>, k: nat)
    requires 0 < k < |bs| && Coalesced(bs) && !bs[0].idle && !bs[k].isBo && !bs[k].idle
    requires forall i :: 0 <= i < |bs| && i != k ==> bs[i].paddr != bs[k].paddr
    ensures Live(FreeAt(bs, k)) == Live(bs) - {(bs[k].paddr, bs[k].size)}
  {
    var at, cut := FreeAtMap(bs, k);
    var f := FreeAt(bs, k);
    forall x | x in Live(f) ensures x in Live(bs) && x != (bs[k].paddr, bs[k].size) {
      var i :| 0 <= i < |f| && !f[i].idle && (f[i].paddr, f[i].size) == x;
      assert f[i] == bs[if i < at then i else i + cut];
    }
    forall x | x in Live(bs) && x != (bs[k].paddr, bs[k].size) ensures x in Live(f) {
      var i :| 0 <= i < |bs| && !bs[i].idle && (bs[i].paddr, bs[i].size) == x;
      assert i < at || i > at + cut;
      assert f[if i < at then i else i - cut] == bs[i];
    }
  }

  /** A release of a live buffer removes exactly that buffer. */
  lemma FreeLive(r: Region, bs: seq<Blk>, k: nat)
    requires Good(r, bs) && 0 < k < |bs| && !bs[k].idle
    ensures Free(bs, bs[k].paddr) == Some(FreeAt(bs, k))
    ensures Good(r, FreeAt(bs, k)) && Live(FreeAt(bs, k)) == Live(bs) - {(bs[k].paddr, bs[k].size)}
  {
    TilesOrdered(r, bs, r.base, 0, k);
    TilesAt(r, bs, r.base, k);
    TilesAt(r, bs, r.base, 0);
    LookupAt(r, bs, k);
    FreeKeepsGood(r, bs, bs[k].paddr);
    forall i | 0 <= i < |bs| && i != k ensures bs[i].paddr != bs[k].paddr {
      TilesAt(r, bs, r.base, i);
      if i < k {
        TilesOrdered(r, bs, r.base, i, k);
      } else {
        TilesOrdered(r, bs, r.base, k, i);
      }
    }
    FreeAtLive(bs, k);
  }

  lemma LookupAt(r: Region, bs: seq<Blk>, k: nat)
    requires Good(r, bs) && k < |bs|
    ensures Lookup(bs, bs[k].paddr) == k
  {
    var j := Lookup(bs, bs[k].paddr);
    if j < k {
      TilesOrdered(r, bs, r.base, j, k);
      TilesAt(r, bs, r.base, j);
    }
  }

  /** Main result: allocating a buffer and releasing it again restores the block list exactly. */
  lemma AllocFreeRoundTrip(r: Region, bs: seq<Blk>, size: nat)
    requires Good(r, bs) && AlignSize(size) > 0 && Alloc(bs, size).Some?
    ensures var (bs', k) := Alloc(bs, size).value;
      k < |bs'| && Free(bs', bs'[k].paddr) == Some(bs)
  {
    var (bs', k) := Alloc(bs, size).value;
    AllocKeepsGood(r, bs, size);
    AllocLive(r, bs, size);
    FreeLive(r, bs', k);
    var x := (bs'[k].paddr, bs'[k].size);
    assert x !in Live(bs);
    assert (Live(bs) + {x}) - {x} == Live(bs);
    GoodUnique(r, FreeAt(bs', k), bs);
  }

  // ---------------------------------------------------------------- whole runs

  datatype Op = DoAlloc(size: nat) | DoFree(paddr: nat)

  /** What a caller may ask: a size that does not round to zero, and never the release of the root. */
  predicate Allowed(r: Region, op: Op) {
    match op
    case DoAlloc(size) => AlignSize(size) > 0
    case DoFree(paddr) => paddr != r.base
  }

  function Step(bs: seq<Blk>, op: Op): seq<Blk> {
    match op
    case DoAlloc(size) => var a := Alloc(bs, size); if a.Some? then a.value.0 else bs
    case DoFree(paddr) => var f := Free(bs, paddr); if f.Some? then f.value else bs
  }

  function Run(bs: seq<Blk>, ops: seq<Op>): seq<Blk>
    decreases |ops|
  {
    if ops == [] then bs else Run(Step(bs, ops[0]), ops[1..])
  }

  /** create_bo_node followed by the allocation of the 16-byte shared buffer. */
  function Init(r: Region): seq<Blk> {
    Step([Blk(r.total, true, true, r.handle, r.base, r.vbase)], DoAlloc(0x10))
  }

  lemma InitGood(r: Region)
    requires r.total >= 64
    ensures Good(r, Init(r))
    ensures Live(Init(r)) == {(r.base, if r.total - 64 < SPLIT_THRESHOLD then r.total else 64)}
  {
    var b := Blk(r.total, true, true, r.handle, r.base, r.vbase);
    assert AlignSize(0x10) == 64;
    assert FirstFit([b], 64) == 0;
    var i := Init(r);
    var root := if r.total - 64 < SPLIT_THRESHOLD then r.total else 64;
    assert i == Grant([b], 0, 64);
    if r.total - 64 < SPLIT_THRESHOLD {
      assert i == [b.(idle := false)];
      TilesOne(r, i[0], r.base);
    } else {
      assert i == [b.(size := 64, idle := false), Blk(r.total - 64, true, false, r.handle, r.base + 64, r.vbase + 64)];
      TilesTwo(r, i[0], i[1], r.base);
    }
    forall x ensures x in Live(i) <==> x == (r.base, root) {
      LiveIff(i, x.0, x.1);
      assert !i[0].idle && i[0].paddr == r.base && i[0].size == root;
    }
  }

  /** The failing requests are met at once: in any region with room to split, the first empty or wrapping
      request after initialisation breaks the tiling. */
  lemma FirstEmptyRequestBreaks(r: Region, size: nat)
    requires r.total >= 64 + SPLIT_THRESHOLD && (size == 0 || SIZE_MOD - 64 < size < SIZE_MOD)
    ensures Good(r, Init(r)) && Alloc(Init(r), size).Some? && !Good(r, Alloc(Init(r), size).value.0)
  {
    InitGood(r);
    AllocKeepsGoodIff(r, Init(r), size);
    var b := Blk(r.total, true, true, r.handle, r.base, r.vbase);
    assert AlignSize(0x10) == 64 && FirstFit([b], 64) == 0;
    var i := Init(r);
    assert i == [b.(size := 64, idle := false), Rest(b, 64)];
    assert i[1..] == [Rest(b, 64)];
    assert FirstFit(i, 0) == 1;
  }

  lemma {:induction false} RunKeepsGood(r: Region, bs: seq<Blk>, ops: seq<Op>)
    requires Good(r, bs) && forall i :: 0 <= i < |ops| ==> Allowed(r, ops[i])
    ensures Good(r, Run(bs, ops))
    decreases |ops|
  {
    if ops != [] {
      match ops[0] {
        case DoAlloc(size) => AllocKeepsGood(r, bs, size);
        case DoFree(paddr) => FreeKeepsGood(r, bs, paddr);
      }
      RunKeepsGood(r, Step(bs, ops[0]), ops[1..]);
    }
  }

  /** Main result on runs: two runs that end with the same live buffers end with the same block list,
      whatever allocations and releases led there and in whatever order. */
  lemma LayoutDependsOnLiveOnly(r: Region, ops: seq<Op>, ops': seq<Op>)
    requires r.total >= 64
    requires forall i :: 0 <= i < |ops| ==> Allowed(r, ops[i])
    requires forall i :: 0 <= i < |ops'| ==> Allowed(r, ops'[i])
    requires Live(Run(Init(r), ops)) == Live(Run(Init(r), ops'))
    ensures Run(Init(r), ops) == Run(Init(r), ops')
  {
    InitGood(r);
    RunKeepsGood(r, Init(r), ops);
    RunKeepsGood(r, Init(r), ops');
    GoodUnique(r, Run(Init(r), ops), Run(Init(r), ops'));
  }

  function FreeOps(paddrs: seq<nat>): seq<Op> {
    seq(|paddrs|, i requires 0 <= i < |paddrs| => DoFree(paddrs[i]))
  }

  lemma FreeStepLive(r: Region, bs: seq<Blk>, paddr: nat)
    requires Good(r, bs) && paddr != r.base
    ensures Good(r, Step(bs, DoFree(paddr)))
    ensures forall x :: x in Live(Step(bs, DoFree(paddr))) <==> x in Live(bs) && x.0 != paddr
  {
    FreeKeepsGood(r, bs, paddr);
    var k := Lookup(bs, paddr);
    forall x | x in Live(bs) && x.0 == paddr ensures k < |bs| && x == (bs[k].paddr, bs[k].size) && !bs[k].idle {
      var i :| 0 <= i < |bs| && !bs[i].idle && (bs[i].paddr, bs[i].size) == x;
      LookupAt(r, bs, i);
    }
    if k < |bs| {
      NotTheRoot(r, bs, paddr);
      if bs[k].idle {
        FreeIdle(bs, k);
      } else {
        FreeLive(r, bs, k);
      }
    }
  }

  lemma {:induction false} FreeAllLive(r: Region, bs: seq<Blk>, paddrs: seq<nat>)
    requires Good(r, bs) && r.base !in paddrs
    ensures Good(r, Run(bs, FreeOps(paddrs)))
    ensures forall x :: x in Live(Run(bs, FreeOps(paddrs))) <==> x in Live(bs) && x.0 !in paddrs
    decreases |paddrs|
  {
    if paddrs != [] {
      FreeStepLive(r, bs, paddrs[0]);
      assert FreeOps(paddrs)[1..] == FreeOps(paddrs[1..]);
      FreeAllLive(r, Step(bs, DoFree(paddrs[0])), paddrs[1..]);
      assert forall p :: p in paddrs <==> p == paddrs[0] || p in paddrs[1..];
    }
  }

  /** Main result on draining: after any run, releasing every live buffer but the root, in any order,
      brings the list back to its state just after initialisation. */
  lemma DrainRestoresInit(r: Region, ops: seq<Op>, paddrs: seq<nat>)
    requires r.total >= 64 && r.base !in paddrs
    requires forall i :: 0 <= i < |ops| ==> Allowed(r, ops[i])
    requires forall x :: x in Live(Run(Init(r), ops)) && x.0 != r.base ==> x.0 in paddrs
    ensures Run(Run(Init(r), ops), FreeOps(paddrs)) == Init(r)
  {
    InitGood(r);
    var bs := Run(Init(r), ops);
    RunKeepsGood(r, Init(r), ops);
    RootStays(r, Init(r), ops);
    FreeAllLive(r, bs, paddrs);
    var f := Run(bs, FreeOps(paddrs));
    forall x ensures x in Live(f) <==> x in Live(Init(r)) {
      RootIsLive(r, bs, x);
      RootIsLive(r, Init(r), x);
    }
    GoodUnique(r, f, Init(r));
  }

  /** The only buffer at the region base is the root. */
  lemma RootIsLive(r: Region, bs: seq<Blk>, x: (nat, nat))
    requires Good(r, bs)
    ensures x in Live(bs) && x.0 == r.base <==> x == (r.base, bs[0].size)
  {
    LiveTail(r, bs, r.base);
  }

  lemma {:induction false} RootStays(r: Region, bs: seq<Blk>, ops: seq<Op>)
    requires Good(r, bs) && forall i :: 0 <= i < |ops| ==> Allowed(r, ops[i])
    ensures Run(bs, ops) != [] && Run(bs, ops)[0] == bs[0]
    decreases |ops|
  {
    if ops != [] {
      RunKeepsGood(r, bs, ops[..1]);
      match ops[0] {
        case DoAlloc(size) => AllocKeepsGood(r, bs, size);
        case DoFree(paddr) =>
          FreeKeepsGood(r, bs, paddr);
          var k := Lookup(bs, paddr);
          if k < |bs| {
            NotTheRoot(r, bs, paddr);
            if bs[k].idle {
              FreeIdle(bs, k);
            } else {
              FreeCoalesced(bs, k);
            }
          }
      }
      RootStays(r, Step(bs, ops[0]), ops[1..]);
    }
  }
}
