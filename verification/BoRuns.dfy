/** Whole runs of the allocator in place: the theorems of `BoCanonical` are about what these compute. */
module BoRuns {
  import opened BoModel
  import opened BoLayout
  import opened BoCanonical
  import opened BoAllocator

  /** Every request is served up to the first allocation that finds no block. */
  function Served(bs: seq<Blk>, ops: seq<Op>): (n: nat)
    ensures n <= |ops|
    decreases |ops|
  {
    if ops == [] || (ops[0].DoAlloc? && Alloc(bs, ops[0].size).None?) then 0
    else 1 + Served(Step(bs, ops[0]), ops[1..])
  }

  /** The count is that of the requests in front of the first allocation for which there is no block. */
  lemma {:induction false} ServedMeans(bs: seq<Blk>, ops: seq<Op>)
    ensures var n := Served(bs, ops);
      && (n < |ops| ==> ops[n].DoAlloc? && Alloc(Run(bs, ops[..n]), ops[n].size).None?)
      && (forall i :: 0 <= i < n && ops[i].DoAlloc? ==> Alloc(Run(bs, ops[..i]), ops[i].size).Some?)
    decreases |ops|
  {
    if ops != [] && !(ops[0].DoAlloc? && Alloc(bs, ops[0].size).None?) {
      var bs1, rest, n := Step(bs, ops[0]), ops[1..], Served(bs, ops);
      ServedMeans(bs1, rest);
      assert ops[..n][1..] == rest[..n - 1];
      forall i | 0 <= i < n && ops[i].DoAlloc? ensures Alloc(Run(bs, ops[..i]), ops[i].size).Some? {
        if i > 0 {
          assert ops[..i][1..] == rest[..i - 1];
          assert rest[i - 1] == ops[i];
        }
      }
    }
  }

  ghost predicate AllAllowed(r: Region, ops: seq<Op>) {
    forall i :: 0 <= i < |ops| ==> Allowed(r, ops[i])
  }

  /** The nodes of a list are old ones or have been allocated since. */
  twostate predicate Framed(ctx: Context)
    reads ctx
  {
    forall k {:trigger ctx.nodes[k]} :: 0 <= k < |ctx.nodes| ==> ctx.nodes[k] in old(ctx.nodes) || fresh(ctx.nodes[k])
  }

  /** The start of a context: one region, and the shared buffer taken from it. It succeeds exactly if
      the kernel gives the region and the buffer fits. */
  method Open(r: Region, offer: Region) returns (ctx: Context, code: Code, shared: Option<Bo>)
    ensures fresh(ctx) && fresh(ctx.list) && fresh(ctx.nodes) && ctx.Valid() && !ctx.dangling
    ensures code == OK <==> r.handle != 0 && r.total >= 64
    ensures code == OK ==> ctx.blocks == Init(r) && Good(r, ctx.blocks) && !ctx.locked
    ensures code == OK ==> ctx.blocks != []
    ensures code == OK ==> shared == Some(Bo(16, ctx.blocks[0].size, r.handle, r.base, r.vbase, r.vbase))
  {
    shared := None;
    ctx := new Context();
    code := OK;
    if r.total > 1 {
      code := ctx.CreateBoNode(r.total, r.handle, r.base, r.vbase);
    }
    if code == OK {
      RootFits(r);
      code, shared := ctx.FastAlloc(0x10, offer);
    }
  }

  lemma RootFits(r: Region)
    ensures var b := [] + [Blk(r.total, true, true, r.handle, r.base, r.vbase)];
      && (Alloc(b, 0x10).Some? <==> r.total >= 64)
      && (r.total >= 64 ==> Alloc(b, 0x10).value == (Init(r), 0) && Good(r, Init(r)))
  {
    var b := [Blk(r.total, true, true, r.handle, r.base, r.vbase)];
    assert [] + b == b;
    assert AlignSize(0x10) == 64;
    if r.total >= 64 {
      assert FirstFit(b, 64) == 0;
      InitGood(r);
    }
  }

  /** One request on a free lock. */
  method Perform(ctx: Context, op: Op, handle: nat, offer: Region, ghost r: Region)
    requires ctx.Valid() && !ctx.locked && handle > 0
    modifies ctx, ctx.list, ctx.nodes
    ensures ctx.Valid() && Framed(ctx) && ctx.blocks == Step(old(ctx.blocks), op)
    ensures ctx.locked <==> op.DoAlloc? && Alloc(old(ctx.blocks), op.size).None?
    ensures Good(r, old(ctx.blocks)) && Allowed(r, op) ==> Good(r, ctx.blocks) && ctx.dangling == old(ctx.dangling)
  {
    StepKeepsGood(r, ctx.blocks, op);
    match op
    case DoAlloc(size) =>
      var code, bo := ctx.FastAlloc(size, offer);
    case DoFree(paddr) =>
      var code := ctx.FastFree(handle, paddr, true);
  }

  lemma StepKeepsGood(r: Region, bs: seq<Blk>, op: Op)
    ensures Good(r, bs) && Allowed(r, op) ==> Good(r, Step(bs, op))
    ensures Good(r, bs) && Allowed(r, op) && op.DoFree? && Free(bs, op.paddr).Some? ==>
      !HandsRegionBack(bs, Lookup(bs, op.paddr))
  {
    if Good(r, bs) && Allowed(r, op) {
      match op
      case DoAlloc(size) =>
        AllocKeepsGood(r, bs, size);
      case DoFree(paddr) =>
        FreeKeepsGood(r, bs, paddr);
        if Free(bs, paddr).Some? {
          RegionBackIff(r, bs, paddr);
        }
    }
  }

  /** Any sequence of requests. They are carried out up to the first allocation that finds no block, and
      the lock stays taken exactly if there is one. If the requests are allowed, no freed node is ever
      on the list. */
  method PerformAll(ctx: Context, ops: seq<Op>, handle: nat, offer: Region, ghost r: Region) returns (n: nat)
    requires ctx.Valid() && !ctx.locked && handle > 0
    modifies ctx, ctx.list, ctx.nodes
    ensures ctx.Valid() && Framed(ctx) && n == Served(old(ctx.blocks), ops)
    ensures ctx.blocks == Run(old(ctx.blocks), ops[..n]) && (ctx.locked <==> n < |ops|)
    ensures Good(r, old(ctx.blocks)) && AllAllowed(r, ops) ==> Good(r, ctx.blocks) && ctx.dangling == old(ctx.dangling)
  {
    n := 0;
    assert ops[0..] == ops;
    while n < |ops|
      invariant 0 <= n <= |ops| && ctx.Valid() && Framed(ctx) && !ctx.locked
      invariant Served(old(ctx.blocks), ops) == n + Served(ctx.blocks, ops[n..])
      invariant ctx.blocks == Run(old(ctx.blocks), ops[..n])
      invariant Good(r, old(ctx.blocks)) && AllAllowed(r, ops) ==>
        Good(r, ctx.blocks) && ctx.dangling == old(ctx.dangling)
    {
      ServedUnfold(old(ctx.blocks), ctx.blocks, ops, n);
      Perform(ctx, ops[n], handle, offer, r);
      if ctx.locked {
        return;
      }
      n := n + 1;
    }
    assert ops[..n] == ops;
  }

  /** The request at `n`, seen from the run up to it. */
  lemma ServedUnfold(start: seq<Blk>, bs: seq<Blk>, ops: seq<Op>, n: nat)
    requires n < |ops| && bs == Run(start, ops[..n])
    ensures Step(bs, ops[n]) == Run(start, ops[..n + 1])
    ensures Served(bs, ops[n..]) == if ops[n].DoAlloc? && Alloc(bs, ops[n].size).None? then 0
                                    else 1 + Served(Step(bs, ops[n]), ops[n + 1..])
  {
    assert ops[n..][1..] == ops[n + 1..];
    RunAppend(start, ops[..n], ops[n]);
    assert ops[..n] + [ops[n]] == ops[..n + 1];
  }

  lemma {:induction false} RunAppend(bs: seq<Blk>, ops: seq<Op>, op: Op)
    ensures Run(bs, ops + [op]) == Step(Run(bs, ops), op)
    decreases |ops|
  {
    if ops == [] {
      assert ops + [op] == [op];
      assert [op][1..] == [];
    } else {
      assert (ops + [op])[1..] == ops[1..] + [op];
      RunAppend(Step(bs, ops[0]), ops[1..], op);
    }
  }
}
