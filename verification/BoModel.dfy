/** The block list of the fast buffer allocator as a value, and what an allocation and a release
    do to it. One region; its first block is held for the whole run. */
module BoModel {

  /** size_t of the 32-bit target. */
  const SIZE_MOD: nat := 0x1_0000_0000
  const SPLIT_THRESHOLD: nat := 0x200

  /** block_t without its list node. */
  datatype Blk = Blk(size: nat, idle: bool, isBo: bool, handle: nat, paddr: nat, vaddr: int)

  /** The region a context obtains once: both base addresses, its size and its kernel handle. */
  datatype Region = Region(base: nat, vbase: int, total: nat, handle: nat) {
    function End(): nat {
      base + total
    }
  }

  datatype Option<T> = None | Some(value: T)

  /** (size + 63) & ~63 in size_t arithmetic. */
  function AlignSize(size: nat): (a: nat)
    ensures a % 64 == 0
    ensures size + 63 < SIZE_MOD ==> size <= a < size + 64
  {
    (size + 63) % SIZE_MOD / 64 * 64
  }

  /** Index of the first idle block of at least `need` bytes, or the length. */
  function FirstFit(bs: seq<Blk>, need: nat): (k: nat)
    ensures k <= |bs|
    ensures k < |bs| ==> bs[k].idle && bs[k].size >= need
    ensures forall i :: 0 <= i < k ==> !(bs[i].idle && bs[i].size >= need)
  {
    if bs == [] || (bs[0].idle && bs[0].size >= need) then 0 else 1 + FirstFit(bs[1..], need)
  }

  /** The idle block that remains of `b` behind its first `need` bytes. */
  function Rest(b: Blk, need: nat): Blk
    requires b.size >= need
  {
    Blk(b.size - need, true, false, b.handle, b.paddr + need, b.vaddr + need)
  }

  /** The block list after granting `need` bytes from block `k`. */
  function Grant(bs: seq<Blk>, k: nat, need: nat): seq<Blk>
    requires k < |bs| && bs[k].size >= need
  {
    var b := bs[k];
    if b.size - need < SPLIT_THRESHOLD then bs[k := b.(idle := false)]
    else bs[..k] + [b.(size := need, idle := false), Rest(b, need)] + bs[k + 1..]
  }

  /** iaic_fast_alloc_bo up to the overflow path: the new list and the index of the granted block. */
  function Alloc(bs: seq<Blk>, size: nat): Option<(seq<Blk>, nat)> {
    var k := FirstFit(bs, AlignSize(size));
    if k < |bs| then Some((Grant(bs, k, AlignSize(size)), k)) else None
  }

  /** Index of the first block that starts at `paddr`, or the length. */
  function Lookup(bs: seq<Blk>, paddr: nat): (k: nat)
    ensures k <= |bs|
    ensures k < |bs| ==> bs[k].paddr == paddr
    ensures forall i :: 0 <= i < k ==> bs[i].paddr != paddr
  {
    if bs == [] || bs[0].paddr == paddr then 0 else 1 + Lookup(bs[1..], paddr)
  }

  /** Block `k` swallows block `k + 1`. */
  function Fuse(bs: seq<Blk>, k: nat): (r: seq<Blk>)
    requires k + 1 < |bs|
    ensures |r| == |bs| - 1
  {
    bs[..k] + [bs[k].(size := bs[k].size + bs[k + 1].size)] + bs[k + 2..]
  }

  /** The first merge loop of iaic_fast_free_bo: while the previous block is idle, fuse into it. */
  function MergeBack(bs: seq<Blk>, k: nat): (seq<Blk>, nat)
    requires k < |bs|
    decreases k
  {
    if k > 0 && bs[k - 1].idle && !bs[k].isBo then MergeBack(Fuse(bs, k - 1), k - 1) else (bs, k)
  }

  /** The second merge loop: while the next block is idle, swallow it. */
  function MergeForward(bs: seq<Blk>, k: nat): seq<Blk>
    requires k < |bs|
    decreases |bs|
  {
    if k + 1 < |bs| && bs[k + 1].idle then MergeForward(Fuse(bs, k), k) else bs
  }

  lemma {:induction false} MergeBackIndex(bs: seq<Blk>, k: nat)
    requires k < |bs|
    ensures MergeBack(bs, k).1 < |MergeBack(bs, k).0|
    decreases k
  {
    if k > 0 && bs[k - 1].idle && !bs[k].isBo {
      MergeBackIndex(Fuse(bs, k - 1), k - 1);
    }
  }

  /** Release of the block at index `k`. */
  function FreeAt(bs: seq<Blk>, k: nat): seq<Blk>
    requires k < |bs|
  {
    var marked := bs[k := bs[k].(idle := true)];
    MergeBackIndex(marked, k);
    MergeForward(MergeBack(marked, k).0, MergeBack(marked, k).1)
  }

  /** Whether the merged block is the kernel's: then the region is handed back. */
  predicate HandsRegionBack(bs: seq<Blk>, k: nat)
    requires k < |bs|
  {
    var marked := bs[k := bs[k].(idle := true)];
    MergeBackIndex(marked, k);
    MergeBack(marked, k).0[MergeBack(marked, k).1].isBo
  }

  /** iaic_fast_free_bo on the list: nothing happens when no block starts at `paddr`. */
  function Free(bs: seq<Blk>, paddr: nat): Option<seq<Blk>> {
    var k := Lookup(bs, paddr);
    if k < |bs| then Some(FreeAt(bs, k)) else None
  }

  // ---------------------------------------------------------------- the invariant

  function SumSizes(bs: seq<Blk>): nat {
    if bs == [] then 0 else bs[0].size + SumSizes(bs[1..])
  }

  /** A well-formed block of the region that starts at `p`: never empty, 64-byte aligned from the
      region base, both addresses in step, and marked as the kernel's block only at the base. */
  predicate BlockOk(r: Region, b: Blk, p: nat) {
    && b.paddr == p && b.size > 0 && b.handle == r.handle
    && b.vaddr - r.vbase == p - r.base && (p - r.base) % 64 == 0
    && (b.isBo <==> p == r.base)
  }

  /** `bs` covers the addresses from `p` on, block behind block. */
  ghost predicate Tiles(r: Region, bs: seq<Blk>, p: nat) {
    bs == [] || (BlockOk(r, bs[0], p) && Tiles(r, bs[1..], p + bs[0].size))
  }

  /** No two neighbouring blocks are idle. */
  ghost predicate Coalesced(bs: seq<Blk>) {
    forall i {:trigger bs[i].idle} :: 0 <= i < |bs| - 1 && bs[i].idle ==> !bs[i + 1].idle
  }

  /** The invariant of every run. */
  ghost predicate Good(r: Region, bs: seq<Blk>) {
    bs != [] && Tiles(r, bs, r.base) && SumSizes(bs) == r.total && Coalesced(bs) && !bs[0].idle
  }

  /** The live buffers: start address and size of every block in use. */
  ghost function Live(bs: seq<Blk>): set<(nat, nat)> {
    set i | 0 <= i < |bs| && !bs[i].idle :: (bs[i].paddr, bs[i].size)
  }
}
