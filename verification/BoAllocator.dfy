/** The allocator in place: a context whose ring of blocks is walked, split and merged. */
module BoAllocator {
  import opened Sequences
  import opened BoModel
  import opened BoLayout
  import opened IaicList

  /** iaic_bo_t as an allocation fills it. */
  datatype Bo = Bo(size: nat, esize: nat, handle: nat, paddr: nat, vaddr: int, evaddr: int)

  /** Blocked: the call waits for a lock that nobody will release. */
  datatype Code = OK | NotFound | CreateFail | DestroyFail | Blocked

  /** Block `k` cut down to `need` bytes, its rest behind it. */
  function SplitAt(bs: seq<Blk>, k: nat, need: nat): seq<Blk>
    requires k < |bs| && bs[k].size >= need
  {
    bs[..k] + [bs[k].(size := need), Rest(bs[k], need)] + bs[k + 1..]
  }

  lemma ShrinkThenInsert(bs: seq<Blk>, cut: seq<Blk>, k: nat, need: nat)
    requires k < |bs| && bs[k].size >= need && cut == bs[k := bs[k].(size := need)]
    ensures cut[..k + 1] + [Rest(bs[k], need)] + cut[k + 1..] == SplitAt(bs, k, need)
  {
  }

  class Context {
    const list: Node
    var locked: bool          // mutex_lock, which is not recursive
    ghost var nodes: seq<Node>
    ghost var blocks: seq<Blk>
    ghost var dangling: bool  // the list holds a node that has been freed

    /** The ring behind the sentinel holds one node per block, with that block's fields. */
    ghost predicate Valid()
      reads this, list, nodes
    {
      && Ring([list] + nodes)
      && |nodes| == |blocks|
      && forall i {:trigger nodes[i]} :: 0 <= i < |nodes| ==> nodes[i].Val() == blocks[i]
    }

    /** The node at position `k`, or the sentinel behind the last one. */
    ghost function NodeAt(k: nat): Node
      reads this
    {
      if k < |nodes| then nodes[k] else list
    }

    lemma RingNeighbours(k: nat)
      requires Valid() && k < |nodes|
      ensures nodes[k] != list
      ensures nodes[k].next == NodeAt(k + 1)
      ensures nodes[k].prev == (if k > 0 then nodes[k - 1] else list)
    {
      var c := [list] + nodes;
      assert c[k + 1] == nodes[k] && c[0] == list && c[0] != c[k + 1];
      assert c[k + 1].next == NextOf(c, k + 1) && c[k + 1].prev == PrevOf(c, k + 1);
    }

    lemma SentinelNext()
      requires Valid()
      ensures list.next == NodeAt(0)
    {
      var c := [list] + nodes;
      assert c[0].next == NextOf(c, 0);
    }

    constructor ()
      ensures Valid() && blocks == [] && !locked && !dangling && fresh(list)
    {
      var l := new Node();
      list := l;
      nodes, blocks, locked, dangling := [], [], false, false;
      new;
      Init(list);
      assert [list] + nodes == [list];
    }

    /** create_bo_node: a region obtained from the kernel joins the list as one idle block. A null
        handle is the kernel's refusal; a caller that holds the lock already blocks itself. */
    method CreateBoNode(size: nat, handle: nat, paddr: nat, vaddr: int) returns (code: Code)
      requires Valid()
      modifies `nodes, `blocks, list, nodes
      ensures Valid() && fresh(set n | n in nodes && n !in old(nodes))
      ensures code == if handle == 0 then CreateFail else if locked then Blocked else OK
      ensures blocks == if code == OK then old(blocks) + [Blk(size, true, true, handle, paddr, vaddr)] else old(blocks)
    {
      if handle == 0 {
        return CreateFail;
      }
      if locked {
        return Blocked;
      }
      var node := new Node.Block(Blk(size, true, true, handle, paddr, vaddr));
      AddTail(node, list, [list] + nodes);
      assert [list] + nodes + [node] == [list] + (nodes + [node]);
      nodes := nodes + [node];
      blocks := blocks + [Blk(size, true, true, handle, paddr, vaddr)];
      code := OK;
    }

    /** The search loop of iaic_fast_alloc_bo. */
    method FindFit(need: nat) returns (curr: Node, ghost k: nat)
      requires Valid()
      ensures k == FirstFit(blocks, need) && curr == NodeAt(FirstFit(blocks, need))
    {
      SentinelNext();
      curr := list.next;
      k := 0;
      assert blocks[0..] == blocks;
      while curr != list
        invariant 0 <= k <= |nodes| && curr == NodeAt(k)
        invariant FirstFit(blocks, need) == k + FirstFit(blocks[k..], need)
        decreases |nodes| - k
      {
        RingNeighbours(k);
        assert curr.Val() == blocks[k];
        if curr.idle && curr.size >= need {
          break;
        }
        assert blocks[k..][1..] == blocks[k + 1..];
        curr := curr.next;
        k := k + 1;
      }
      if k < |nodes| {
        RingNeighbours(k);
      }
    }

    lemma DistinctNodes()
      requires Valid()
      ensures NoDup(nodes)
    {
      var c := [list] + nodes;
      forall i, j | 0 <= i < j < |nodes| ensures nodes[i] != nodes[j] {
        assert c[i + 1] == nodes[i] && c[j + 1] == nodes[j];
      }
    }

    /** Change the size of block `k`. */
    method SetSize(curr: Node, size: nat, ghost k: nat)
      requires Valid() && k < |nodes| && curr == nodes[k]
      modifies curr`size, this`blocks
      ensures Valid() && blocks == old(blocks)[k := old(blocks)[k].(size := size)]
    {
      DistinctNodes();
      curr.size := size;
      blocks := blocks[k := blocks[k].(size := size)];
    }

    static lemma BehindSentinel(list: Node, nodes: seq<Node>, node: Node, k: nat)
      requires k <= |nodes|
      ensures ([list] + nodes)[..k + 1] + [node] + ([list] + nodes)[k + 1..]
        == [list] + (nodes[..k] + [node] + nodes[k..])
    {
    }

    /** Link a new block behind block `k`. */
    method InsertBehind(node: Node, curr: Node, ghost k: nat, ghost b: Blk)
      requires node.Val() == b
      requires Valid() && k < |nodes| && curr == nodes[k] && node != list && node !in nodes
      modifies `nodes, `blocks, node`prev, node`next, list`prev, list`next, nodes`prev, nodes`next
      ensures Valid() && nodes == old(nodes)[..k + 1] + [node] + old(nodes)[k + 1..]
      ensures |old(nodes)| == |old(blocks)|
      ensures blocks == old(blocks)[..k + 1] + [b] + old(blocks)[k + 1..]
    {
      ghost var c := [list] + nodes;
      assert c[k + 1] == curr;
      Add(node, curr, c, k + 1);
      BehindSentinel(list, nodes, node, k + 1);
      nodes := nodes[..k + 1] + [node] + nodes[k + 1..];
      blocks := blocks[..k + 1] + [b] + blocks[k + 1..];
    }

    /** The split of block `k`: a new idle node behind it takes what is left over. */
    method Split(curr: Node, need: nat, ghost k: nat)
      requires Valid() && k < |nodes| && curr == nodes[k] && curr.size >= need
      modifies `nodes, `blocks, list, nodes
      ensures Valid() && fresh(set n | n in nodes && n !in old(nodes))
      ensures k < |nodes| && nodes[k] == curr && k < |old(blocks)| && old(blocks)[k].size >= need
      ensures blocks == SplitAt(old(blocks), k, need)
    {
      assert curr.Val() == blocks[k];
      var node := new Node.Block(Blk(curr.size - need, true, false, curr.handle, curr.paddr + need, curr.vaddr + need));
      ghost var rest := Rest(blocks[k], need);
      assert node.Val() == rest;
      SetSize(curr, need, k);
      ShrinkThenInsert(old(blocks), blocks, k, need);
      InsertBehind(node, curr, k, rest);
      assert forall n :: n in nodes ==> n == node || n in old(nodes);
    }

    /** Mark block `k`. */
    method SetIdle(curr: Node, idle: bool, ghost k: nat)
      requires Valid() && k < |nodes| && curr == nodes[k]
      modifies curr`idle, this`blocks
      ensures Valid() && blocks == old(blocks)[k := old(blocks)[k].(idle := idle)]
    {
      DistinctNodes();
      curr.idle := idle;
      blocks := blocks[k := blocks[k].(idle := idle)];
    }

    /** The body of the search loop for a block that fits: grant it whole or split it. */
    method GrantFrom(curr: Node, need: nat, ghost k: nat)
      requires Valid() && k < |nodes| && curr == nodes[k] && blocks[k].size >= need
      modifies `nodes, `blocks, list, nodes
      ensures Valid() && fresh(set n | n in nodes && n !in old(nodes))
      ensures k < |nodes| && nodes[k] == curr && blocks == Grant(old(blocks), k, need)
    {
      ghost var b := blocks[k];
      assert curr.Val() == b;
      var remain := curr.size - need;
      if remain >= SPLIT_THRESHOLD {
        Split(curr, need, k);
      }
      SetIdle(curr, false, k);
    }

    /** iaic_fast_alloc_bo. `offer` is what the kernel answers when no block fits and another region is
        asked for. That request is made with the lock held: a refusal returns without releasing it, and
        an offer blocks the call in create_bo_node. So the lock is free after a call exactly if a block
        was found. */
    method FastAlloc(size: nat, offer: Region) returns (code: Code, bo: Option<Bo>)
      requires Valid()
      modifies `locked, `nodes, `blocks, list, nodes
      ensures Valid() && fresh(set n | n in nodes && n !in old(nodes))
      ensures !old(locked) ==> (!locked <==> Alloc(old(blocks), size).Some?)
      ensures old(locked) ==> locked && code == Blocked
      ensures if !locked then
          var (bs', k) := Alloc(old(blocks), size).value;
          k < |bs'| && blocks == bs' && code == OK &&
          bo == Some(Bo(size, bs'[k].size, bs'[k].handle, bs'[k].paddr, bs'[k].vaddr, bs'[k].vaddr))
        else
          blocks == old(blocks) && bo == None &&
          code == (if !old(locked) && offer.handle == 0 then CreateFail else Blocked)
    {
      if locked {
        return Blocked, None;
      }
      var alignSize := (size + 63) % SIZE_MOD / 64 * 64;
      var curr;
      ghost var k;
      locked := true;
      curr, k := FindFit(alignSize);
      if k < |nodes| {
        RingNeighbours(k);
      }
      if curr == list {
        code := CreateBoNode(offer.total, offer.handle, offer.base, offer.vbase);
        return code, None;
      }
      GrantFrom(curr, alignSize, k);
      locked := false;
      assert curr.Val() == blocks[k];
      code, bo := OK, Some(Bo(size, curr.size, curr.handle, curr.paddr, curr.vaddr, curr.vaddr));
    }

    ghost predicate Within(S: set<Node>)
      reads this
    {
      forall i {:trigger nodes[i]} :: 0 <= i < |nodes| ==> nodes[i] in S
    }

    static lemma SentinelStays(list: Node, nodes: seq<Node>, k: nat)
      requires k < |nodes|
      ensures RemoveAt([list] + nodes, k + 1) == [list] + (nodes[..k] + nodes[k + 1..])
    {
    }

    /** Unlink block `k`. */
    method Remove(curr: Node, ghost k: nat)
      requires Valid() && k < |nodes| && curr == nodes[k]
      modifies `nodes, `blocks, list`prev, list`next, nodes`prev, nodes`next
      ensures Valid() && nodes == old(nodes)[..k] + old(nodes)[k + 1..]
      ensures |old(blocks)| == |old(nodes)| && blocks == old(blocks)[..k] + old(blocks)[k + 1..]
    {
      ghost var c := [list] + nodes;
      assert c[k + 1] == curr;
      Del(curr, c, k + 1);
      SentinelStays(list, nodes, k);
      nodes := nodes[..k] + nodes[k + 1..];
      blocks := blocks[..k] + blocks[k + 1..];
    }

    /** One turn of a merge loop: block `k` swallows block `k + 1`, which leaves the list. */
    method FuseNodes(keep: Node, gone: Node, ghost k: nat, ghost S: set<Node>)
      requires Valid() && k + 1 < |nodes| && keep == nodes[k] && gone == nodes[k + 1] && Within(S)
      modifies `nodes, `blocks, list, S
      ensures Valid() && Within(S) && |old(blocks)| == |old(nodes)| && blocks == Fuse(old(blocks), k)
      ensures k < |nodes| && nodes[k] == keep && NodeAt(k + 1) == old(NodeAt(k + 2))
    {
      assert keep.Val() == blocks[k] && gone.Val() == blocks[k + 1];
      SetSize(keep, keep.size + gone.size, k);
      Remove(gone, k + 1);
    }

    /** The backward loop of iaic_fast_free_bo. The sentinel is tested before `idle` is read. */
    method MergeBackLoop(curr0: Node, ghost k0: nat, ghost S: set<Node>) returns (curr: Node, ghost k: nat)
      requires Valid() && k0 < |nodes| && curr0 == nodes[k0] && Within(S)
      modifies `nodes, `blocks, list, S
      ensures Valid() && Within(S) && (blocks, k) == MergeBack(old(blocks), k0)
      ensures k < |nodes| && curr == nodes[k] && NodeAt(k + 1) == old(NodeAt(k0 + 1))
    {
      curr, k := curr0, k0;
      RingNeighbours(k);
      var prev := curr.prev;
      while prev != list && prev.idle
        invariant Valid() && Within(S) && k < |nodes| && curr == nodes[k]
        invariant prev == if k > 0 then nodes[k - 1] else list
        invariant MergeBack(blocks, k) == MergeBack(old(blocks), k0)
        invariant NodeAt(k + 1) == old(NodeAt(k0 + 1))
        decreases k
      {
        assert curr.Val() == blocks[k] && (k > 0 ==> nodes[k - 1].Val() == blocks[k - 1]);
        if curr.isBo {
          break;
        }
        FuseNodes(prev, curr, k - 1, S);
        k := k - 1;
        curr := prev;
        RingNeighbours(k);
        prev := curr.prev;
      }
      if k > 0 {
        RingNeighbours(k - 1);
      }
      assert curr.Val() == blocks[k] && (k > 0 ==> nodes[k - 1].Val() == blocks[k - 1]);
    }

    /** The forward loop, again with the sentinel tested first. */
    method MergeForwardLoop(curr: Node, next0: Node, ghost k: nat, ghost S: set<Node>)
      requires Valid() && k < |nodes| && curr == nodes[k] && next0 == NodeAt(k + 1) && Within(S)
      modifies `nodes, `blocks, list, S
      ensures Valid() && Within(S) && blocks == MergeForward(old(blocks), k)
      ensures k < |nodes| && nodes[k] == curr
    {
      var next := next0;
      if k + 1 < |nodes| {
        RingNeighbours(k + 1);
      }
      while next != list && next.idle
        invariant Valid() && Within(S) && k < |nodes| && curr == nodes[k]
        invariant next == NodeAt(k + 1) && (next == list <==> k + 1 >= |nodes|)
        invariant MergeForward(blocks, k) == MergeForward(old(blocks), k)
        decreases |nodes|
      {
        assert next.Val() == blocks[k + 1];
        FuseNodes(curr, next, k, S);
        RingNeighbours(k);
        next := curr.next;
        if k + 1 < |nodes| {
          RingNeighbours(k + 1);
        }
      }
      assert k + 1 < |nodes| ==> nodes[k + 1].Val() == blocks[k + 1];
    }
  
    /** The search loop of iaic_fast_free_bo. */
    method FindBlock(paddr: nat) returns (curr: Node, ghost k: nat)
      requires Valid()
      ensures k == Lookup(blocks, paddr) && curr == NodeAt(Lookup(blocks, paddr))
    {
      SentinelNext();
      curr := list.next;
      k := 0;
      assert blocks[0..] == blocks;
      while curr != list
        invariant 0 <= k <= |nodes| && curr == NodeAt(k)
        invariant Lookup(blocks, paddr) == k + Lookup(blocks[k..], paddr)
        decreases |nodes| - k
      {
        RingNeighbours(k);
        assert curr.Val() == blocks[k];
        if curr.paddr == paddr {
          break;
        }
        assert blocks[k..][1..] == blocks[k + 1..];
        curr := curr.next;
        k := k + 1;
      }
      if k < |nodes| {
        RingNeighbours(k);
      }
    }

    /** The release of block `k`: mark it idle and run both merge loops. */
    method Release(curr0: Node, ghost k: nat) returns (curr: Node)
      requires Valid() && k < |nodes| && curr0 == nodes[k]
      modifies `nodes, `blocks, list, nodes
      ensures Valid() && blocks == FreeAt(old(blocks), k)
      ensures k < |old(blocks)| && curr.isBo == HandsRegionBack(old(blocks), k)
      ensures forall n :: n in nodes ==> n in old(nodes)
    {
      ghost var S := set n | n in nodes;
      RingNeighbours(k);
      var next := curr0.next;
      SetIdle(curr0, true, k);
      ghost var at;
      curr, at := MergeBackLoop(curr0, k, S);
      ForwardKeepsMark(blocks, at);
      MergeForwardLoop(curr, next, at, S);
      assert curr.Val() == blocks[at];
      assert forall n :: n in nodes ==> n in S;
    }

    /** iaic_fast_free_bo. `kernelFrees` is the kernel's answer when a region is handed back; the node of
        a region that is gone is freed but stays on the list. */
    method FastFree(handle: nat, paddr: nat, kernelFrees: bool) returns (code: Code)
      requires Valid()
      modifies `locked, `nodes, `blocks, `dangling, list, nodes
      ensures Valid() && locked == old(locked) && forall n :: n in nodes ==> n in old(nodes)
      ensures if handle == 0 || locked then
          code == (if handle == 0 then OK else Blocked) && blocks == old(blocks) && dangling == old(dangling)
        else
          FreedAt(old(blocks), paddr, kernelFrees, old(dangling), code)
    {
      if handle == 0 {
        return OK;
      }
      if locked {
        return Blocked;
      }
      locked := true;
      var found, givesBack := FreeUnderLock(paddr);
      locked := false;
      if !found {
        return NotFound;
      }
      if givesBack {
        if !kernelFrees {
          return DestroyFail;
        }
        dangling := true;
      }
      code := OK;
    }

    /** The outcome of a release that got the lock, from the block list `bs`. */
    ghost predicate FreedAt(bs: seq<Blk>, paddr: nat, kernelFrees: bool, dangled: bool, code: Code)
      reads `blocks, `dangling
    {
      var f := Free(bs, paddr);
      if f.None? then code == NotFound && blocks == bs && dangling == dangled
      else
        var back := HandsRegionBack(bs, Lookup(bs, paddr));
        && blocks == f.value
        && dangling == (dangled || (back && kernelFrees))
        && code == (if back && !kernelFrees then DestroyFail else OK)
    }

    /** The section of a release that runs with the lock held. */
    method FreeUnderLock(paddr: nat) returns (found: bool, givesBack: bool)
      requires Valid()
      modifies `nodes, `blocks, list, nodes
      ensures Valid() && forall n :: n in nodes ==> n in old(nodes)
      ensures found <==> Free(old(blocks), paddr).Some?
      ensures !found ==> blocks == old(blocks)
      ensures found ==> blocks == Free(old(blocks), paddr).value
      ensures found ==> givesBack == HandsRegionBack(old(blocks), Lookup(old(blocks), paddr))
    {
      var curr;
      ghost var k;
      curr, k := FindBlock(paddr);
      if k < |nodes| {
        RingNeighbours(k);
      }
      if curr == list {
        return false, false;
      }
      curr := Release(curr, k);
      found, givesBack := true, curr.isBo;
    }
  }

  lemma {:induction false} ForwardKeepsMark(bs: seq<Blk>, k: nat)
    requires k < |bs|
    ensures k < |MergeForward(bs, k)| && MergeForward(bs, k)[k].isBo == bs[k].isBo
    decreases |bs|
  {
    if k + 1 < |bs| && bs[k + 1].idle {
      ForwardKeepsMark(Fuse(bs, k), k);
    }
  }

  /** The region is handed back exactly by the release of the root. */
  lemma RegionBackIff(r: Region, bs: seq<Blk>, paddr: nat)
    requires Good(r, bs) && Lookup(bs, paddr) < |bs|
    ensures HandsRegionBack(bs, Lookup(bs, paddr)) <==> paddr == r.base
  {
    var k := Lookup(bs, paddr);
    if paddr == r.base {
      assert k == 0;
    } else {
      NotTheRoot(r, bs, paddr);
      var marked := bs[k := bs[k].(idle := true)];
      if bs[k].idle {
        assert marked == bs && !bs[k - 1].idle;
      } else if bs[k - 1].idle {
        assert !bs[k - 2].idle;
        TilesAt(r, bs, r.base, k - 1);
        TilesOrdered(r, bs, r.base, 0, k - 1);
        TilesAt(r, bs, r.base, 0);
        assert MergeBack(Fuse(marked, k - 1), k - 1) == (Fuse(marked, k - 1), k - 1);
      }
    }
  }
}
