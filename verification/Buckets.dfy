/** The bucket array of uthash and the doubly linked chains that hang off it. */
module Buckets {
  import opened Bits
  import opened Sequences
  import opened Handles
  import opened HashModel
  import opened HashInvariant

  datatype Bucket = Bucket(hhHead: Handle?, count: nat, expandMult: nat)

  /** The array entries describe the chains: head, exact count, multiplier. */
  ghost predicate HeadsOk(bs: seq<Bucket>, chains: seq<seq<Handle>>, mults: seq<nat>) {
    && |bs| == |chains| == |mults|
    && (forall b :: 0 <= b < |bs| ==> bs[b] == Bucket(First(chains[b]), |chains[b]|, mults[b]))
  }

  /** Every chain is linked both ways; `S` is the set of handles the links live in. */
  ghost predicate ChainsLinked(chains: seq<seq<Handle>>, S: set<Handle>)
    reads S`hhPrev, S`hhNext
  {
    && (forall b, i {:trigger chains[b][i]} :: 0 <= b < |chains| && 0 <= i < |chains[b]| ==> chains[b][i] in S)
    && (forall b :: 0 <= b < |chains| ==> ChainLinked(chains[b]))
  }

  ghost predicate InNoChain(h: Handle, chains: seq<seq<Handle>>) {
    forall b :: 0 <= b < |chains| ==> h !in chains[b]
  }

  /** HASH_ADD_TO_BKT up to the expansion test: push `h` on the front of chain `b`. */
  method PushFront(buckets: array<Bucket>, b: nat, h: Handle,
                   ghost chains: seq<seq<Handle>>, ghost mults: seq<nat>, ghost S: set<Handle>)
    requires HeadsOk(buckets[..], chains, mults) && ChainsLinked(chains, S) && ChainsApart(chains)
    requires b < buckets.Length && h in S && InNoChain(h, chains)
    modifies buckets, S`hhPrev, h`hhNext
    ensures HeadsOk(buckets[..], chains[b := [h] + chains[b]], mults)
    ensures ChainsLinked(chains[b := [h] + chains[b]], S)
  {
    var bk := buckets[b];
    assert bk == buckets[..][b];
    ghost var was := buckets[..];
    h.hhNext := bk.hhHead;
    h.hhPrev := null;
    if bk.hhHead != null {
      assert bk.hhHead == chains[b][0];
      bk.hhHead.hhPrev := h;
    }
    buckets[b] := Bucket(h, bk.count + 1, bk.expandMult);
    assert buckets[..] == was[b := Bucket(h, bk.count + 1, bk.expandMult)];
    ghost var chains' := chains[b := [h] + chains[b]];
    forall c | 0 <= c < |chains'| ensures ChainLinked(chains'[c]) {
      if c != b {
        assert chains'[c] == chains[c];
        if chains[b] != [] {
          assert chains[b][0] in chains[b] && chains[b][0] !in chains[c];
        }
      }
    }
  }

  /** Take `h` out of its chain; nothing outside the chain is touched. */
  method Detach(h: Handle, ghost chain: seq<Handle>, ghost k: nat)
    requires NoDup(chain) && ChainLinked(chain) && k < |chain| && chain[k] == h
    modifies chain`hhPrev, chain`hhNext
    ensures ChainLinked(RemoveAt(chain, k))
  {
    assert h.hhPrev == Pred(chain, k) && h.hhNext == Succ(chain, k);
    if h.hhPrev != null {
      h.hhPrev.hhNext := h.hhNext;
    }
    if h.hhNext != null {
      h.hhNext.hhPrev := h.hhPrev;
    }
  }

  /** HASH_DEL_IN_BKT: unlink `h`, which stands at position `k` of chain `b`. */
  method Unlink(buckets: array<Bucket>, b: nat, h: Handle,
                ghost chains: seq<seq<Handle>>, ghost mults: seq<nat>, ghost S: set<Handle>, ghost k: nat)
    requires HeadsOk(buckets[..], chains, mults) && ChainsLinked(chains, S) && ChainsApart(chains)
    requires b < buckets.Length && k < |chains[b]| && chains[b][k] == h
    modifies buckets, S`hhPrev, S`hhNext
    ensures HeadsOk(buckets[..], chains[b := RemoveAt(chains[b], k)], mults)
    ensures ChainsLinked(chains[b := RemoveAt(chains[b], k)], S)
  {
    var bk := buckets[b];
    assert bk == buckets[..][b];
    ghost var was := buckets[..];
    ghost var chain, rest := chains[b], RemoveAt(chains[b], k);
    var newHead := if bk.hhHead == h then h.hhNext else bk.hhHead;
    assert newHead == First(rest);
    buckets[b] := Bucket(newHead, bk.count - 1, bk.expandMult);
    assert buckets[..] == was[b := Bucket(newHead, bk.count - 1, bk.expandMult)];
    assert forall i :: 0 <= i < |chain| ==> chain[i] in S;
    Detach(h, chain, k);
    ghost var chains' := chains[b := rest];
    forall c | 0 <= c < |chains'| ensures ChainLinked(chains'[c]) {
      if c != b {
        OtherChain(chains, b, c);
      }
    }
  }

  lemma OtherChain(chains: seq<seq<Handle>>, b: nat, c: nat)
    requires ChainsApart(chains) && b < |chains| && c < |chains| && b != c
    ensures forall i :: 0 <= i < |chains[b]| ==> chains[b][i] !in chains[c]
  {
    forall i | 0 <= i < |chains[b]| ensures chains[b][i] !in chains[c] {
      assert chains[b][i] in chains[b];
    }
  }

  // ---------------------------------------------------------------- expansion

  /** The old chains are still readable front to back; their `hhPrev` no longer matters. */
  ghost predicate NextLinked(s: seq<Handle>, j: nat)
    reads s`hhNext
  {
    forall i {:trigger s[i].hhNext} :: j <= i < |s| ==> s[i].hhNext == Succ(s, i)
  }

  /** How far an expansion has come: `done` items sit in the new chains, `rest` is still to move. */
  ghost predicate Moving(cfg: Config, log2: nat, ideal: nat, goal: Redist, r: Redist,
                         done: seq<Handle>, rest: seq<Handle>) {
    && |r.mults| == Pow2(log2)
    && NoDup(done + rest)
    && Distributed(cfg, r.chains, log2, done)
    && MoveItems(cfg, r, rest, ideal, log2) == goal
  }

  lemma DistributedApart(cfg: Config, chains: seq<seq<Handle>>, log2: nat, items: seq<Handle>)
    requires Distributed(cfg, chains, log2, items)
    ensures ChainsApart(chains)
  {
    forall b, c, h | 0 <= b < c < |chains| && h in chains[b] ensures h !in chains[c] {
      assert Home(cfg, h, log2) == b;
    }
  }

  lemma MovingStep(cfg: Config, log2: nat, ideal: nat, goal: Redist, r: Redist, done: seq<Handle>, rest: seq<Handle>)
    requires Moving(cfg, log2, ideal, goal, r, done, rest) && rest != []
    ensures ChainsApart(r.chains) && InNoChain(rest[0], r.chains)
    ensures Moving(cfg, log2, ideal, goal, MoveItem(cfg, r, rest[0], ideal, log2), done + [rest[0]], rest[1..])
  {
    var h := rest[0];
    assert h !in done by {
      forall i | 0 <= i < |done| ensures done[i] != h {
        assert (done + rest)[i] != (done + rest)[|done|];
      }
    }
    DistributedApart(cfg, r.chains, log2, done);
    PushDistributed(cfg, r.chains, log2, done, h);
    assert done + rest == (done + [h]) + rest[1..];
  }

  lemma MovingHead(cfg: Config, log2: nat, ideal: nat, goal: Redist, r: Redist, done: seq<Handle>,
                   chain: seq<Handle>, j: nat, later: seq<Handle>)
    requires j < |chain| && Moving(cfg, log2, ideal, goal, r, done, chain[j..] + later)
    ensures |r.chains| == |r.mults| == Pow2(log2) && ChainsApart(r.chains) && InNoChain(chain[j], r.chains)
    ensures Moving(cfg, log2, ideal, goal, MoveItem(cfg, r, chain[j], ideal, log2),
      done + [chain[j]], chain[j + 1..] + later)
  {
    var rest := chain[j..] + later;
    assert rest[0] == chain[j] && rest[1..] == chain[j + 1..] + later;
    MovingStep(cfg, log2, ideal, goal, r, done, rest);
  }

  /** The new bucket array is the one described by `r`. */
  ghost predicate Built(bs: seq<Bucket>, nonideal: nat, r: Redist, S: set<Handle>)
    reads S`hhPrev, S`hhNext
  {
    HeadsOk(bs, r.chains, r.mults) && ChainsLinked(r.chains, S) && nonideal == r.nonideal
  }

  /** The body of the redistribution loop: one item goes to the front of its new chain. */
  method MoveOne(newBuckets: array<Bucket>, thh: Handle, bkt: nat, ideal: nat, nonideal: nat,
                 cfg: Config, ghost r: Redist, ghost log2: nat, ghost S: set<Handle>)
    returns (nonideal': nat)
    requires |r.chains| == |r.mults| == Pow2(log2) && bkt == Home(cfg, thh, log2)
    requires Built(newBuckets[..], nonideal, r, S)
    requires ChainsApart(r.chains) && InNoChain(thh, r.chains) && thh in S
    modifies newBuckets, S`hhPrev, thh`hhNext
    ensures Built(newBuckets[..], nonideal', MoveItem(cfg, r, thh, ideal, log2), S)
  {
    nonideal' := nonideal;
    assert newBuckets[..][bkt] == newBuckets[bkt];
    ghost var mults := r.mults;
    var count, mult := newBuckets[bkt].count + 1, newBuckets[bkt].expandMult;
    if count > ideal {
      nonideal' := nonideal' + 1;
      if count > mult * ideal {
        SetMult(newBuckets, bkt, mult + 1, r.chains, r.mults);
        mults := r.mults[bkt := mult + 1];
      }
    }
    PushFront(newBuckets, bkt, thh, r.chains, mults, S);
  }

  method SetMult(buckets: array<Bucket>, b: nat, mult: nat, ghost chains: seq<seq<Handle>>, ghost mults: seq<nat>)
    requires HeadsOk(buckets[..], chains, mults) && b < buckets.Length
    modifies buckets
    ensures HeadsOk(buckets[..], chains, mults[b := mult])
  {
    ghost var was := buckets[..];
    buckets[b] := buckets[b].(expandMult := mult);
    assert buckets[..] == was[b := was[b].(expandMult := mult)];
  }

  /** One iteration over a chain, seen from the whole expansion. */
  method MoveHead(newBuckets: array<Bucket>, thh: Handle, numBuckets: nat, ideal: nat, nonideal: nat, cfg: Config,
                  ghost log2: nat, ghost goal: Redist, ghost chain: seq<Handle>, ghost j: nat, ghost later: seq<Handle>,
                  ghost r0: Redist, ghost done0: seq<Handle>, ghost S: set<Handle>)
    returns (nonideal': nat, ghost r: Redist, ghost done: seq<Handle>)
    requires 2 * numBuckets == Pow2(log2) && j < |chain| && thh == chain[j]
    requires thh in S && thh.hashv == cfg.hash(thh.key)
    requires Moving(cfg, log2, ideal, goal, r0, done0, chain[j..] + later)
    requires Built(newBuckets[..], nonideal, r0, S)
    modifies newBuckets, S`hhPrev, thh`hhNext
    ensures Moving(cfg, log2, ideal, goal, r, done, chain[j + 1..] + later)
    ensures Built(newBuckets[..], nonideal', r, S)
  {
    var bkt := And(thh.hashv, 2 * numBuckets - 1);
    MovingHead(cfg, log2, ideal, goal, r0, done0, chain, j, later);
    nonideal' := MoveOne(newBuckets, thh, bkt, ideal, nonideal, cfg, r0, log2, S);
    r, done := MoveItem(cfg, r0, thh, ideal, log2), done0 + [thh];
  }

  /** Move the whole chain that starts at `hhHead`. */
  method MoveChain(newBuckets: array<Bucket>, hhHead: Handle?, numBuckets: nat, ideal: nat, nonideal: nat, cfg: Config,
                   ghost log2: nat, ghost goal: Redist, ghost chain: seq<Handle>, ghost later: seq<Handle>,
                   ghost r0: Redist, ghost done0: seq<Handle>, ghost S: set<Handle>)
    returns (nonideal': nat, ghost r: Redist, ghost done: seq<Handle>)
    requires 2 * numBuckets == Pow2(log2) && NoDup(chain) && NextLinked(chain, 0) && hhHead == First(chain)
    requires forall i :: 0 <= i < |chain| ==> chain[i] in S && chain[i].hashv == cfg.hash(chain[i].key)
    requires Moving(cfg, log2, ideal, goal, r0, done0, chain + later)
    requires Built(newBuckets[..], nonideal, r0, S)
    modifies newBuckets, S`hhPrev, chain`hhNext
    ensures Moving(cfg, log2, ideal, goal, r, done, later)
    ensures Built(newBuckets[..], nonideal', r, S)
  {
    var thh := hhHead;
    nonideal', r, done := nonideal, r0, done0;
    ghost var j := 0;
    assert chain[0..] == chain;
    while thh != null
      invariant 0 <= j <= |chain| && thh == At(chain, j)
      invariant NextLinked(chain, j)
      invariant Moving(cfg, log2, ideal, goal, r, done, chain[j..] + later)
      invariant Built(newBuckets[..], nonideal', r, S)
      decreases |chain| - j
    {
      var nxt := thh.hhNext;
      nonideal', r, done := MoveHead(newBuckets, thh, numBuckets, ideal, nonideal', cfg, log2, goal,
        chain, j, later, r, done, S);
      j := j + 1;
      thh := nxt;
    }
    assert chain[j..] + later == later;
  }

  ghost predicate ChainsReadable(chains: seq<seq<Handle>>, i: nat, S: set<Handle>)
    reads S`hhNext
  {
    && (forall b, j {:trigger chains[b][j]} :: 0 <= b < |chains| && 0 <= j < |chains[b]| ==> chains[b][j] in S)
    && (forall b :: i <= b < |chains| ==> NextLinked(chains[b], 0))
  }

  ghost predicate HashvOk(cfg: Config, S: set<Handle>)
    reads S`hashv
  {
    forall h :: h in S ==> h.hashv == cfg.hash(h.key)
  }

  lemma FlattenSuffix(chains: seq<seq<Handle>>, i: nat)
    requires i < |chains|
    ensures Flatten(chains[i..]) == chains[i] + Flatten(chains[i + 1..])
  {
    assert chains[i..][1..] == chains[i + 1..];
  }

  /** Moving chain `i` leaves the later chains readable. */
  method MoveBucket(newBuckets: array<Bucket>, hhHead: Handle?, numBuckets: nat, ideal: nat, nonideal: nat, cfg: Config,
                    ghost chains: seq<seq<Handle>>, ghost i: nat, ghost log2: nat, ghost goal: Redist,
                    ghost r0: Redist, ghost done0: seq<Handle>, ghost S: set<Handle>)
    returns (nonideal': nat, ghost r: Redist, ghost done: seq<Handle>)
    requires 2 * numBuckets == Pow2(log2) && i < |chains| && ChainsApart(chains) && hhHead == First(chains[i])
    requires ChainsReadable(chains, i, S) && HashvOk(cfg, S)
    requires Moving(cfg, log2, ideal, goal, r0, done0, Flatten(chains[i..]))
    requires Built(newBuckets[..], nonideal, r0, S)
    modifies newBuckets, S`hhPrev, S`hhNext
    ensures ChainsReadable(chains, i + 1, S)
    ensures Moving(cfg, log2, ideal, goal, r, done, Flatten(chains[i + 1..]))
    ensures Built(newBuckets[..], nonideal', r, S)
  {
    FlattenSuffix(chains, i);
    assert forall j :: 0 <= j < |chains[i]| ==> chains[i][j] in S;
    forall b | i < b < |chains| ensures forall j :: 0 <= j < |chains[b]| ==> chains[b][j] !in chains[i] {
      OtherChain(chains, b, i);
    }
    nonideal', r, done := MoveChain(newBuckets, hhHead, numBuckets, ideal, nonideal, cfg, log2, goal,
                                    chains[i], Flatten(chains[i + 1..]), r0, done0, S);
  }

  function EmptyRedist(log2: nat): Redist {
    Redist(EmptyChains(log2), Zeros(log2), 0)
  }

  lemma MovingStart(cfg: Config, t: Table, items: seq<Handle>, ideal: nat)
    requires Distributed(cfg, t.chains, t.log2, items)
    ensures ChainsApart(t.chains)
    ensures var r := EmptyRedist(t.log2 + 1);
      Moving(cfg, t.log2 + 1, ideal, MoveItems(cfg, r, Flatten(t.chains), ideal, t.log2 + 1), r, [], Flatten(t.chains))
  {
    DistributedFlatten(cfg, t.chains, t.log2, items);
    DistributedApart(cfg, t.chains, t.log2, items);
    assert [] + Flatten(t.chains) == Flatten(t.chains);
  }

  /** A zeroed bucket array. */
  method NewBuckets(n: nat, ghost log2: nat, ghost S: set<Handle>) returns (bs: array<Bucket>)
    requires n == Pow2(log2)
    ensures fresh(bs) && bs.Length == n && Built(bs[..], 0, EmptyRedist(log2), S)
  {
    bs := new Bucket[n](_ => Bucket(null, 0, 0));
  }

  /** The two nested loops of HASH_EXPAND_BUCKETS. */
  method Redistribute(buckets: array<Bucket>, newBuckets: array<Bucket>, numBuckets: nat, ideal: nat, cfg: Config,
                      ghost chains: seq<seq<Handle>>, ghost mults: seq<nat>, ghost log2: nat,
                      ghost goal: Redist, ghost S: set<Handle>)
    returns (nonideal: nat)
    requires 2 * numBuckets == Pow2(log2) && numBuckets == buckets.Length && buckets != newBuckets
    requires HeadsOk(buckets[..], chains, mults) && ChainsApart(chains)
    requires ChainsReadable(chains, 0, S) && HashvOk(cfg, S)
    requires Moving(cfg, log2, ideal, goal, EmptyRedist(log2), [], Flatten(chains))
    requires Built(newBuckets[..], 0, EmptyRedist(log2), S)
    modifies newBuckets, S`hhPrev, S`hhNext
    ensures Built(newBuckets[..], nonideal, goal, S)
  {
    ghost var r, done := EmptyRedist(log2), [];
    nonideal := 0;
    var i := 0;
    assert chains[0..] == chains;
    while i < numBuckets
      invariant 0 <= i <= numBuckets && HeadsOk(buckets[..], chains, mults)
      invariant ChainsReadable(chains, i, S)
      invariant Moving(cfg, log2, ideal, goal, r, done, Flatten(chains[i..]))
      invariant Built(newBuckets[..], nonideal, r, S)
    {
      assert buckets[..][i] == buckets[i];
      nonideal, r, done := MoveBucket(newBuckets, buckets[i].hhHead, numBuckets, ideal, nonideal, cfg,
                                      chains, i, log2, goal, r, done, S);
      i := i + 1;
    }
    assert chains[i..] == [];
  }

  /** Build the doubled bucket array and count what lies beyond the ideal chain length. */
  method Doubled(buckets: array<Bucket>, numBuckets: nat, ideal: nat, cfg: Config,
                 ghost chains: seq<seq<Handle>>, ghost mults: seq<nat>, ghost log2: nat,
                 ghost goal: Redist, ghost S: set<Handle>)
    returns (newBuckets: array<Bucket>, nonideal: nat)
    requires 2 * numBuckets == Pow2(log2) && numBuckets == buckets.Length
    requires HeadsOk(buckets[..], chains, mults) && ChainsApart(chains) && ChainsLinked(chains, S) && HashvOk(cfg, S)
    requires Moving(cfg, log2, ideal, goal, EmptyRedist(log2), [], Flatten(chains))
    modifies S`hhPrev, S`hhNext
    ensures fresh(newBuckets) && Built(newBuckets[..], nonideal, goal, S)
  {
    newBuckets := NewBuckets(numBuckets * 2, log2, S);
    nonideal := Redistribute(buckets, newBuckets, numBuckets, ideal, cfg, chains, mults, log2, goal, S);
  }

  /** The same, seen from the table that is being expanded. */
  method DoubledTable(buckets: array<Bucket>, numBuckets: nat, ideal: nat, cfg: Config,
                      ghost t: Table, ghost items: seq<Handle>, ghost S: set<Handle>)
    returns (newBuckets: array<Bucket>, nonideal: nat)
    requires numBuckets == Pow2(t.log2) && Distributed(cfg, t.chains, t.log2, items)
    requires HeadsOk(buckets[..], t.chains, t.mults) && ChainsLinked(t.chains, S) && HashvOk(cfg, S)
    modifies S`hhPrev, S`hhNext
    ensures fresh(newBuckets)
    ensures Built(newBuckets[..], nonideal,
                  MoveItems(cfg, EmptyRedist(t.log2 + 1), Flatten(t.chains), ideal, t.log2 + 1), S)
  {
    MovingStart(cfg, t, items, ideal);
    newBuckets, nonideal :=
      Doubled(buckets, numBuckets, ideal, cfg, t.chains, t.mults, t.log2 + 1,
              MoveItems(cfg, EmptyRedist(t.log2 + 1), Flatten(t.chains), ideal, t.log2 + 1), S);
  }

  /** HASH_FIND_IN_BKT: walk the chain from its head. */
  method FindInChain(hhHead: Handle?, key: Key, hashv: nat, cfg: Config, ghost chain: seq<Handle>)
    returns (out: Handle?)
    requires ChainLinked(chain) && hhHead == First(chain) && hashv == cfg.hash(key)
    requires forall h :: h in chain ==> h.hashv == cfg.hash(h.key)
    ensures out == FindInBkt(cfg, chain, key)
  {
    out := hhHead;
    ghost var j := 0;
    assert chain[0..] == chain;
    while out != null
      invariant 0 <= j <= |chain| && out == At(chain, j)
      invariant FindInBkt(cfg, chain, key) == FindInBkt(cfg, chain[j..], key)
      decreases |chain| - j
    {
      assert out in chain;
      if out.hashv == hashv && |out.key| == |key| {
        if out.key == key {
          break;
        }
      }
      assert chain[j..][1..] == chain[j + 1..];
      out := out.hhNext;
      j := j + 1;
    }
  }

  // ---------------------------------------------------------------- the integrity check

  /** Following `hhNext` from the head visits the handles of `chain` and ends. */
  ghost predicate ChainWalk(hhHead: Handle?, chain: seq<Handle>)
    reads chain`hhNext
  {
    hhHead == First(chain) &&
      forall i {:trigger chain[i].hhNext} :: 0 <= i < |chain| ==> chain[i].hhNext == Succ(chain, i)
  }

  ghost predicate ChainMirrored(chain: seq<Handle>)
    reads chain`hhPrev
  {
    forall i {:trigger chain[i].hhPrev} :: 0 <= i < |chain| ==> chain[i].hhPrev == Pred(chain, i)
  }

  /** Every bucket can be walked; nothing is said about `hhPrev` and the counts. */
  ghost predicate BucketsWalk(bs: seq<Bucket>, chains: seq<seq<Handle>>, S: set<Handle>)
    reads S`hhNext
  {
    && |bs| == |chains|
    && (forall b, i {:trigger chains[b][i]} :: 0 <= b < |chains| && 0 <= i < |chains[b]| ==> chains[b][i] in S)
    && (forall b {:trigger bs[b]} {:trigger chains[b]} :: 0 <= b < |bs| ==> ChainWalk(bs[b].hhHead, chains[b]))
  }

  /** The walk of HASH_FSCK along one chain: whether `hhPrev` mirrors it, and its length. */
  method CheckChain(hhHead: Handle?, ghost chain: seq<Handle>) returns (mirrored: bool, count: nat)
    requires ChainWalk(hhHead, chain)
    ensures mirrored <==> ChainMirrored(chain)
    ensures count == |chain|
  {
    mirrored, count := true, 0;
    var thh := hhHead;
    var prev: Handle? := null;
    while thh != null
      invariant count <= |chain| && thh == At(chain, count) && prev == Pred(chain, count)
      invariant mirrored <==>
        forall i {:trigger chain[i].hhPrev} :: 0 <= i < count ==> chain[i].hhPrev == Pred(chain, i)
      decreases |chain| - count
    {
      if prev != thh.hhPrev {
        mirrored := false;
      }
      count := count + 1;
      prev := thh;
      thh := thh.hhNext;
    }
  }

  /** The bucket loop of HASH_FSCK over the stored number of buckets: whether every chain is mirrored
      and every stored count exact, and how many handles the chains hold together. */
  method CheckBuckets(buckets: array<Bucket>, numBuckets: nat, ghost chains: seq<seq<Handle>>, ghost S: set<Handle>)
    returns (ok: bool, count: nat)
    requires numBuckets <= buckets.Length && BucketsWalk(buckets[..numBuckets], chains, S)
    ensures ok <==> forall b :: 0 <= b < |chains| ==> ChainMirrored(chains[b]) && buckets[b].count == |chains[b]|
    ensures count == SumLengths(chains)
  {
    ok, count := true, 0;
    var i := 0;
    assert chains[0..] == chains;
    while i < numBuckets
      invariant 0 <= i <= numBuckets
      invariant ok <==> forall b :: 0 <= b < i ==> ChainMirrored(chains[b]) && buckets[b].count == |chains[b]|
      invariant count + SumLengths(chains[i..]) == SumLengths(chains)
    {
      assert buckets[..numBuckets][i] == buckets[i];
      var mirrored, n := CheckChain(buckets[i].hhHead, chains[i]);
      if !mirrored || buckets[i].count != n {
        ok := false;
      }
      assert chains[i..][1..] == chains[i + 1..];
      count := count + n;
      i := i + 1;
    }
    assert chains[i..] == [];
  }
}
