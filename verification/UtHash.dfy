/** The table itself: the macros of uthash as methods that rewire handles and buckets in place.
    The record UT_hash_table is folded into the object; its fields mean something only while
    `head` is not null, as in C, where the record is freed with the last element. */
module UtHash {
  import opened Bits
  import opened Sequences
  import opened Handles
  import opened StableSort
  import opened HashModel
  import opened HashInvariant
  import opened HashRefinement
  import opened AppOrder
  import opened Buckets
  import opened Bloom

  lemma ThirtyTwo()
    ensures Pow2(INITIAL_LOG2_BUCKETS) == 32
  {
    assert Pow2(2) == 4 && Pow2(4) == 4 * Pow2(2);
  }

  class HashTable {
    const cfg: Config

    var head: Handle?

    // UT_hash_table
    var buckets: array<Bucket>
    var numBuckets: nat
    var log2NumBuckets: nat
    var numItems: nat
    var tail: Handle?
    var idealChainMaxlen: nat
    var nonidealItems: nat
    var ineffExpands: nat
    var noexpand: bool
    var bloomBv: array<nat>

    ghost var s: State

    /** The bucket array, its chains and the expansion statistics are those of `t`. */
    ghost predicate TblRep(t: Table, S: set<Handle>)
      reads `buckets, `numBuckets, `log2NumBuckets, `idealChainMaxlen, `nonidealItems, `ineffExpands, `noexpand
      reads buckets, S`hhPrev, S`hhNext
    {
      && numBuckets == Pow2(t.log2) && log2NumBuckets == t.log2
      && idealChainMaxlen == t.ideal && nonidealItems == t.nonideal
      && ineffExpands == t.ineff && noexpand == t.noexpand
      && HeadsOk(buckets[..], t.chains, t.mults) && ChainsLinked(t.chains, S)
    }

    ghost predicate BloomOk(bits: set<nat>)
      reads `bloomBv, bloomBv
    {
      cfg.useBloom ==> BloomRep(bloomBv[..], bits, cfg.nbits)
    }

    ghost predicate AppOk(app: seq<Handle>)
      reads `head, `tail, app`prev, app`next
    {
      head == First(app) && tail == Last(app) && AppLinked(app)
    }

    /** The fields and the handles spell out the table `t` over the application order `app`. */
    ghost predicate Rep(app: seq<Handle>, t: Table)
      reads `head, `tail, `numItems, `buckets, `numBuckets, `log2NumBuckets
      reads `idealChainMaxlen, `nonidealItems, `ineffExpands, `noexpand, `bloomBv
      reads buckets, bloomBv, app
    {
      && AppOk(app) && numItems == |app| && HashvOk(cfg, Elems(app))
      && TblRep(t, Elems(app)) && BloomOk(t.bloom)
    }

    ghost predicate Valid()
      reads this, buckets, bloomBv, s.App()
    {
      && Inv(cfg, s)
      && (s.NoTable? ==> head == null)
      && (s.State? ==> Rep(s.app, s.t))
    }

    constructor (cfg: Config)
      ensures Valid() && s == NoTable && this.cfg == cfg
      ensures fresh(buckets) && fresh(bloomBv)
    {
      this.cfg := cfg;
      head, tail := null, null;
      buckets := new Bucket[0];
      bloomBv := new nat[0];
      s := NoTable;
    }

    /** HASH_BLOOM_MAKE, which is empty without the compile-time option. */
    method MakeBloom()
      modifies `bloomBv
      ensures fresh(bloomBv) && BloomOk({})
    {
      if cfg.useBloom {
        bloomBv := NewBits(cfg.nbits);
      } else {
        bloomBv := new nat[0];
      }
    }

    /** HASH_MAKE_TABLE. */
    method MakeTable(add: Handle)
      modifies this
      ensures unchanged(`head) && s == old(s)
      ensures tail == add && numItems == 0 && fresh(buckets) && fresh(bloomBv)
      ensures TblRep(HashModel.MakeTable(), {}) && BloomOk({})
    {
      tail := add;
      numItems := 0;
      numBuckets, log2NumBuckets := 32, INITIAL_LOG2_BUCKETS;
      idealChainMaxlen, nonidealItems, ineffExpands, noexpand := 0, 0, 0, false;
      ThirtyTwo();
      buckets := NewBuckets(numBuckets, INITIAL_LOG2_BUCKETS, {});
      MakeBloom();
    }

    /** The end of HASH_EXPAND_BUCKETS: install the new array, judge whether doubling helped. */
    method FinishExpand(newBuckets: array<Bucket>, ideal: nat, nonideal: nat,
                        ghost t: Table, ghost t': Table, ghost S: set<Handle>)
      requires numBuckets == Pow2(t.log2) && log2NumBuckets == t.log2
      requires ineffExpands == t.ineff && noexpand == t.noexpand
      requires HeadsOk(newBuckets[..], t'.chains, t'.mults) && ChainsLinked(t'.chains, S)
      requires t'.log2 == t.log2 + 1 && ideal == t'.ideal && nonideal == t'.nonideal
      requires t'.ineff == (if t'.nonideal > Shr(numItems, 1) then t.ineff + 1 else 0)
      requires t'.noexpand == (t.noexpand || t'.ineff > 1)
      modifies `buckets, `numBuckets, `log2NumBuckets, `idealChainMaxlen, `nonidealItems, `ineffExpands, `noexpand
      ensures TblRep(t', S) && buckets == newBuckets
    {
      idealChainMaxlen, nonidealItems := ideal, nonideal;
      numBuckets := numBuckets * 2;
      log2NumBuckets := log2NumBuckets + 1;
      buckets := newBuckets;
      ineffExpands := if nonidealItems > Shr(numItems, 1) then ineffExpands + 1 else 0;
      if ineffExpands > 1 {
        noexpand := true;
      }
    }

    /** HASH_EXPAND_BUCKETS. */
    method ExpandBuckets(ghost t: Table, ghost items: seq<Handle>, ghost S: set<Handle>)
      requires Distributed(cfg, t.chains, t.log2, items) && numItems == |items|
      requires TblRep(t, S) && HashvOk(cfg, S)
      modifies `buckets, `numBuckets, `log2NumBuckets, `idealChainMaxlen, `nonidealItems, `ineffExpands, `noexpand
      modifies S`hhPrev, S`hhNext
      ensures TblRep(Expand(cfg, t, |items|), S) && fresh(buckets)
    {
      var ideal := Shr(numItems, log2NumBuckets + 1) + (if And(numItems, numBuckets * 2 - 1) != 0 then 1 else 0);
      assert ideal == IdealLength(|items|, t.log2);
      var newBuckets, nonideal := DoubledTable(buckets, numBuckets, ideal, cfg, t, items, S);
      FinishExpand(newBuckets, ideal, nonideal, t, Expand(cfg, t, |items|), S);
    }
  
    /** HASH_ADD_TO_BKT: push `add` on its chain, and double the array if the chain became too long. */
    method AddToBkt(add: Handle, ghost t: Table, ghost items: seq<Handle>, ghost S: set<Handle>)
      requires Shaped(t) && Distributed(cfg, t.chains, t.log2, items) && add !in items && numItems == |items| + 1
      requires TblRep(t, S) && HashvOk(cfg, S) && add in S
      modifies `buckets, `numBuckets, `log2NumBuckets, `idealChainMaxlen, `nonidealItems, `ineffExpands, `noexpand
      modifies buckets, S`hhPrev, S`hhNext
      ensures TblRep(HashModel.AddToBkt(cfg, t, add, |items| + 1), S)
      ensures buckets == old(buckets) || fresh(buckets)
    {
      var bkt := And(add.hashv, numBuckets - 1);
      assert bkt == Home(cfg, add, t.log2);
      DistributedApart(cfg, t.chains, t.log2, items);
      PushFront(buckets, bkt, add, t.chains, t.mults, S);
      ghost var t1 := t.(chains := t.chains[bkt := [add] + t.chains[bkt]]);
      assert TblRep(t1, S);
      assert buckets[..][bkt] == buckets[bkt];
      if buckets[bkt].count >= (buckets[bkt].expandMult + 1) * BKT_CAPACITY_THRESH && !noexpand {
        PushDistributed(cfg, t.chains, t.log2, items, add);
        ExpandBuckets(t1, items + [add], S);
      }
    }
  
    /** HASH_BLOOM_ADD, which is empty without the compile-time option. */
    method BloomAdd(hashv: nat, ghost bits: set<nat>)
      requires BloomOk(bits)
      modifies bloomBv
      ensures BloomOk(bits + {BloomIndex(cfg, hashv)})
    {
      if cfg.useBloom {
        var idx := And(hashv, Pow2(cfg.nbits) - 1);
        assert idx == BloomIndex(cfg, hashv);
        BitSet(bloomBv, idx, bits, cfg.nbits);
      }
    }

    /** HASH_ADD_TO_TABLE: count the item, put it in its bucket (the table is then `t1`), set its Bloom bit. */
    method AddToTable(add: Handle, ghost t: Table, ghost t1: Table, ghost items: seq<Handle>, ghost S: set<Handle>)
      requires Shaped(t) && Distributed(cfg, t.chains, t.log2, items) && add !in items && numItems == |items|
      requires TblRep(t, S) && HashvOk(cfg, S) && BloomOk(t.bloom) && add in S
      requires t1 == HashModel.AddToBkt(cfg, t, add, |items| + 1)
      modifies `buckets, `numBuckets, `log2NumBuckets, `idealChainMaxlen, `nonidealItems,
        `ineffExpands, `noexpand, `numItems
      modifies buckets, bloomBv, S`hhPrev, S`hhNext
      ensures TblRep(t1, S) && BloomOk(t.bloom + {BloomIndex(cfg, cfg.hash(add.key))})
      ensures numItems == |items| + 1 && (buckets == old(buckets) || fresh(buckets))
    {
      numItems := numItems + 1;
      AddToBkt(add, t, items, S);
      BloomAdd(add.hashv, t.bloom);
    }

    ghost method Conclude(app: seq<Handle>, t: Table, bits: set<nat>)
      requires AppOk(app) && numItems == |app| && HashvOk(cfg, Elems(app))
      requires TblRep(t, Elems(app)) && BloomOk(bits)
      modifies `s
      ensures s == State(app, t.(bloom := bits)) && Rep(app, t.(bloom := bits))
    {
      s := State(app, t.(bloom := bits));
    }

    /** The common end of all additions: `add` is already linked into `app'`. */
    method Enter(add: Handle, ghost app: seq<Handle>, ghost t: Table, ghost t1: Table, ghost app': seq<Handle>)
      requires Shaped(t) && Distributed(cfg, t.chains, t.log2, app) && add !in app && numItems == |app|
      requires |app'| == |app| + 1 && add in app' && AppOk(app') && HashvOk(cfg, Elems(app'))
      requires TblRep(t, Elems(app')) && BloomOk(t.bloom)
      requires t1 == HashModel.AddToBkt(cfg, t, add, |app| + 1)
      modifies `buckets, `numBuckets, `log2NumBuckets, `idealChainMaxlen, `nonidealItems,
        `ineffExpands, `noexpand, `numItems, `s
      modifies buckets, bloomBv, Elems(app')`hhPrev, Elems(app')`hhNext
      ensures s == State(app', t1.(bloom := t.bloom + {BloomIndex(cfg, cfg.hash(add.key))}))
      ensures Rep(app', t1.(bloom := t.bloom + {BloomIndex(cfg, cfg.hash(add.key))}))
      ensures buckets == old(buckets) || fresh(buckets)
    {
      ghost var bits := t.bloom + {BloomIndex(cfg, cfg.hash(add.key))};
      AddToTable(add, t, t1, app, Elems(app'));
      Conclude(app', t1, bits);
    }

    /** HASH_APPEND_LIST. */
    method AppendList(add: Handle, ghost app: seq<Handle>)
      requires app != [] && NoDup(app) && AppOk(app) && add !in app
      modifies `tail, add`next, add`prev, app`next
      ensures AppOk(app + [add])
    {
      add.next := null;
      add.prev := tail;
      tail.next := add;
      tail := add;
    }

    /** The first element of a table: a fresh record with this element as head and tail. */
    method AddFirst(add: Handle)
      requires Valid() && s.NoTable?
      modifies this, add
      ensures s == HashModel.Add(cfg, NoTable, add) && Rep(s.app, s.t)
      ensures fresh(buckets) && fresh(bloomBv)
    {
      add.hashv := cfg.hash(add.key);
      add.next := null;
      add.prev := null;
      MakeTable(add);
      head := add;
      MakeTableInv(cfg);
      ghost var t := HashModel.MakeTable();
      Enter(add, [], t, HashModel.AddToBkt(cfg, t, add, 1), [add]);
    }
  
    /** The chains of a table do not depend on which larger set of handles they are seen in. */
    lemma TblRepWiden(t: Table, S: set<Handle>, S': set<Handle>)
      requires TblRep(t, S) && S <= S'
      ensures TblRep(t, S')
    {
    }

    /** What an addition finds once `add` is linked: only the buckets still lack it. */
    ghost predicate Linked(app: seq<Handle>, t: Table)
      reads `head, `tail, `buckets, `numBuckets, `log2NumBuckets
      reads `idealChainMaxlen, `nonidealItems, `ineffExpands, `noexpand, `bloomBv
      reads buckets, bloomBv, app
    {
      AppOk(app) && HashvOk(cfg, Elems(app)) && TblRep(t, Elems(app)) && BloomOk(t.bloom)
    }

    method LinkLast(add: Handle, ghost app: seq<Handle>, ghost t: Table)
      requires Rep(app, t) && app != [] && NoDup(app) && add !in app
      modifies `tail, add`next, add`prev, add`hashv, app`next
      ensures Linked(app + [add], t)
    {
      add.hashv := cfg.hash(add.key);
      AppendList(add, app);
      TblRepWiden(t, Elems(app), Elems(app + [add]));
    }

    method AddLast(add: Handle, ghost app: seq<Handle>, ghost t: Table)
      requires s == State(app, t) && Rep(app, t) && app != [] && NoDup(app) && add !in app
      requires Shaped(t) && Distributed(cfg, t.chains, t.log2, app)
      modifies this, buckets, bloomBv, app, add
      ensures s == HashModel.Add(cfg, State(app, t), add) && Rep(s.app, s.t)
      ensures (buckets == old(buckets) || fresh(buckets)) && bloomBv == old(bloomBv)
    {
      LinkLast(add, app, t);
      Enter(add, app, t, HashModel.AddToBkt(cfg, t, add, |app| + 1), app + [add]);
    }

    /** HASH_ADD: append in application order, and into the bucket of its hash. */
    method Add(add: Handle)
      requires Valid() && add !in s.App()
      modifies this, buckets, bloomBv, s.App(), add
      ensures Valid() && s == HashModel.Add(cfg, old(s), add)
      ensures (buckets == old(buckets) || fresh(buckets)) && (bloomBv == old(bloomBv) || fresh(bloomBv))
    {
      AddKeepsInv(cfg, s, add);
      if head == null {
        AddFirst(add);
      } else {
        AddLast(add, s.app, s.t);
      }
    }

    /** HASH_AKBI_INNER_LOOP: the first element that compares greater than `add`, or null. */
    method FindPlace(add: Handle, cmp: (Handle, Handle) -> int, ghost app: seq<Handle>) returns (iter: Handle?)
      requires app != [] && AppOk(app)
      ensures iter == At(app, FirstGreater(cmp, app, add))
    {
      iter := head;
      ghost var k := 0;
      assert app[0..] == app;
      while iter != null
        invariant 0 <= k <= |app| && iter == At(app, k)
        invariant FirstGreater(cmp, app, add) == k + FirstGreater(cmp, app[k..], add)
        decreases |app| - k
      {
        if cmp(iter, add) > 0 {
          break;
        }
        assert app[k..][1..] == app[k + 1..];
        iter := iter.next;
        k := k + 1;
      }
    }

    /** Link `add` before `iter`, or at the end when `iter` is null. */
    method LinkBefore(add: Handle, iter: Handle?, ghost app: seq<Handle>, ghost k: nat)
      requires app != [] && NoDup(app) && AppOk(app) && add !in app && k <= |app| && iter == At(app, k)
      modifies `head, `tail, add`next, add`prev, app`next, app`prev
      ensures AppOk(app[..k] + [add] + app[k..])
    {
      if iter != null {
        SpliceBefore(add, iter, app, k);
        if add.prev == null {
          head := add;
        }
      } else {
        AppendList(add, app);
        assert app[..k] + [add] + app[k..] == app + [add];
      }
    }

    method LinkInOrder(add: Handle, cmp: (Handle, Handle) -> int, ghost app: seq<Handle>)
      requires app != [] && NoDup(app) && AppOk(app) && add !in app
      modifies `head, `tail, add`next, add`prev, app`next, app`prev
      ensures AppOk(InsertOrdered(cmp, app, add))
    {
      var iter := FindPlace(add, cmp, app);
      LinkBefore(add, iter, app, FirstGreater(cmp, app, add));
    }

    /** The rest of the representation follows a change of the application order. */
    lemma Carry(add: Handle, app: seq<Handle>, app': seq<Handle>, t: Table)
      requires HashvOk(cfg, Elems(app)) && TblRep(t, Elems(app)) && add.hashv == cfg.hash(add.key)
      requires forall h :: h in app' <==> h in app || h == add
      ensures HashvOk(cfg, Elems(app')) && TblRep(t, Elems(app'))
    {
      TblRepWiden(t, Elems(app), Elems(app'));
    }

    method LinkSorted(add: Handle, cmp: (Handle, Handle) -> int, ghost app: seq<Handle>,
                      ghost app': seq<Handle>, ghost t: Table)
      requires Rep(app, t) && app != [] && NoDup(app) && add !in app
      requires app' == InsertOrdered(cmp, app, add) && forall h :: h in app' <==> h in app || h == add
      modifies `head, `tail, add`next, add`prev, add`hashv, app`next, app`prev
      ensures Linked(app', t)
    {
      add.hashv := cfg.hash(add.key);
      LinkInOrder(add, cmp, app);
      Carry(add, app, app', t);
    }

    method AddMiddle(add: Handle, cmp: (Handle, Handle) -> int, ghost app: seq<Handle>,
                     ghost app': seq<Handle>, ghost t: Table)
      requires s == State(app, t) && Rep(app, t) && app != [] && NoDup(app) && add !in app
      requires Shaped(t) && Distributed(cfg, t.chains, t.log2, app)
      requires app' == InsertOrdered(cmp, app, add) && forall h :: h in app' <==> h in app || h == add
      modifies this, buckets, bloomBv, app, add
      ensures s == State(app', HashModel.AddToTable(cfg, t, add, |app| + 1)) && Rep(s.app, s.t)
      ensures (buckets == old(buckets) || fresh(buckets)) && bloomBv == old(bloomBv)
    {
      LinkSorted(add, cmp, app, app', t);
      Enter(add, app, t, HashModel.AddToBkt(cfg, t, add, |app| + 1), app');
    }

    method AddSorted(add: Handle, cmp: (Handle, Handle) -> int, ghost app: seq<Handle>, ghost t: Table)
      requires s == State(app, t) && Rep(app, t) && app != [] && NoDup(app) && add !in app
      requires Shaped(t) && Distributed(cfg, t.chains, t.log2, app)
      modifies this, buckets, bloomBv, app, add
      ensures s == HashModel.AddInOrder(cfg, State(app, t), add, cmp) && Rep(s.app, s.t)
      ensures (buckets == old(buckets) || fresh(buckets)) && bloomBv == old(bloomBv)
    {
      InsertNoDup(app, FirstGreater(cmp, app, add), add);
      AddMiddle(add, cmp, app, InsertOrdered(cmp, app, add), t);
    }

    /** HASH_ADD_INORDER: insert behind every element that does not compare greater. */
    method AddInOrder(add: Handle, cmp: (Handle, Handle) -> int)
      requires Valid() && add !in s.App()
      modifies this, buckets, bloomBv, s.App(), add
      ensures Valid() && s == HashModel.AddInOrder(cfg, old(s), add, cmp)
      ensures (buckets == old(buckets) || fresh(buckets)) && (bloomBv == old(bloomBv) || fresh(bloomBv))
    {
      AddInOrderKeepsInv(cfg, s, add, cmp);
      if head == null {
        AddFirst(add);
      } else {
        AddSorted(add, cmp, s.app, s.t);
      }
    }
  
    /** The application-order half of a deletion; `k` is the position of `del`. */
    method UnlinkApp(del: Handle, ghost app: seq<Handle>, ghost k: nat, ghost app': seq<Handle>)
      requires AppOk(app) && NoDup(app) && |app| > 1 && k < |app| && app[k] == del && app' == RemoveAt(app, k)
      modifies `head, `tail, app`next, app`prev
      ensures AppOk(app')
    {
      assert del.prev == Pred(app, k) && del.next == Succ(app, k);
      if del == tail {
        assert k == |app| - 1;
        tail := del.prev;
      }
      if del.prev == null {
        head := del.next;
      }
      UnlinkAt(del, app, k);
    }

    /** The bucket half of a deletion. */
    method UnlinkBucket(del: Handle, ghost t: Table, ghost b: nat,
                        ghost chains': seq<seq<Handle>>, ghost S: set<Handle>)
      requires Shaped(t) && ChainsApart(t.chains) && b == Home(cfg, del, t.log2) && del in t.chains[b]
      requires TblRep(t, S) && del.hashv == cfg.hash(del.key)
      requires chains' == t.chains[b := RemoveAt(t.chains[b], IndexOf(t.chains[b], del))]
      modifies buckets, S`hhPrev, S`hhNext
      ensures TblRep(t.(chains := chains'), S)
    {
      var bkt := And(del.hashv, numBuckets - 1);
      assert bkt == b;
      Unlink(buckets, bkt, del, t.chains, t.mults, S, IndexOf(t.chains[b], del));
    }

    ghost predicate ChainsWithin(chains: seq<seq<Handle>>, S: set<Handle>) {
      forall b, i {:trigger chains[b][i]} :: 0 <= b < |chains| && 0 <= i < |chains[b]| ==> chains[b][i] in S
    }

    lemma DistributedWithin(chains: seq<seq<Handle>>, log2: nat, app: seq<Handle>)
      requires Distributed(cfg, chains, log2, app)
      ensures ChainsWithin(chains, Elems(app))
    {
      forall b, i | 0 <= b < |chains| && 0 <= i < |chains[b]| ensures chains[b][i] in Elems(app) {
        assert chains[b][i] in chains[b];
      }
    }

    /** The chains lost no handle that is still in the order, so they fit in the smaller set. */
    lemma Narrow(t: Table, S: set<Handle>, S': set<Handle>)
      requires TblRep(t, S) && HashvOk(cfg, S) && S' <= S && ChainsWithin(t.chains, S')
      ensures TblRep(t, S') && HashvOk(cfg, S')
    {
    }

    /** Both unlinkings; the handles are still seen as members of the old order. */
    method UnlinkBoth(del: Handle, ghost app: seq<Handle>, ghost t: Table, ghost b: nat,
                      ghost app': seq<Handle>, ghost chains': seq<seq<Handle>>)
      requires AppOk(app) && HashvOk(cfg, Elems(app)) && TblRep(t, Elems(app))
      requires NoDup(app) && |app| > 1 && del in app && app' == RemoveAt(app, IndexOf(app, del))
      requires Shaped(t) && ChainsApart(t.chains) && b == Home(cfg, del, t.log2) && del in t.chains[b]
      requires chains' == t.chains[b := RemoveAt(t.chains[b], IndexOf(t.chains[b], del))]
      modifies `head, `tail, buckets, app`next, app`prev, app`hhPrev, app`hhNext
      ensures AppOk(app') && TblRep(t.(chains := chains'), Elems(app))
    {
      UnlinkApp(del, app, IndexOf(app, del), app');
      UnlinkBucket(del, t, b, chains', Elems(app));
    }

    /** A deletion that leaves the table non-empty. */
    method DeleteOne(del: Handle, ghost app: seq<Handle>, ghost t: Table, ghost b: nat,
                     ghost app': seq<Handle>, ghost chains': seq<seq<Handle>>)
      requires Rep(app, t) && NoDup(app) && |app| > 1 && del in app
      requires Shaped(t) && ChainsApart(t.chains) && b == Home(cfg, del, t.log2) && del in t.chains[b]
      requires app' == RemoveAt(app, IndexOf(app, del)) && Elems(app') <= Elems(app)
      requires chains' == t.chains[b := RemoveAt(t.chains[b], IndexOf(t.chains[b], del))]
      requires ChainsWithin(chains', Elems(app'))
      modifies `head, `tail, `numItems, buckets, app
      ensures Rep(app', t.(chains := chains'))
    {
      UnlinkBoth(del, app, t, b, app', chains');
      CountDown(app, app', t.(chains := chains'));
    }

    method CountDown(ghost app: seq<Handle>, ghost app': seq<Handle>, ghost t': Table)
      requires AppOk(app') && TblRep(t', Elems(app)) && HashvOk(cfg, Elems(app)) && BloomOk(t'.bloom)
      requires numItems == |app'| + 1 && Elems(app') <= Elems(app) && ChainsWithin(t'.chains, Elems(app'))
      modifies `numItems
      ensures Rep(app', t')
    {
      numItems := numItems - 1;
      Narrow(t', Elems(app), Elems(app'));
    }

    method DeleteKeepsRep(del: Handle, ghost app: seq<Handle>, ghost t: Table, ghost s': State)
      requires Rep(app, t) && |app| > 1 && del in app && Inv(cfg, State(app, t))
      requires del in t.chains[Home(cfg, del, t.log2)]
      requires s' == HashModel.Delete(cfg, State(app, t), del) && Inv(cfg, s')
      modifies `head, `tail, `numItems, buckets, app
      ensures Rep(s'.app, s'.t)
    {
      DeleteApp(cfg, State(app, t), del);
      DistributedWithin(s'.t.chains, s'.t.log2, s'.app);
      DistributedApart(cfg, t.chains, t.log2, app);
      DeleteOne(del, app, t, Home(cfg, del, t.log2), s'.app, s'.t.chains);
    }

    /** HASH_DELETE: unlink from both lists; the last element takes the table with it. */
    method Delete(del: Handle)
      requires Valid() && del in s.App()
      modifies this, buckets, s.App()
      ensures Valid() && old(s).State? && del in old(s).t.chains[Home(cfg, del, old(s).t.log2)]
      ensures s == HashModel.Delete(cfg, old(s), del)
      ensures buckets == old(buckets) && bloomBv == old(bloomBv)
    {
      DeleteKeepsInv(cfg, s, del);
      DeleteFrom(del, s.app, s.t, HashModel.Delete(cfg, s, del));
    }

    method DeleteFrom(del: Handle, ghost app: seq<Handle>, ghost t: Table, ghost s': State)
      requires Rep(app, t) && del in app && Inv(cfg, State(app, t))
      requires del in t.chains[Home(cfg, del, t.log2)]
      requires s' == HashModel.Delete(cfg, State(app, t), del) && Inv(cfg, s')
      modifies `head, `tail, `numItems, `s, buckets, app
      ensures s == s' && if s'.NoTable? then head == null else Rep(s'.app, s'.t)
    {
      ghost var k := IndexOf(app, del);
      assert del.prev == Pred(app, k) && del.next == Succ(app, k);
      if del.prev == null && del.next == null {
        head := null;
      } else {
        DeleteKeepsRep(del, app, t, s');
      }
      Become(s');
    }

    /** The table now represents `s'`. */
    ghost method Become(s': State)
      requires if s'.NoTable? then head == null else Rep(s'.app, s'.t)
      modifies `s
      ensures s == s' && if s'.NoTable? then head == null else Rep(s'.app, s'.t)
    {
      s := s';
    }
  
    /** HASH_BLOOM_TEST, constantly true without the compile-time option. */
    method BloomPasses(hashv: nat, ghost t: Table) returns (pass: bool)
      requires BloomOk(t.bloom)
      ensures cfg.useBloom ==> (pass <==> BloomIndex(cfg, hashv) in t.bloom)
      ensures !cfg.useBloom ==> pass
    {
      pass := true;
      if cfg.useBloom {
        var idx := And(hashv, Pow2(cfg.nbits) - 1);
        assert idx == BloomIndex(cfg, hashv);
        pass := BitTest(bloomBv, idx, t.bloom, cfg.nbits);
      }
    }

    method FindInTable(key: Key, hashv: nat, ghost app: seq<Handle>, ghost t: Table) returns (out: Handle?)
      requires Rep(app, t) && Shaped(t) && hashv == cfg.hash(key)
      ensures out == if BloomTest(cfg, t, hashv) then FindInBkt(cfg, t.chains[BktOf(hashv, t.log2)], key) else null
    {
      out := null;
      var bkt := And(hashv, numBuckets - 1);
      assert bkt == BktOf(hashv, t.log2);
      var pass := BloomPasses(hashv, t);
      if pass {
        ghost var chain := t.chains[bkt];
        assert buckets[..][bkt] == buckets[bkt];
        assert forall h :: h in chain ==> h in Elems(app);
        out := FindInChain(buckets[bkt].hhHead, key, hashv, cfg, chain);
      }
    }

    /** HASH_FIND: the element with the key, or null if there is none. */
    method Find(key: Key) returns (out: Handle?)
      requires Valid()
      ensures out == HashModel.Find(cfg, s, key)
      ensures out != null ==> out in s.App() && out.key == key
      ensures out == null ==> forall h :: h in s.App() ==> h.key != key
    {
      out := null;
      FindIsLookup(cfg, s, key);
      if head != null {
        var hashv := cfg.hash(key);
        out := FindInTable(key, hashv, s.app, s.t);
      }
    }

    /** The first half of HASH_REPLACE: find the key and delete its element. */
    method RemoveKey(key: Key) returns (replaced: Handle?)
      requires Valid()
      modifies this, buckets, s.App()
      ensures Valid() && Inv(cfg, old(s)) && replaced == HashModel.Find(cfg, old(s), key)
      ensures (replaced != null ==> replaced in old(s).App()) && s == Without(cfg, old(s), replaced)
      ensures forall h :: h in s.App() <==> h in old(s).App() && h != replaced
      ensures buckets == old(buckets) && bloomBv == old(bloomBv)
    {
      replaced := Find(key);
      if replaced != null {
        Delete(replaced);
      }
      WithoutMembers(cfg, old(s), replaced);
    }

    /** HASH_REPLACE: the element with the same key, if any, makes room for `add`. */
    method Replace(add: Handle) returns (replaced: Handle?)
      requires Valid() && Replaceable(cfg, s, add)
      modifies this, buckets, bloomBv, s.App(), add
      ensures Valid() && Inv(cfg, old(s))
      ensures s == HashRefinement.Replace(cfg, old(s), add).0 && replaced == HashModel.Find(cfg, old(s), add.key)
      ensures (buckets == old(buckets) || fresh(buckets)) && (bloomBv == old(bloomBv) || fresh(bloomBv))
    {
      replaced := RemoveKey(add.key);
      Add(add);
    }

    /** HASH_REPLACE_INORDER: the same, with ordered insertion. */
    method ReplaceInOrder(add: Handle, cmp: (Handle, Handle) -> int) returns (replaced: Handle?)
      requires Valid() && Replaceable(cfg, s, add)
      modifies this, buckets, bloomBv, s.App(), add
      ensures Valid() && Inv(cfg, old(s))
      ensures s == HashRefinement.ReplaceInOrder(cfg, old(s), add, cmp).0
      ensures replaced == HashModel.Find(cfg, old(s), add.key)
      ensures (buckets == old(buckets) || fresh(buckets)) && (bloomBv == old(bloomBv) || fresh(bloomBv))
    {
      replaced := RemoveKey(add.key);
      AddInOrder(add, cmp);
    }

    method SortTable(cmp: (Handle, Handle) -> int, ghost app: seq<Handle>)
      requires AppOk(app) && NoDup(app) && app != []
      modifies `head, `tail, app`next, app`prev
      ensures AppOk(MergeSort(cmp, app)) && Elems(MergeSort(cmp, app)) == Elems(app)
    {
      assert forall h :: h in Elems(app) ==> h in app;
      ghost var out;
      head, tail, out := SortList(cmp, head, app, Elems(app));
      SortFromKeepsElements(cmp, app, 1);
      SameElems(app, out);
    }

    method SortFrom(cmp: (Handle, Handle) -> int, ghost app: seq<Handle>, ghost out: seq<Handle>, ghost t: Table)
      requires Rep(app, t) && NoDup(app) && app != [] && out == MergeSort(cmp, app)
      modifies `head, `tail, `s, app`next, app`prev
      ensures s == State(out, t) && Rep(out, t)
    {
      SortTable(cmp, app);
      Resettle(app, out, t);
    }

    /** The same handles in another order. */
    ghost method Resettle(app: seq<Handle>, out: seq<Handle>, t: Table)
      requires AppOk(out) && numItems == |out| && HashvOk(cfg, Elems(app)) && TblRep(t, Elems(app)) && BloomOk(t.bloom)
      requires Elems(out) == Elems(app)
      modifies `s
      ensures s == State(out, t) && Rep(out, t)
    {
      s := State(out, t);
    }

    /** HASH_SRT: sort the application order in place; no bucket is touched. */
    method Sort(cmp: (Handle, Handle) -> int)
      requires Valid()
      modifies this, s.App()
      ensures Valid() && s == HashModel.Sort(old(s), cmp)
      ensures buckets == old(buckets) && bloomBv == old(bloomBv)
    {
      SortKeepsInv(cfg, s, cmp);
      if head != null {
        SortFrom(cmp, s.app, MergeSort(cmp, s.app), s.t);
      }
    }

    /** HASH_COUNT. */
    method Count() returns (n: nat)
      requires Valid()
      ensures n == |s.App()|
    {
      n := if head != null then numItems else 0;
    }
  
    /** Following `next` from the head visits `app` and ends. */
    ghost predicate OrderWalk(app: seq<Handle>)
      reads `head, app`next
    {
      head == First(app) && forall i {:trigger app[i].next} :: 0 <= i < |app| ==> app[i].next == Succ(app, i)
    }

    ghost predicate OrderMirrored(app: seq<Handle>)
      reads app`prev
    {
      forall i {:trigger app[i].prev} :: 0 <= i < |app| ==> app[i].prev == Pred(app, i)
    }

    /** The second half of HASH_FSCK: walk the application order, check every `prev`, count. */
    method CheckOrder(ghost app: seq<Handle>) returns (ok: bool, count: nat)
      requires OrderWalk(app)
      ensures ok <==> OrderMirrored(app)
      ensures count == |app|
    {
      ok, count := true, 0;
      var thh := head;
      var prev: Handle? := null;
      while thh != null
        invariant count <= |app| && thh == At(app, count) && prev == Pred(app, count)
        invariant ok <==> forall i {:trigger app[i].prev} :: 0 <= i < count ==> app[i].prev == Pred(app, i)
        decreases |app| - count
      {
        if prev != thh.prev {
          ok := false;
        }
        count := count + 1;
        prev := thh;
        thh := thh.next;
      }
    }

    /** HASH_FSCK on any table whose lists can be walked: it finds nothing wrong exactly when all links
        are mirrored, all bucket counts are exact, and both lists hold `numItems` handles. */
    method Fsck(ghost app: seq<Handle>, ghost chains: seq<seq<Handle>>, ghost S: set<Handle>) returns (ok: bool)
      requires head != null ==>
        OrderWalk(app) && numBuckets <= buckets.Length && BucketsWalk(buckets[..numBuckets], chains, S)
      ensures ok <==> (head == null ||
        (OrderMirrored(app) && |app| == numItems && SumLengths(chains) == numItems &&
         forall b :: 0 <= b < |chains| ==> ChainMirrored(chains[b]) && buckets[b].count == |chains[b]|))
    {
      ok := true;
      if head != null {
        var linked, count := CheckBuckets(buckets, numBuckets, chains, S);
        var ordered, items := CheckOrder(app);
        ok := linked && count == numItems && ordered && items == numItems;
      }
    }

    /** The library's own integrity check passes in every valid state. */
    method FsckPasses() returns (ok: bool)
      requires Valid()
      ensures ok
    {
      if head == null {
        ok := Fsck([], [], {});
      } else {
        ChainsHoldTheItems(cfg, s);
        assert buckets[..numBuckets] == buckets[..];
        assert forall b {:trigger buckets[b]} :: 0 <= b < buckets.Length ==> buckets[..][b] == buckets[b];
        ok := Fsck(s.app, s.t.chains, Elems(s.app));
      }
    }
  }
}
