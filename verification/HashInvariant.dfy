/** Every macro keeps the full invariant: each element once in the application order and once
    in the one chain its hash selects, through insertions, deletions, expansions and sorts. */
module HashInvariant {
  import opened Bits
  import opened Sequences
  import opened Handles
  import opened StableSort
  import opened HashModel

  // ---------------------------------------------------------------- sequences without duplicates

  lemma RemoveAtNoDup<T>(s: seq<T>, k: nat)
    requires NoDup(s) && k < |s|
    ensures NoDup(RemoveAt(s, k))
    ensures forall x :: x in RemoveAt(s, k) <==> x in s && x != s[k]
  {
    var r := RemoveAt(s, k);
    forall x ensures x in r <==> x in s && x != s[k] {
      if x in s && x != s[k] {
        var i :| 0 <= i < |s| && s[i] == x;
        assert r[if i < k then i else i - 1] == x;
      }
      if x in r {
        var i :| 0 <= i < |r| && r[i] == x;
        assert s[if i < k then i else i + 1] == x;
      }
    }
  }

  lemma PushNoDup<T>(s: seq<T>, x: T)
    requires NoDup(s) && x !in s
    ensures NoDup([x] + s)
  {
  }

  lemma InsertNoDup<T>(s: seq<T>, k: nat, x: T)
    requires NoDup(s) && x !in s && k <= |s|
    ensures NoDup(s[..k] + [x] + s[k..])
    ensures forall y :: y in s[..k] + [x] + s[k..] <==> y in s || y == x
  {
    assert s == s[..k] + s[k..];
  }

  lemma {:induction false} NoDupCount<T>(s: seq<T>, x: T)
    requires NoDup(s)
    ensures multiset(s)[x] == if x in s then 1 else 0
  {
    if s != [] {
      assert s == [s[0]] + s[1..];
      assert NoDup(s[1..]);
      NoDupCount(s[1..], x);
    }
  }

  lemma {:induction false} CountNoDup<T>(s: seq<T>)
    requires forall x :: x in s ==> multiset(s)[x] == 1
    ensures NoDup(s)
  {
    forall i, j | 0 <= i < j < |s| ensures s[i] != s[j] {
      assert s == s[..i] + [s[i]] + s[i + 1..j] + [s[j]] + s[j + 1..];
      assert s[i] == s[j] ==> multiset(s)[s[i]] >= 2;
    }
  }

  lemma PermutationNoDup<T>(s: seq<T>, r: seq<T>)
    requires NoDup(s) && multiset(s) == multiset(r)
    ensures NoDup(r) && |r| == |s|
    ensures forall x :: x in r <==> x in s
  {
    forall x ensures x in r <==> x in s {
      assert x in multiset(r) <==> x in multiset(s);
    }
    forall x | x in r ensures multiset(r)[x] == 1 {
      NoDupCount(s, x);
    }
    CountNoDup(r);
    assert |multiset(s)| == |s| && |multiset(r)| == |r|;
  }

  lemma SameElementsPermute<T>(s: seq<T>, t: seq<T>)
    requires NoDup(s) && NoDup(t)
    requires forall x :: x in s <==> x in t
    ensures multiset(s) == multiset(t)
  {
    forall x | x in multiset(s) + multiset(t) ensures multiset(s)[x] == multiset(t)[x] {
      NoDupCount(s, x);
      NoDupCount(t, x);
    }
    assert multiset(s) <= multiset(t) && multiset(t) <= multiset(s);
  }

  lemma ConcatNoDup<T>(s: seq<T>, t: seq<T>)
    requires NoDup(s) && NoDup(t) && forall x :: x in s ==> x !in t
    ensures NoDup(s + t)
  {
    var r := s + t;
    forall i, j | 0 <= i < j < |r| ensures r[i] != r[j] {
      if i < |s| <= j {
        assert r[i] in s && r[j] in t;
      }
    }
  }

  // ---------------------------------------------------------------- flattening

  lemma {:induction false} FlattenElems(chains: seq<seq<Handle>>, h: Handle)
    ensures h in Flatten(chains) <==> exists b :: 0 <= b < |chains| && h in chains[b]
  {
    if chains != [] {
      FlattenElems(chains[1..], h);
      if b :| 0 <= b < |chains| && h in chains[b] {
        assert b == 0 || h in chains[1..][b - 1];
      }
      if h in chains[0] {
        assert 0 < |chains| && h in chains[0];
      } else if c :| 0 <= c < |chains[1..]| && h in chains[1..][c] {
        assert h in chains[c + 1];
      }
    }
  }

  ghost predicate ChainsApart(chains: seq<seq<Handle>>) {
    && (forall b :: 0 <= b < |chains| ==> NoDup(chains[b]))
    && (forall b, c, h :: 0 <= b < c < |chains| && h in chains[b] ==> h !in chains[c])
  }

  lemma {:induction false} FlattenNoDup(chains: seq<seq<Handle>>)
    requires ChainsApart(chains)
    ensures NoDup(Flatten(chains))
  {
    if chains != [] {
      var rest := chains[1..];
      assert forall b :: 0 <= b < |rest| ==> rest[b] == chains[b + 1];
      FlattenNoDup(rest);
      forall h | h in chains[0] ensures h !in Flatten(rest) {
        FlattenElems(rest, h);
      }
      ConcatNoDup(chains[0], Flatten(rest));
    }
  }

  lemma DistributedFlatten(cfg: Config, chains: seq<seq<Handle>>, log2: nat, items: seq<Handle>)
    requires Distributed(cfg, chains, log2, items)
    ensures NoDup(Flatten(chains))
    ensures forall h :: h in Flatten(chains) <==> h in items
  {
    forall b, c, h | 0 <= b < c < |chains| && h in chains[b] ensures h !in chains[c] {
      assert Home(cfg, h, log2) == b;
    }
    FlattenNoDup(chains);
    forall h ensures h in Flatten(chains) <==> h in items {
      FlattenElems(chains, h);
    }
  }

  // ---------------------------------------------------------------- pushing, removing, expanding

  lemma PushDistributed(cfg: Config, chains: seq<seq<Handle>>, log2: nat, items: seq<Handle>, h: Handle)
    requires Distributed(cfg, chains, log2, items) && h !in items
    ensures var b := Home(cfg, h, log2); Distributed(cfg, chains[b := [h] + chains[b]], log2, items + [h])
  {
    var b := Home(cfg, h, log2);
    PushNoDup(chains[b], h);
  }

  lemma RemoveDistributed(cfg: Config, chains: seq<seq<Handle>>, log2: nat, items: seq<Handle>, k: nat, h: Handle)
    requires Distributed(cfg, chains, log2, items) && NoDup(items) && k < |items| && items[k] == h
    ensures h in chains[Home(cfg, h, log2)]
    ensures var b := Home(cfg, h, log2);
      Distributed(cfg, chains[b := RemoveAt(chains[b], IndexOf(chains[b], h))], log2, RemoveAt(items, k))
  {
    var b := Home(cfg, h, log2);
    assert h in items;
    RemoveAtNoDup(items, k);
    RemoveAtNoDup(chains[b], IndexOf(chains[b], h));
  }

  /** The same distribution serves every arrangement of the same items. */
  lemma RearrangeDistributed(cfg: Config, chains: seq<seq<Handle>>, log2: nat, items: seq<Handle>, items': seq<Handle>)
    requires Distributed(cfg, chains, log2, items)
    requires forall h :: h in items <==> h in items'
    ensures Distributed(cfg, chains, log2, items')
  {
  }

  lemma {:induction false} MoveItemsDistributed(cfg: Config, r: Redist, done: seq<Handle>, items: seq<Handle>,
                                                ideal: nat, log2: nat)
    requires |r.mults| == Pow2(log2) && Distributed(cfg, r.chains, log2, done) && NoDup(done + items)
    ensures Distributed(cfg, MoveItems(cfg, r, items, ideal, log2).chains, log2, done + items)
    decreases |items|
  {
    if items == [] {
      assert done + items == done;
    } else {
      assert items[0] !in done by {
        forall i | 0 <= i < |done| ensures done[i] != items[0] {
          assert (done + items)[i] != (done + items)[|done|];
        }
      }
      PushDistributed(cfg, r.chains, log2, done, items[0]);
      assert done + items == (done + [items[0]]) + items[1..];
      MoveItemsDistributed(cfg, MoveItem(cfg, r, items[0], ideal, log2), done + [items[0]], items[1..], ideal, log2);
    }
  }

  lemma RedistributeAll(cfg: Config, t: Table, items: seq<Handle>, ideal: nat)
    requires TableInv(cfg, t, items)
    ensures var r := Redist(EmptyChains(t.log2 + 1), Zeros(t.log2 + 1), 0);
      Distributed(cfg, MoveItems(cfg, r, Flatten(t.chains), ideal, t.log2 + 1).chains, t.log2 + 1, items)
  {
    var r := Redist(EmptyChains(t.log2 + 1), Zeros(t.log2 + 1), 0);
    var all := Flatten(t.chains);
    DistributedFlatten(cfg, t.chains, t.log2, items);
    assert [] + all == all;
    MoveItemsDistributed(cfg, r, [], all, ideal, t.log2 + 1);
    RearrangeDistributed(cfg, MoveItems(cfg, r, all, ideal, t.log2 + 1).chains, t.log2 + 1, all, items);
  }

  /** Doubling the bucket array keeps the table well distributed and its items unchanged. */
  lemma ExpandKeepsInv(cfg: Config, t: Table, items: seq<Handle>)
    requires TableInv(cfg, t, items) && !t.noexpand
    ensures TableInv(cfg, Expand(cfg, t, |items|), items)
  {
    RedistributeAll(cfg, t, items, IdealLength(|items|, t.log2));
  }

  /** The new item at the front of its chain, and its bit in the filter. */
  function Entered(cfg: Config, t: Table, h: Handle): Table
    requires Shaped(t)
  {
    var b := Home(cfg, h, t.log2);
    t.(chains := t.chains[b := [h] + t.chains[b]], bloom := t.bloom + {BloomIndex(cfg, cfg.hash(h.key))})
  }

  lemma EnteredKeepsInv(cfg: Config, t: Table, items: seq<Handle>, h: Handle)
    requires TableInv(cfg, t, items) && h !in items
    ensures TableInv(cfg, Entered(cfg, t, h), items + [h])
  {
    PushDistributed(cfg, t.chains, t.log2, items, h);
  }

  /** An expansion neither reads nor changes the filter. */
  lemma ExpandIgnoresBloom(cfg: Config, t: Table, items: nat, bloom: set<nat>)
    requires Shaped(t)
    ensures Expand(cfg, t, items).(bloom := bloom) == Expand(cfg, t.(bloom := bloom), items)
  {
  }

  lemma AddToTableExpands(cfg: Config, t: Table, h: Handle, items: nat)
    requires Shaped(t)
    ensures var t1 := Entered(cfg, t, h); var t2 := AddToTable(cfg, t, h, items);
      Shaped(t1) && (t2 == t1 || (!t1.noexpand && t2 == Expand(cfg, t1, items)))
  {
    var t1 := Entered(cfg, t, h);
    ExpandIgnoresBloom(cfg, t.(chains := t1.chains), items, t1.bloom);
  }

  lemma AddToTableKeepsInv(cfg: Config, t: Table, items: seq<Handle>, h: Handle)
    requires TableInv(cfg, t, items) && h !in items
    ensures TableInv(cfg, AddToTable(cfg, t, h, |items| + 1), items + [h])
  {
    EnteredKeepsInv(cfg, t, items, h);
    AddToTableExpands(cfg, t, h, |items| + 1);
    var t1 := Entered(cfg, t, h);
    if !t1.noexpand {
      ExpandKeepsInv(cfg, t1, items + [h]);
    }
  }

  lemma MakeTableInv(cfg: Config)
    ensures TableInv(cfg, MakeTable(), [])
  {
  }

  // ---------------------------------------------------------------- the macros

  lemma AddKeepsInv(cfg: Config, s: State, h: Handle)
    requires Inv(cfg, s) && h !in s.App()
    ensures Inv(cfg, Add(cfg, s, h))
  {
    if s.NoTable? {
      MakeTableInv(cfg);
      AddToTableKeepsInv(cfg, MakeTable(), [], h);
      assert [] + [h] == [h];
    } else {
      AddToTableKeepsInv(cfg, s.t, s.app, h);
    }
  }

  lemma {:induction false} AddInOrderKeepsInv(cfg: Config, s: State, h: Handle, cmp: (Handle, Handle) -> int)
    requires Inv(cfg, s) && h !in s.App()
    ensures Inv(cfg, AddInOrder(cfg, s, h, cmp))
  {
    AddKeepsInv(cfg, s, h);
    if s.State? {
      InsertNoDup(s.app, FirstGreater(cmp, s.app, h), h);
      RearrangeTable(cfg, AddToTable(cfg, s.t, h, |s.app| + 1), s.app + [h], InsertOrdered(cmp, s.app, h));
    }
  }

  lemma {:induction false} RearrangeTable(cfg: Config, t: Table, items: seq<Handle>, items': seq<Handle>)
    requires TableInv(cfg, t, items)
    requires forall h :: h in items <==> h in items'
    ensures TableInv(cfg, t, items')
  {
    RearrangeDistributed(cfg, t.chains, t.log2, items, items');
  }

  lemma DeleteKeepsInv(cfg: Config, s: State, h: Handle)
    requires Inv(cfg, s) && h in s.App()
    ensures h in s.t.chains[Home(cfg, h, s.t.log2)]
    ensures Inv(cfg, Delete(cfg, s, h))
  {
    var k := IndexOf(s.app, h);
    RemoveDistributed(cfg, s.t.chains, s.t.log2, s.app, k, h);
    RemoveAtNoDup(s.app, k);
  }

  lemma SortKeepsInv(cfg: Config, s: State, cmp: (Handle, Handle) -> int)
    requires Inv(cfg, s)
    ensures Inv(cfg, Sort(s, cmp))
    ensures s.State? ==> Sort(s, cmp).t == s.t && multiset(Sort(s, cmp).app) == multiset(s.app)
  {
    if s.State? {
      SortFromKeepsElements(cmp, s.app, 1);
      PermutationNoDup(s.app, MergeSort(cmp, s.app));
      RearrangeDistributed(cfg, s.t.chains, s.t.log2, s.app, MergeSort(cmp, s.app));
    }
  }

  // ---------------------------------------------------------------- the counts of HASH_FSCK

  function SumLengths(chains: seq<seq<Handle>>): nat {
    if chains == [] then 0 else |chains[0]| + SumLengths(chains[1..])
  }

  lemma {:induction false} SumLengthsIsFlat(chains: seq<seq<Handle>>)
    ensures SumLengths(chains) == |Flatten(chains)|
  {
    if chains != [] {
      SumLengthsIsFlat(chains[1..]);
    }
  }

  /** What HASH_FSCK counts: the chains together hold exactly the items of the application
      order, none lost and none twice. */
  lemma ChainsHoldTheItems(cfg: Config, s: State)
    requires Inv(cfg, s) && s.State?
    ensures multiset(Flatten(s.t.chains)) == multiset(s.app)
    ensures SumLengths(s.t.chains) == |s.app|
  {
    var f := Flatten(s.t.chains);
    DistributedFlatten(cfg, s.t.chains, s.t.log2, s.app);
    SameElementsPermute(f, s.app);
    SumLengthsIsFlat(s.t.chains);
    assert |multiset(f)| == |f| && |multiset(s.app)| == |s.app|;
  }
}
