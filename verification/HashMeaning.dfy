/** What the macros do to the whole table record, field by field and in numbers. */
module HashMeaning {
  import opened Bits
  import opened Sequences
  import opened Handles
  import opened HashModel
  import opened HashInvariant
  import opened HashExpansion
  import opened HashRefinement

  /** The table that an insertion starts from: a null head gets 32 empty buckets. */
  function TableOf(s: State): Table {
    if s.State? then s.t
    else Table(seq(32, _ => []), seq(32, _ => 0), 5, 0, 0, 0, false, {})
  }

  lemma FreshTable()
    ensures MakeTable() == TableOf(NoTable)
  {
    assert Pow2(2) == 4 && Pow2(4) == 16 && Pow2(5) == 32;
  }

  /** Twice the buckets: `t'` holds the items of `chains`, which number `items`, after one doubling. */
  ghost predicate DoubledFrom(cfg: Config, t: Table, chains: seq<seq<Handle>>, items: nat, t': Table) {
    var n := |chains|;
    && t'.log2 == t.log2 + 1 && |t'.chains| == |t'.mults| == 2 * n
    && (forall b :: 0 <= b < 2 * n ==> t'.chains[b] == Pushed(cfg, chains[if b < n then b else b - n], b, t'.log2))
    && items <= t'.ideal * (2 * n) < items + 2 * n
    && t'.nonideal == SumExcess(t'.chains, t'.ideal)
    && (forall b :: 0 <= b < 2 * n ==> t'.mults[b] == MultOf(|t'.chains[b]|, t'.ideal))
    && t'.ineff == (if t'.nonideal > items / 2 then t.ineff + 1 else 0)
    && (t'.noexpand <==> t.noexpand || t'.ineff >= 2)
  }

  /** `t'` is `t` after `h` has entered as item number `items`. */
  ghost predicate EnteredAs(cfg: Config, t: Table, h: Handle, items: nat, t': Table) {
    var v := cfg.hash(h.key);
    var n := |t.chains|;
    && n > 0 && n == |t.mults| && t'.bloom == t.bloom + {v % Pow2(cfg.nbits)}
    && var b := v % n;
       var chains := t.chains[b := [h] + t.chains[b]];
       if t.noexpand || |t.chains[b]| + 1 < (t.mults[b] + 1) * 10 then t' == t.(chains := chains, bloom := t'.bloom)
       else DoubledFrom(cfg, t, chains, items, t')
  }

  lemma ExpandDoubles(cfg: Config, t: Table, app: seq<Handle>)
    requires TableInv(cfg, t, app) && app != []
    ensures DoubledFrom(cfg, t, t.chains, |app|, Expand(cfg, t, |app|))
  {
    ExpandStatistics(cfg, t, |app|);
    ExpandCutOff(cfg, t, |app|);
    forall b | 0 <= b < 2 * |t.chains|
      ensures Expand(cfg, t, |app|).chains[b] ==
              Pushed(cfg, t.chains[if b < |t.chains| then b else b - |t.chains|], b, t.log2 + 1)
    {
      ExpandSplitsBuckets(cfg, t, app, |app|, b);
    }
  }

  /** Whether the chain of `h`, with `h` in it, has reached its limit. */
  predicate Full(cfg: Config, t: Table, h: Handle)
    requires |t.chains| == |t.mults| > 0
  {
    var b := cfg.hash(h.key) % |t.chains|;
    !t.noexpand && |t.chains[b]| + 1 >= (t.mults[b] + 1) * 10
  }

  lemma AddToTableCases(cfg: Config, t: Table, h: Handle, items: nat)
    requires Shaped(t)
    ensures var t1 := Entered(cfg, t, h);
      AddToTable(cfg, t, h, items) ==
        if Full(cfg, t, h) then Expand(cfg, t.(chains := t1.chains), items).(bloom := t1.bloom) else t1
  {
    ExpandIgnoresBloom(cfg, t.(chains := Entered(cfg, t, h).chains), items, Entered(cfg, t, h).bloom);
  }

  lemma AddToTableMeaning(cfg: Config, t: Table, app: seq<Handle>, h: Handle)
    requires TableInv(cfg, t, app) && h !in app
    ensures EnteredAs(cfg, t, h, |app| + 1, AddToTable(cfg, t, h, |app| + 1))
  {
    var t1 := Entered(cfg, t, h);
    AddToTableCases(cfg, t, h, |app| + 1);
    if Full(cfg, t, h) {
      FullMeaning(cfg, t, app, h);
    }
  }

  lemma FullMeaning(cfg: Config, t: Table, app: seq<Handle>, h: Handle)
    requires TableInv(cfg, t, app) && h !in app
    ensures var t1 := Entered(cfg, t, h);
      DoubledFrom(cfg, t, t1.chains, |app| + 1, Expand(cfg, t.(chains := t1.chains), |app| + 1).(bloom := t1.bloom))
  {
    var t1 := Entered(cfg, t, h);
    EnteredKeepsInv(cfg, t, app, h);
    ExpandDoubles(cfg, t1, app + [h]);
    DoublesIgnoring(cfg, t, t1, |app| + 1);
  }

  /** The doubling does not depend on the filter. */
  lemma DoublesIgnoring(cfg: Config, t: Table, t1: Table, items: nat)
    requires Shaped(t1) && t1 == t.(chains := t1.chains, bloom := t1.bloom)
    requires DoubledFrom(cfg, t1, t1.chains, items, Expand(cfg, t1, items))
    ensures DoubledFrom(cfg, t, t1.chains, items, Expand(cfg, t.(chains := t1.chains), items).(bloom := t1.bloom))
  {
    ExpandIgnoresBloom(cfg, t.(chains := t1.chains), items, t1.bloom);
  }

  /** Main result on insertion, plain and ordered, for every table: the element goes to the front of the
      chain its hash selects and its bit into the filter. The number of buckets and all statistics stay
      exactly if expansion is off or the chain, with the new element, is shorter than ten times its
      multiplier plus one; otherwise the table doubles once. A first element finds 32 empty buckets. */
  lemma AddMeaning(cfg: Config, s: State, h: Handle, cmp: (Handle, Handle) -> int)
    requires Inv(cfg, s) && h !in s.App()
    ensures Add(cfg, s, h).State? && AddInOrder(cfg, s, h, cmp).State?
    ensures EnteredAs(cfg, TableOf(s), h, |s.App()| + 1, Add(cfg, s, h).t)
    ensures EnteredAs(cfg, TableOf(s), h, |s.App()| + 1, AddInOrder(cfg, s, h, cmp).t)
  {
    if s.NoTable? {
      MakeTableInv(cfg);
      FreshTable();
      AddToTableMeaning(cfg, MakeTable(), [], h);
    } else {
      AddToTableMeaning(cfg, s.t, s.app, h);
    }
  }

  /** When the number of buckets changes. */
  lemma AddGrowsIff(cfg: Config, s: State, h: Handle)
    requires Inv(cfg, s) && h !in s.App()
    ensures var t, t' := TableOf(s), Add(cfg, s, h).t; var n := |t.chains|;
      && n > 0 && n == |t.mults| && var b := cfg.hash(h.key) % n;
      && (t'.log2 == t.log2 <==> t.noexpand || |t.chains[b]| + 1 < (t.mults[b] + 1) * 10)
      && (t'.log2 == t.log2 || t'.log2 == t.log2 + 1)
  {
    AddMeaning(cfg, s, h, (x, y) => 0);
  }

  /** Deletion takes the element out of its chain and changes nothing else in the table; the last
      element takes the table with it. */
  lemma DeleteMeaning(cfg: Config, s: State, h: Handle)
    requires Inv(cfg, s) && h in s.App()
    ensures h in s.t.chains[Home(cfg, h, s.t.log2)]
    ensures var n := |s.t.chains|; n > 0 && var b := cfg.hash(h.key) % n; var s' := Delete(cfg, s, h);
      if |s.app| == 1 then s' == NoTable
      else
        && s'.State? && s'.t == s.t.(chains := s.t.chains[b := s'.t.chains[b]])
        && exists k :: 0 <= k < |s.t.chains[b]| && s.t.chains[b][k] == h && s'.t.chains[b] == RemoveAt(s.t.chains[b], k)
  {
    DeleteKeepsInv(cfg, s, h);
    var chain := s.t.chains[Home(cfg, h, s.t.log2)];
    assert chain[IndexOf(chain, h)] == h;
  }

  /** `h` is in the chain, and no entry in front of it has the key. */
  ghost predicate FirstWithKey(chain: seq<Handle>, key: Key, h: Handle) {
    exists k :: 0 <= k < |chain| && chain[k] == h && forall i :: 0 <= i < k ==> chain[i].key != key
  }

  lemma {:induction false} FindInBktIsFirst(cfg: Config, chain: seq<Handle>, key: Key)
    ensures var h := FindInBkt(cfg, chain, key);
      h != null ==> h.key == key && FirstWithKey(chain, key, h)
  {
    if chain != [] && chain[0].key != key {
      FindInBktIsFirst(cfg, chain[1..], key);
      var h := FindInBkt(cfg, chain[1..], key);
      if h != null {
        var k :| 0 <= k < |chain| - 1 && chain[1..][k] == h && forall i :: 0 <= i < k ==> chain[1..][i].key != key;
        assert chain[k + 1] == h;
        forall i | 0 <= i < k + 1 ensures chain[i].key != key {
          assert i > 0 ==> chain[i] == chain[1..][i - 1];
        }
      }
    }
  }

  /** A lookup stops at the first entry of the chain that has the key. */
  lemma FindIsFirst(cfg: Config, s: State, key: Key)
    requires Inv(cfg, s) && s.State?
    ensures var n := |s.t.chains|; var h := Find(cfg, s, key);
      n > 0 && var chain := s.t.chains[cfg.hash(key) % n];
      h != null ==> h.key == key && FirstWithKey(chain, key, h)
  {
    FindInBktIsFirst(cfg, s.t.chains[BktOf(cfg.hash(key), s.t.log2)], key);
  }
}
