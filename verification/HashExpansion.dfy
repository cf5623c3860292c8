/** What one bucket expansion computes: the ideal chain length, the number of items beyond it,
    the per-bucket multipliers, and where each item goes. */
module HashExpansion {
  import opened Bits
  import opened Handles
  import opened HashModel
  import opened HashInvariant

  /** The shift-and-mask formula is the ceiling of items / buckets. */
  lemma IdealIsCeiling(items: nat, log2: nat)
    ensures var ideal := IdealLength(items, log2); var n := Pow2(log2 + 1);
      items <= ideal * n < items + n
  {
    AndMaskIsMod(items, log2 + 1);
    ShrIsDiv(items, log2 + 1);
    CeilingByRemainder(items, Pow2(log2 + 1));
  }

  lemma CeilingByRemainder(a: nat, n: nat)
    requires n > 0
    ensures var q := a / n + (if a % n != 0 then 1 else 0); a <= q * n < a + n
  {
    var q, r := a / n, a % n;
    assert a == q * n + r;
    assert (q + 1) * n == q * n + n;
  }

  // ---------------------------------------------------------------- multipliers

  /** The multiplier a bucket has after receiving `count` items. */
  function MultOf(count: nat, ideal: nat): nat {
    if count == 0 then 0
    else
      var m := MultOf(count - 1, ideal);
      if count > ideal && count > m * ideal then m + 1 else m
  }

  function CeilDiv(a: nat, b: nat): nat
    requires b > 0
  {
    (a + b - 1) / b
  }

  /** The multiplier in closed form: nothing up to the ideal length, beyond it the rounded-up
      quotient, approached by at most one step per item. */
  lemma {:induction false} MultOfClosedForm(count: nat, ideal: nat)
    requires ideal > 0
    ensures MultOf(count, ideal) == if count <= ideal then 0
            else if count - ideal < CeilDiv(count, ideal) then count - ideal else CeilDiv(count, ideal)
  {
    if count > 0 {
      MultOfClosedForm(count - 1, ideal);
      if count > ideal {
        CeilStep(count, ideal, MultOf(count - 1, ideal));
        CeilBound(count, ideal, 1);
      }
    }
  }

  /** How the rounded-up quotient moves when the dividend grows by one. */
  lemma CeilStep(count: nat, ideal: nat, m: nat)
    requires 0 < ideal < count
    ensures CeilDiv(count, ideal) <= m <==> count <= m * ideal
    ensures CeilDiv(count - 1, ideal) <= CeilDiv(count, ideal) <= CeilDiv(count - 1, ideal) + 1
    ensures CeilDiv(count, ideal) <= count
  {
    CeilBound(count, ideal, m);
    var c := CeilDiv(count - 1, ideal);
    CeilBound(count - 1, ideal, c);
    CeilBound(count, ideal, c + 1);
    assert (c + 1) * ideal == c * ideal + ideal;
    var d := CeilDiv(count, ideal);
    CeilBound(count, ideal, d);
    CeilBound(count - 1, ideal, d);
    CeilBound(count, ideal, count);
    MulGap(count, ideal);
  }

  lemma CeilBound(a: nat, b: nat, m: nat)
    requires b > 0
    ensures CeilDiv(a, b) <= m <==> a <= m * b
  {
    var q, r := (a + b - 1) / b, (a + b - 1) % b;
    assert a + b - 1 == q * b + r;
    assert (m - q) * b == m * b - q * b;
    MulGap(b, m - q);
  }

  lemma {:induction false} MultOfBoundsCount(count: nat, ideal: nat)
    requires ideal > 0
    ensures count <= (MultOf(count, ideal) + 1) * ideal
  {
    if count > 0 {
      var m := MultOf(count - 1, ideal);
      MultOfBoundsCount(count - 1, ideal);
      assert (m + 2) * ideal == (m + 1) * ideal + ideal;
      assert (m + 1) * ideal == m * ideal + ideal;
      assert m * ideal >= 0;
    }
  }

  // ---------------------------------------------------------------- items beyond the ideal length

  function Excess(length: nat, ideal: nat): nat {
    if length > ideal then length - ideal else 0
  }

  function SumExcess(chains: seq<seq<Handle>>, ideal: nat): nat {
    if chains == [] then 0 else Excess(|chains[0]|, ideal) + SumExcess(chains[1..], ideal)
  }

  lemma {:induction false} SumExcessEmpty(chains: seq<seq<Handle>>, ideal: nat)
    requires forall b :: 0 <= b < |chains| ==> chains[b] == []
    ensures SumExcess(chains, ideal) == 0
  {
    if chains != [] {
      SumExcessEmpty(chains[1..], ideal);
    }
  }

  lemma {:induction false} SumExcessUpdate(chains: seq<seq<Handle>>, b: nat, chain: seq<Handle>, ideal: nat)
    requires b < |chains|
    ensures SumExcess(chains[b := chain], ideal) + Excess(|chains[b]|, ideal)
         == SumExcess(chains, ideal) + Excess(|chain|, ideal)
  {
    if b == 0 {
      assert chains[0 := chain][1..] == chains[1..];
    } else {
      assert chains[b := chain][1..] == chains[1..][b - 1 := chain];
      SumExcessUpdate(chains[1..], b - 1, chain, ideal);
    }
  }

  /** The counters kept while items are moved describe the chains built so far. */
  ghost predicate StatsOk(r: Redist, ideal: nat) {
    && |r.chains| == |r.mults|
    && (forall b :: 0 <= b < |r.chains| ==> r.mults[b] == MultOf(|r.chains[b]|, ideal))
    && r.nonideal == SumExcess(r.chains, ideal)
  }

  lemma {:induction false} MoveItemsStats(cfg: Config, r: Redist, items: seq<Handle>, ideal: nat, log2: nat)
    requires |r.chains| == |r.mults| == Pow2(log2) && StatsOk(r, ideal)
    ensures StatsOk(MoveItems(cfg, r, items, ideal, log2), ideal)
    decreases |items|
  {
    if items != [] {
      var b := Home(cfg, items[0], log2);
      SumExcessUpdate(r.chains, b, [items[0]] + r.chains[b], ideal);
      MoveItemsStats(cfg, MoveItem(cfg, r, items[0], ideal, log2), items[1..], ideal, log2);
    }
  }

  /** Main result on the statistics of an expansion of a table with items in it. */
  lemma ExpandStatistics(cfg: Config, t: Table, items: nat)
    requires Shaped(t) && items > 0
    ensures var t' := Expand(cfg, t, items); var n := |t'.chains|;
      && n == 2 * |t.chains| && t'.log2 == t.log2 + 1
      && t'.ideal > 0 && items <= t'.ideal * n < items + n
      && t'.nonideal == SumExcess(t'.chains, t'.ideal)
      && (forall b :: 0 <= b < n ==> t'.mults[b] == MultOf(|t'.chains[b]|, t'.ideal))
      && (forall b :: 0 <= b < n ==> |t'.chains[b]| <= (t'.mults[b] + 1) * t'.ideal)
  {
    var ideal := IdealLength(items, t.log2);
    var r := Redist(EmptyChains(t.log2 + 1), Zeros(t.log2 + 1), 0);
    IdealIsCeiling(items, t.log2);
    assert ideal > 0;
    SumExcessEmpty(r.chains, ideal);
    MoveItemsStats(cfg, r, Flatten(t.chains), ideal, t.log2 + 1);
    var t' := Expand(cfg, t, items);
    forall b | 0 <= b < |t'.chains| ensures |t'.chains[b]| <= (t'.mults[b] + 1) * t'.ideal {
      MultOfBoundsCount(|t'.chains[b]|, ideal);
    }
  }

  /** Expansion is switched off exactly by the second ineffective doubling in a row. */
  lemma ExpandCutOff(cfg: Config, t: Table, items: nat)
    requires Shaped(t) && items > 0
    ensures var t' := Expand(cfg, t, items);
      && t'.ineff == (if SumExcess(t'.chains, t'.ideal) > items / 2 then t.ineff + 1 else 0)
      && (t'.noexpand <==> t.noexpand || t'.ineff >= 2)
  {
    ExpandStatistics(cfg, t, items);
    ShrIsDiv(items, 1);
    assert Pow2(1) == 2;
  }

  // ---------------------------------------------------------------- where the items go

  /** The items of `s` that belong to bucket `b`, last one first: pushing on the front reverses. */
  function Pushed(cfg: Config, s: seq<Handle>, b: nat, log2: nat): seq<Handle> {
    if s == [] then []
    else Pushed(cfg, s[1..], b, log2) + (if Home(cfg, s[0], log2) == b then [s[0]] else [])
  }

  lemma {:induction false} PushedConcat(cfg: Config, s: seq<Handle>, u: seq<Handle>, b: nat, log2: nat)
    ensures Pushed(cfg, s + u, b, log2) == Pushed(cfg, u, b, log2) + Pushed(cfg, s, b, log2)
  {
    if s == [] {
      assert s + u == u;
    } else {
      assert (s + u)[1..] == s[1..] + u;
      PushedConcat(cfg, s[1..], u, b, log2);
    }
  }

  lemma {:induction false} MoveItemsChain(cfg: Config, r: Redist, items: seq<Handle>, ideal: nat, log2: nat, b: nat)
    requires |r.chains| == |r.mults| == Pow2(log2) && b < Pow2(log2)
    ensures MoveItems(cfg, r, items, ideal, log2).chains[b] == Pushed(cfg, items, b, log2) + r.chains[b]
    decreases |items|
  {
    if items != [] {
      var r1 := MoveItem(cfg, r, items[0], ideal, log2);
      MoveItemsChain(cfg, r1, items[1..], ideal, log2, b);
    }
  }

  /** The old bucket of an item is its new one taken modulo the old number of buckets. */
  lemma HomeSplits(cfg: Config, h: Handle, log2: nat)
    ensures var old_b := Home(cfg, h, log2); var new_b := Home(cfg, h, log2 + 1);
      new_b == old_b || new_b == old_b + Pow2(log2)
  {
    ModSplits(cfg.hash(h.key), Pow2(log2), Pow2(log2 + 1));
  }

  lemma ModSplits(v: nat, n: nat, m: nat)
    requires n > 0 && m == 2 * n
    ensures v % m == v % n || v % m == v % n + n
  {
    var q, r := Quotient(v, m), Remainder(v, m);
    DivisionIdentity(v, m);
    Twice(n, m, q);
    if r < n {
      ModUnique(v, n, 2 * q, r);
    } else {
      ModUnique(v, n, 2 * q + 1, r - n);
    }
  }

  lemma Twice(n: nat, m: nat, q: nat)
    requires m == 2 * n
    ensures n * (2 * q) == m * q && n * (2 * q + 1) == m * q + n
  {
    calc {
      n * (2 * q);
      (2 * n) * q;
      m * q;
    }
  }

  lemma {:induction false} PushedNone(cfg: Config, s: seq<Handle>, b: nat, log2: nat)
    requires forall h :: h in s ==> Home(cfg, h, log2) != b
    ensures Pushed(cfg, s, b, log2) == []
  {
    if s != [] {
      PushedNone(cfg, s[1..], b, log2);
    }
  }

  /** Only the chain of bucket `i` contributes to the new bucket `b`. */
  lemma {:induction false} PushedFlatten(cfg: Config, chains: seq<seq<Handle>>, i: nat, b: nat, log2: nat)
    requires i < |chains|
    requires forall j, h :: 0 <= j < |chains| && j != i && h in chains[j] ==> Home(cfg, h, log2) != b
    ensures Pushed(cfg, Flatten(chains), b, log2) == Pushed(cfg, chains[i], b, log2)
    decreases |chains|
  {
    var rest := chains[1..];
    assert forall j :: 0 <= j < |rest| ==> rest[j] == chains[j + 1];
    PushedConcat(cfg, chains[0], Flatten(rest), b, log2);
    if i == 0 {
      forall h | h in Flatten(rest) ensures Home(cfg, h, log2) != b {
        FlattenElems(rest, h);
      }
      PushedNone(cfg, Flatten(rest), b, log2);
    } else {
      PushedNone(cfg, chains[0], b, log2);
      PushedFlatten(cfg, rest, i - 1, b, log2);
    }
  }

  /** Main result on the movement of items: the new bucket `b` is, in reverse, the part of the old
      bucket `b mod n` whose hash selects `b`; so bucket i is split between i and i + n only. */
  lemma ExpandSplitsBuckets(cfg: Config, t: Table, app: seq<Handle>, items: nat, b: nat)
    requires TableInv(cfg, t, app) && b < 2 * |t.chains|
    ensures var n := |t.chains|; var t' := Expand(cfg, t, items);
      && |t'.chains| == 2 * n
      && t'.chains[b] == Pushed(cfg, t.chains[if b < n then b else b - n], b, t.log2 + 1)
  {
    var n := |t.chains|;
    var i := if b < n then b else b - n;
    forall j, h | 0 <= j < n && j != i && h in t.chains[j] ensures Home(cfg, h, t.log2 + 1) != b {
      HomeSplits(cfg, h, t.log2);
    }
    PushedFlatten(cfg, t.chains, i, b, t.log2 + 1);
    ExpandedChain(cfg, t, items, b);
  }

  lemma ExpandedChain(cfg: Config, t: Table, items: nat, b: nat)
    requires Shaped(t) && b < 2 * |t.chains|
    ensures |Expand(cfg, t, items).chains| == 2 * |t.chains|
    ensures Expand(cfg, t, items).chains[b] == Pushed(cfg, Flatten(t.chains), b, t.log2 + 1)
  {
    var ideal := IdealLength(items, t.log2);
    MoveItemsChain(cfg, Redist(EmptyChains(t.log2 + 1), Zeros(t.log2 + 1), 0), Flatten(t.chains), ideal, t.log2 + 1, b);
  }
}
