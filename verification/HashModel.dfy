/** The abstract state of a uthash table and what each macro does to it.
    A state is either "no table" (a null head pointer) or the application order together
    with the bucket chains, the per-bucket multipliers, the expansion statistics and the
    set of Bloom filter bits. The class in `UtHash` is proved to make exactly these steps. */
module HashModel {
  import opened Bits
  import opened Sequences
  import opened Handles
  import opened StableSort

  const INITIAL_LOG2_BUCKETS: nat := 5
  const BKT_CAPACITY_THRESH: nat := 10

  /** Compile-time choices: the hash function and the optional Bloom filter of 2^nbits bits. */
  datatype Config = Config(hash: Key -> nat, useBloom: bool, nbits: nat)

  datatype Table = Table(
    chains: seq<seq<Handle>>,
    mults: seq<nat>,
    log2: nat,
    ideal: nat,
    nonideal: nat,
    ineff: nat,
    noexpand: bool,
    bloom: set<nat>)

  datatype State = NoTable | State(app: seq<Handle>, t: Table) {
    function App(): seq<Handle> {
      if NoTable? then [] else app
    }
  }

  // ---------------------------------------------------------------- buckets

  /** HASH_TO_BKT for a table of 2^log2 buckets. */
  function BktOf(hashv: nat, log2: nat): (b: nat)
    ensures b == hashv % Pow2(log2) && b < Pow2(log2)
  {
    AndMaskIsMod(hashv, log2);
    And(hashv, Pow2(log2) - 1)
  }

  function Home(cfg: Config, h: Handle, log2: nat): (b: nat)
    ensures b < Pow2(log2)
  {
    BktOf(cfg.hash(h.key), log2)
  }

  function EmptyChains(log2: nat): (c: seq<seq<Handle>>)
    ensures |c| == Pow2(log2) && forall b :: 0 <= b < |c| ==> c[b] == []
  {
    seq(Pow2(log2), _ => [])
  }

  function Zeros(log2: nat): (z: seq<nat>)
    ensures |z| == Pow2(log2) && forall b :: 0 <= b < |z| ==> z[b] == 0
  {
    seq(Pow2(log2), _ => 0)
  }

  function BloomIndex(cfg: Config, hashv: nat): (i: nat)
    ensures i == hashv % Pow2(cfg.nbits) && i < Pow2(cfg.nbits)
  {
    AndMaskIsMod(hashv, cfg.nbits);
    And(hashv, Pow2(cfg.nbits) - 1)
  }

  function MakeTable(): Table {
    Table(EmptyChains(INITIAL_LOG2_BUCKETS), Zeros(INITIAL_LOG2_BUCKETS), INITIAL_LOG2_BUCKETS, 0, 0, 0, false, {})
  }

  // ---------------------------------------------------------------- expansion

  /** The bucket array under construction during an expansion. */
  datatype Redist = Redist(chains: seq<seq<Handle>>, mults: seq<nat>, nonideal: nat)

  /** One item is pushed on the front of its new chain and counted. */
  function MoveItem(cfg: Config, r: Redist, h: Handle, ideal: nat, log2: nat): (r': Redist)
    requires |r.chains| == |r.mults| == Pow2(log2)
    ensures |r'.chains| == |r'.mults| == Pow2(log2)
  {
    var b := Home(cfg, h, log2);
    var count := |r.chains[b]| + 1;
    Redist(r.chains[b := [h] + r.chains[b]],
           if count > ideal && count > r.mults[b] * ideal then r.mults[b := r.mults[b] + 1] else r.mults,
           if count > ideal then r.nonideal + 1 else r.nonideal)
  }

  function MoveItems(cfg: Config, r: Redist, items: seq<Handle>, ideal: nat, log2: nat): (r': Redist)
    requires |r.chains| == |r.mults| == Pow2(log2)
    ensures |r'.chains| == |r'.mults| == Pow2(log2)
    decreases |items|
  {
    if items == [] then r
    else MoveItems(cfg, MoveItem(cfg, r, items[0], ideal, log2), items[1..], ideal, log2)
  }

  /** All items, bucket by bucket and each chain from its head. */
  function Flatten(chains: seq<seq<Handle>>): seq<Handle> {
    if chains == [] then [] else chains[0] + Flatten(chains[1..])
  }

  /** The ideal chain length after doubling, by shift and mask. */
  function IdealLength(items: nat, log2: nat): nat {
    Shr(items, log2 + 1) + (if And(items, 2 * Pow2(log2) - 1) != 0 then 1 else 0)
  }

  function Expand(cfg: Config, t: Table, items: nat): Table {
    var ideal := IdealLength(items, t.log2);
    var r := MoveItems(cfg, Redist(EmptyChains(t.log2 + 1), Zeros(t.log2 + 1), 0),
      Flatten(t.chains), ideal, t.log2 + 1);
    var ineff := if r.nonideal > Shr(items, 1) then t.ineff + 1 else 0;
    Table(r.chains, r.mults, t.log2 + 1, ideal, r.nonideal, ineff, t.noexpand || ineff > 1, t.bloom)
  }

  // ---------------------------------------------------------------- the macros

  ghost predicate Shaped(t: Table) {
    |t.chains| == |t.mults| == Pow2(t.log2)
  }

  /** HASH_ADD_TO_BKT: push on the chain, then expand if the chain is now too long. */
  function AddToBkt(cfg: Config, t: Table, h: Handle, items: nat): Table
    requires Shaped(t)
  {
    var b := Home(cfg, h, t.log2);
    var t1 := t.(chains := t.chains[b := [h] + t.chains[b]]);
    if |t1.chains[b]| >= (t.mults[b] + 1) * BKT_CAPACITY_THRESH && !t.noexpand then Expand(cfg, t1, items) else t1
  }

  /** HASH_ADD_TO_TABLE; `items` already counts `h`. */
  function AddToTable(cfg: Config, t: Table, h: Handle, items: nat): Table
    requires Shaped(t)
  {
    var t1 := AddToBkt(cfg, t, h, items);
    t1.(bloom := t1.bloom + {BloomIndex(cfg, cfg.hash(h.key))})
  }

  function Add(cfg: Config, s: State, h: Handle): State
    requires s.State? ==> Shaped(s.t)
  {
    if s.NoTable? then State([h], AddToTable(cfg, MakeTable(), h, 1))
    else State(s.app + [h], AddToTable(cfg, s.t, h, |s.app| + 1))
  }

  function AddInOrder(cfg: Config, s: State, h: Handle, cmp: (Handle, Handle) -> int): State
    requires s.State? ==> Shaped(s.t)
  {
    if s.NoTable? then State([h], AddToTable(cfg, MakeTable(), h, 1))
    else State(InsertOrdered(cmp, s.app, h), AddToTable(cfg, s.t, h, |s.app| + 1))
  }

  function Delete(cfg: Config, s: State, h: Handle): State
    requires s.State? && Shaped(s.t)
    requires h in s.app && h in s.t.chains[Home(cfg, h, s.t.log2)]
  {
    if |s.app| == 1 then NoTable
    else
      var b := Home(cfg, h, s.t.log2);
      var chain := s.t.chains[b];
      State(RemoveAt(s.app, IndexOf(s.app, h)),
            s.t.(chains := s.t.chains[b := RemoveAt(chain, IndexOf(chain, h))]))
  }

  function Sort(s: State, cmp: (Handle, Handle) -> int): State {
    if s.NoTable? then s else s.(app := MergeSort(cmp, s.app))
  }

  /** HASH_FIND_IN_BKT: the first entry of the chain whose hash, key length and key bytes agree. */
  function FindInBkt(cfg: Config, chain: seq<Handle>, key: Key): (h: Handle?)
    ensures h != null ==> h in chain
  {
    if chain == [] then null
    else if cfg.hash(chain[0].key) == cfg.hash(key) && |chain[0].key| == |key| && chain[0].key == key then chain[0]
    else FindInBkt(cfg, chain[1..], key)
  }

  predicate BloomTest(cfg: Config, t: Table, hashv: nat) {
    cfg.useBloom ==> BloomIndex(cfg, hashv) in t.bloom
  }

  function Find(cfg: Config, s: State, key: Key): (h: Handle?)
    requires s.State? ==> Shaped(s.t)
    ensures h != null ==> s.State?
  {
    if s.NoTable? then null
    else
      var hashv := cfg.hash(key);
      if BloomTest(cfg, s.t, hashv) then FindInBkt(cfg, s.t.chains[BktOf(hashv, s.t.log2)], key) else null
  }

  // ---------------------------------------------------------------- the invariant of HASH_FSCK

  /** The chains hold exactly `items`, each once, in the bucket its hash selects. */
  ghost predicate Distributed(cfg: Config, chains: seq<seq<Handle>>, log2: nat, items: seq<Handle>) {
    && |chains| == Pow2(log2)
    && (forall b :: 0 <= b < |chains| ==> NoDup(chains[b]))
    && (forall b, h :: 0 <= b < |chains| && h in chains[b] ==> h in items && Home(cfg, h, log2) == b)
    && (forall h :: h in items ==> h in chains[Home(cfg, h, log2)])
  }

  ghost predicate TableInv(cfg: Config, t: Table, items: seq<Handle>) {
    && Shaped(t)
    && t.log2 >= INITIAL_LOG2_BUCKETS
    && t.ineff <= 2 && (t.noexpand <==> t.ineff == 2)
    && Distributed(cfg, t.chains, t.log2, items)
    && (forall h :: h in items ==> BloomIndex(cfg, cfg.hash(h.key)) in t.bloom)
    && (forall i :: i in t.bloom ==> i < Pow2(cfg.nbits))
  }

  ghost predicate Inv(cfg: Config, s: State) {
    s.State? ==> s.app != [] && NoDup(s.app) && TableInv(cfg, s.t, s.app)
  }

  ghost predicate UniqueKeys(app: seq<Handle>) {
    forall i, j :: 0 <= i < j < |app| ==> app[i].key != app[j].key
  }
}
