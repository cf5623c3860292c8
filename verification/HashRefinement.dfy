/** The table as its user sees it: lookups, the finite map it refines, whole runs of operations,
    and the agreement of ordered insertion with sorting afterwards. */
module HashRefinement {
  import opened Sequences
  import opened Handles
  import opened StableSort
  import opened HashModel
  import opened HashInvariant

  // ---------------------------------------------------------------- lookup

  lemma {:induction false} FindInBktMeaning(cfg: Config, chain: seq<Handle>, key: Key)
    ensures var h := FindInBkt(cfg, chain, key);
      && (h != null ==> h in chain && h.key == key)
      && (h == null ==> forall e :: e in chain ==> e.key != key)
  {
    if chain != [] {
      FindInBktMeaning(cfg, chain[1..], key);
      assert chain == [chain[0]] + chain[1..];
    }
  }

  /** A lookup returns an element with the key if there is one, and null otherwise. */
  lemma FindIsLookup(cfg: Config, s: State, key: Key)
    requires Inv(cfg, s)
    ensures var h := Find(cfg, s, key);
      && (h != null ==> h in s.App() && h.key == key)
      && (h == null ==> forall e :: e in s.App() ==> e.key != key)
  {
    if s.State? {
      var chain := s.t.chains[BktOf(cfg.hash(key), s.t.log2)];
      FindInBktMeaning(cfg, chain, key);
      forall e | e in s.app && e.key == key ensures e in chain && BloomTest(cfg, s.t, cfg.hash(key)) {
        assert e in s.t.chains[Home(cfg, e, s.t.log2)];
      }
    }
  }

  /** The Bloom filter never changes the result of a lookup. */
  lemma BloomIsTransparent(cfg: Config, s: State, key: Key)
    requires Inv(cfg, s)
    ensures Find(cfg, s, key) == Find(cfg.(useBloom := false), s, key)
  {
    FindIsLookup(cfg, s, key);
    if s.State? {
      var chain := s.t.chains[BktOf(cfg.hash(key), s.t.log2)];
      FindInBktMeaning(cfg, chain, key);
      FindInBktSameConfig(cfg, cfg.(useBloom := false), chain, key);
      if !BloomTest(cfg, s.t, cfg.hash(key)) {
        forall e | e in chain ensures e.key != key {
          assert e in s.app;
        }
      }
    }
  }

  lemma {:induction false} FindInBktSameConfig(cfg: Config, cfg': Config, chain: seq<Handle>, key: Key)
    requires cfg.hash == cfg'.hash
    ensures FindInBkt(cfg, chain, key) == FindInBkt(cfg', chain, key)
  {
    if chain != [] {
      FindInBktSameConfig(cfg, cfg', chain[1..], key);
    }
  }

  // ---------------------------------------------------------------- the finite map

  /** `m` maps every key of the table to its element and nothing else. */
  ghost predicate Represents(app: seq<Handle>, m: map<Key, Handle>) {
    && UniqueKeys(app)
    && (forall h :: h in app ==> h.key in m && m[h.key] == h)
    && (forall k :: k in m ==> m[k] in app && m[k].key == k)
  }

  /** HASH_FIND on a table with unique keys is the map lookup. */
  lemma FindRefinesMap(cfg: Config, s: State, key: Key, m: map<Key, Handle>)
    requires Inv(cfg, s) && Represents(s.App(), m)
    ensures Find(cfg, s, key) == if key in m then m[key] else null
  {
    FindIsLookup(cfg, s, key);
  }

  /** The table after deleting `h`, if there is anything to delete. */
  function Without(cfg: Config, s: State, h: Handle?): (r: State)
    requires Inv(cfg, s) && (h != null ==> h in s.App())
    ensures Inv(cfg, r)
    ensures Elems(r.App()) <= Elems(s.App())
  {
    if h == null then s
    else
      DeleteKeepsInv(cfg, s, h);
      DeleteApp(cfg, s, h);
      Delete(cfg, s, h)
  }

  lemma WithoutMembers(cfg: Config, s: State, h: Handle?)
    requires Inv(cfg, s) && (h != null ==> h in s.App())
    ensures Without(cfg, s, h).App() == if h == null then s.App() else RemoveAt(s.App(), IndexOf(s.App(), h))
    ensures forall e :: e in Without(cfg, s, h).App() <==> e in s.App() && e != h
  {
    if h != null {
      DeleteApp(cfg, s, h);
    }
  }

  /** What HASH_REPLACE asks of `h`: it is not in the table, or it is the very element its key finds. */
  ghost predicate Replaceable(cfg: Config, s: State, h: Handle)
    requires s.State? ==> Shaped(s.t)
  {
    h !in s.App() || Find(cfg, s, h.key) == h
  }

  /** HASH_REPLACE: look up, delete what was found, add. */
  function Replace(cfg: Config, s: State, h: Handle): (State, Handle?)
    requires Inv(cfg, s)
  {
    var found := Find(cfg, s, h.key);
    FindIsLookup(cfg, s, h.key);
    (Add(cfg, Without(cfg, s, found), h), found)
  }

  /** HASH_REPLACE_INORDER: the same with a sorted add. */
  function ReplaceInOrder(cfg: Config, s: State, h: Handle, cmp: (Handle, Handle) -> int): (State, Handle?)
    requires Inv(cfg, s)
  {
    var found := Find(cfg, s, h.key);
    FindIsLookup(cfg, s, h.key);
    (AddInOrder(cfg, Without(cfg, s, found), h, cmp), found)
  }

  lemma DeleteApp(cfg: Config, s: State, h: Handle)
    requires Inv(cfg, s) && h in s.App()
    ensures h in s.t.chains[Home(cfg, h, s.t.log2)]
    ensures Delete(cfg, s, h).App() == RemoveAt(s.app, IndexOf(s.app, h))
    ensures forall e :: e in Delete(cfg, s, h).App() <==> e in s.app && e != h
  {
    DeleteKeepsInv(cfg, s, h);
    RemoveAtNoDup(s.app, IndexOf(s.app, h));
    assert |s.app| == 1 ==> RemoveAt(s.app, IndexOf(s.app, h)) == [];
  }

  /** HASH_REPLACE keeps the invariant and leaves every other element in place and in order; an
      element that replaces itself moves to the end. */
  lemma ReplaceKeepsInv(cfg: Config, s: State, h: Handle)
    requires Inv(cfg, s) && Replaceable(cfg, s, h)
    ensures var (s', old_h) := Replace(cfg, s, h);
      && Inv(cfg, s')
      && old_h == Find(cfg, s, h.key)
      && s'.App() == (if old_h == null then s.App() else RemoveAt(s.App(), IndexOf(s.App(), old_h))) + [h]
  {
    var old_h := Find(cfg, s, h.key);
    FindIsLookup(cfg, s, h.key);
    WithoutMembers(cfg, s, old_h);
    AddKeepsInv(cfg, Without(cfg, s, old_h), h);
  }

  lemma ReplaceInOrderKeepsInv(cfg: Config, s: State, h: Handle, cmp: (Handle, Handle) -> int)
    requires Inv(cfg, s) && Replaceable(cfg, s, h)
    ensures var (s', old_h) := ReplaceInOrder(cfg, s, h, cmp);
      && Inv(cfg, s')
      && old_h == Find(cfg, s, h.key)
      && s'.App() == InsertOrdered(cmp,
        if old_h == null then s.App() else RemoveAt(s.App(), IndexOf(s.App(), old_h)), h)
  {
    var old_h := Find(cfg, s, h.key);
    FindIsLookup(cfg, s, h.key);
    WithoutMembers(cfg, s, old_h);
    AddInOrderKeepsInv(cfg, Without(cfg, s, old_h), h, cmp);
  }

  lemma AddRepresents(app: seq<Handle>, h: Handle, app': seq<Handle>, m: map<Key, Handle>)
    requires Represents(app, m) && h.key !in m && UniqueKeys(app')
    requires forall e :: e in app' <==> e in app || e == h
    ensures Represents(app', m[h.key := h])
  {
    var m' := m[h.key := h];
    forall k | k in m' ensures m'[k] in app' && m'[k].key == k {
      if k != h.key {
        assert k in m;
      }
    }
  }

  lemma InsertUniqueKeys(app: seq<Handle>, k: nat, h: Handle)
    requires UniqueKeys(app) && k <= |app| && forall e :: e in app ==> e.key != h.key
    ensures UniqueKeys(app[..k] + [h] + app[k..])
  {
    var r := app[..k] + [h] + app[k..];
    forall i, j | 0 <= i < j < |r| ensures r[i].key != r[j].key {
      assert i < k ==> r[i] == app[i] && r[i] in app;
      assert j < k ==> r[j] == app[j];
      assert i > k ==> r[i] == app[i - 1];
      assert j > k ==> r[j] == app[j - 1] && r[j] in app;
    }
  }

  lemma RemoveUniqueKeys(app: seq<Handle>, k: nat)
    requires UniqueKeys(app) && k < |app|
    ensures UniqueKeys(RemoveAt(app, k))
  {
    var r := RemoveAt(app, k);
    forall i, j | 0 <= i < j < |r| ensures r[i].key != r[j].key {
      assert r[i] == app[if i < k then i else i + 1];
      assert r[j] == app[if j < k then j else j + 1];
    }
  }

  lemma RemoveRepresents(app: seq<Handle>, h: Handle, m: map<Key, Handle>)
    requires NoDup(app) && Represents(app, m) && h in app
    ensures Represents(RemoveAt(app, IndexOf(app, h)), m - {h.key})
  {
    var k := IndexOf(app, h);
    RemoveAtNoDup(app, k);
    RemoveUniqueKeys(app, k);
    var r, m' := RemoveAt(app, k), m - {h.key};
    forall e | e in r ensures e.key in m' && m'[e.key] == e {
      assert e in app && m[h.key] == h;
    }
  }

  lemma PermuteRepresents(app: seq<Handle>, app': seq<Handle>, m: map<Key, Handle>)
    requires NoDup(app) && Represents(app, m) && multiset(app) == multiset(app')
    ensures Represents(app', m)
  {
    PermutationNoDup(app, app');
    forall i, j | 0 <= i < j < |app'| ensures app'[i].key != app'[j].key {
      assert app'[i] in app && app'[j] in app && app'[i] != app'[j];
    }
  }

  // ---------------------------------------------------------------- whole runs

  datatype Op =
    | DoAdd(h: Handle)
    | DoAddInOrder(h: Handle, cmp: (Handle, Handle) -> int)
    | DoReplace(h: Handle)
    | DoReplaceInOrder(h: Handle, cmp: (Handle, Handle) -> int)
    | DoDelete(key: Key)
    | DoSort(cmp: (Handle, Handle) -> int)

  /** What a map needs of its caller: the key of an element being added is new (except for a replace). */
  ghost predicate Allowed(m: map<Key, Handle>, op: Op) {
    match op
    case DoAdd(h) => h.key !in m
    case DoAddInOrder(h, _) => h.key !in m
    case DoReplace(_) => true
    case DoReplaceInOrder(_, _) => true
    case DoDelete(_) => true
    case DoSort(_) => true
  }

  /** The specification: a finite map. */
  function MapStep(m: map<Key, Handle>, op: Op): map<Key, Handle> {
    match op
    case DoAdd(h) => m[h.key := h]
    case DoAddInOrder(h, _) => m[h.key := h]
    case DoReplace(h) => m[h.key := h]
    case DoReplaceInOrder(h, _) => m[h.key := h]
    case DoDelete(key) => m - {key}
    case DoSort(_) => m
  }

  /** The implementation; a delete looks its element up first. */
  ghost function Step(cfg: Config, s: State, op: Op): State
    requires Inv(cfg, s)
  {
    match op
    case DoAdd(h) => Add(cfg, s, h)
    case DoAddInOrder(h, cmp) => AddInOrder(cfg, s, h, cmp)
    case DoReplace(h) => Replace(cfg, s, h).0
    case DoReplaceInOrder(h, cmp) => ReplaceInOrder(cfg, s, h, cmp).0
    case DoDelete(key) =>
      var h := Find(cfg, s, key);
      FindIsLookup(cfg, s, key);
      if h == null then s else DeleteKeepsInv(cfg, s, h); Delete(cfg, s, h)
    case DoSort(cmp) => Sort(s, cmp)
  }

  lemma StepRefines(cfg: Config, s: State, m: map<Key, Handle>, op: Op)
    requires Inv(cfg, s) && Represents(s.App(), m) && Allowed(m, op)
    ensures Inv(cfg, Step(cfg, s, op)) && Represents(Step(cfg, s, op).App(), MapStep(m, op))
  {
    match op
    case DoAdd(h) =>
      AddRefines(cfg, s, m, h);
    case DoAddInOrder(h, cmp) =>
      AddInOrderRefines(cfg, s, m, h, cmp);
    case DoReplace(h) =>
      ReplaceRefines(cfg, s, m, h);
    case DoReplaceInOrder(h, cmp) =>
      ReplaceInOrderRefines(cfg, s, m, h, cmp);
    case DoDelete(key) =>
      FindRefinesMap(cfg, s, key, m);
      if key in m {
        DeleteRefines(cfg, s, m, m[key]);
      } else {
        assert m - {key} == m;
      }
    case DoSort(cmp) =>
      SortKeepsInv(cfg, s, cmp);
      if s.State? {
        PermuteRepresents(s.app, Sort(s, cmp).app, m);
      }
  }

  lemma AddRefines(cfg: Config, s: State, m: map<Key, Handle>, h: Handle)
    requires Inv(cfg, s) && Represents(s.App(), m) && h.key !in m
    ensures Inv(cfg, Add(cfg, s, h)) && Represents(Add(cfg, s, h).App(), m[h.key := h])
  {
    assert h !in s.App();
    AddKeepsInv(cfg, s, h);
    var app := s.App();
    InsertUniqueKeys(app, |app|, h);
    assert app[..|app|] + [h] + app[|app|..] == app + [h] == Add(cfg, s, h).App();
    AddRepresents(app, h, app + [h], m);
  }

  lemma AddInOrderRefines(cfg: Config, s: State, m: map<Key, Handle>, h: Handle, cmp: (Handle, Handle) -> int)
    requires Inv(cfg, s) && Represents(s.App(), m) && h.key !in m
    ensures Inv(cfg, AddInOrder(cfg, s, h, cmp)) && Represents(AddInOrder(cfg, s, h, cmp).App(), m[h.key := h])
  {
    assert h !in s.App();
    AddInOrderKeepsInv(cfg, s, h, cmp);
    if s.State? {
      var k := FirstGreater(cmp, s.app, h);
      InsertUniqueKeys(s.app, k, h);
      InsertNoDup(s.app, k, h);
      AddRepresents(s.app, h, InsertOrdered(cmp, s.app, h), m);
    }
  }

  lemma OverwriteRemoved<K, V>(m: map<K, V>, k: K, v: V)
    ensures (m - {k})[k := v] == m[k := v]
  {
  }

  /** The table without the element under a key, if there is one. */
  lemma WithoutRefines(cfg: Config, s: State, m: map<Key, Handle>, key: Key)
    requires Inv(cfg, s) && Represents(s.App(), m)
    ensures var found := Find(cfg, s, key);
      && found == (if key in m then m[key] else null) && (found != null ==> found in s.App())
      && Represents(Without(cfg, s, found).App(), m - {key})
  {
    FindRefinesMap(cfg, s, key, m);
    if key in m {
      DeleteRefines(cfg, s, m, m[key]);
    } else {
      assert m - {key} == m;
    }
  }

  /** HASH_REPLACE overwrites the entry of the key and hands back the old one; replacing an element by
      itself is no exception. */
  lemma ReplaceRefines(cfg: Config, s: State, m: map<Key, Handle>, h: Handle)
    requires Inv(cfg, s) && Represents(s.App(), m)
    ensures Replaceable(cfg, s, h)
    ensures var (s', old_h) := Replace(cfg, s, h);
      && Inv(cfg, s') && Represents(s'.App(), m[h.key := h])
      && old_h == if h.key in m then m[h.key] else null
  {
    WithoutRefines(cfg, s, m, h.key);
    AddRefines(cfg, Without(cfg, s, Find(cfg, s, h.key)), m - {h.key}, h);
    OverwriteRemoved(m, h.key, h);
  }

  lemma ReplaceInOrderRefines(cfg: Config, s: State, m: map<Key, Handle>, h: Handle, cmp: (Handle, Handle) -> int)
    requires Inv(cfg, s) && Represents(s.App(), m)
    ensures Replaceable(cfg, s, h)
    ensures var (s', old_h) := ReplaceInOrder(cfg, s, h, cmp);
      && Inv(cfg, s') && Represents(s'.App(), m[h.key := h])
      && old_h == if h.key in m then m[h.key] else null
  {
    WithoutRefines(cfg, s, m, h.key);
    AddInOrderRefines(cfg, Without(cfg, s, Find(cfg, s, h.key)), m - {h.key}, h, cmp);
    OverwriteRemoved(m, h.key, h);
  }

  lemma DeleteRefines(cfg: Config, s: State, m: map<Key, Handle>, h: Handle)
    requires Inv(cfg, s) && Represents(s.App(), m) && h in s.App()
    ensures h in s.t.chains[Home(cfg, h, s.t.log2)]
    ensures Inv(cfg, Delete(cfg, s, h)) && Represents(Delete(cfg, s, h).App(), m - {h.key})
  {
    DeleteKeepsInv(cfg, s, h);
    DeleteApp(cfg, s, h);
    RemoveRepresents(s.app, h, m);
  }

  ghost predicate RunAllowed(m: map<Key, Handle>, ops: seq<Op>)
    decreases |ops|
  {
    ops == [] || (Allowed(m, ops[0]) && RunAllowed(MapStep(m, ops[0]), ops[1..]))
  }

  ghost function MapRun(m: map<Key, Handle>, ops: seq<Op>): map<Key, Handle>
    decreases |ops|
  {
    if ops == [] then m else MapRun(MapStep(m, ops[0]), ops[1..])
  }

  /** A run of the implementation; it stops making steps if the invariant were ever lost. */
  ghost function Run(cfg: Config, s: State, ops: seq<Op>): State
    decreases |ops|
  {
    if ops == [] || !Inv(cfg, s) then s else Run(cfg, Step(cfg, s, ops[0]), ops[1..])
  }

  /** Main result on runs: from any good state, every allowed sequence of adds, sorted adds,
      replaces, deletes and sorts, with all the expansions they trigger, keeps the full
      invariant and leaves the table representing the map the sequence describes. */
  lemma {:induction false} RunRefinesMap(cfg: Config, s: State, m: map<Key, Handle>, ops: seq<Op>)
    requires Inv(cfg, s) && Represents(s.App(), m) && RunAllowed(m, ops)
    ensures Inv(cfg, Run(cfg, s, ops)) && Represents(Run(cfg, s, ops).App(), MapRun(m, ops))
    decreases |ops|
  {
    if ops != [] {
      StepRefines(cfg, s, m, ops[0]);
      RunRefinesMap(cfg, Step(cfg, s, ops[0]), MapStep(m, ops[0]), ops[1..]);
    }
  }

  /** After any run from the empty table a lookup answers as the map does. */
  lemma FindAfterRun(cfg: Config, ops: seq<Op>, key: Key)
    requires RunAllowed(map[], ops)
    ensures var m := MapRun(map[], ops); var s := Run(cfg, NoTable, ops);
      && Inv(cfg, s)
      && Find(cfg, s, key) == (if key in m then m[key] else null)
  {
    RunRefinesMap(cfg, NoTable, map[], ops);
    FindRefinesMap(cfg, Run(cfg, NoTable, ops), key, MapRun(map[], ops));
  }

  // ---------------------------------------------------------------- ordered insertion and sorting

  ghost function AddAll(cfg: Config, s: State, hs: seq<Handle>): State
    requires Inv(cfg, s)
    decreases |hs|
  {
    if hs == [] then s
    else
      var s1 := AddAll(cfg, s, hs[..|hs| - 1]);
      if Inv(cfg, s1) then Add(cfg, s1, hs[|hs| - 1]) else s1
  }

  ghost function AddAllInOrder(cfg: Config, s: State, hs: seq<Handle>, cmp: (Handle, Handle) -> int): State
    requires Inv(cfg, s)
    decreases |hs|
  {
    if hs == [] then s
    else
      var s1 := AddAllInOrder(cfg, s, hs[..|hs| - 1], cmp);
      if Inv(cfg, s1) then AddInOrder(cfg, s1, hs[|hs| - 1], cmp) else s1
  }

  lemma {:induction false} AddAllApp(cfg: Config, hs: seq<Handle>)
    requires NoDup(hs)
    ensures Inv(cfg, AddAll(cfg, NoTable, hs)) && AddAll(cfg, NoTable, hs).App() == hs
    decreases |hs|
  {
    if hs != [] {
      var n := |hs| - 1;
      AddAllApp(cfg, hs[..n]);
      assert hs == hs[..n] + [hs[n]];
      AddKeepsInv(cfg, AddAll(cfg, NoTable, hs[..n]), hs[n]);
    }
  }

  lemma {:induction false} StableSortedKeeps<T>(cmp: (T, T) -> int, hs: seq<T>)
    ensures multiset(StableSorted(cmp, hs)) == multiset(hs)
    decreases |hs|
  {
    if hs != [] {
      var n := |hs| - 1;
      StableSortedKeeps(cmp, hs[..n]);
      InsertKeepsElements(cmp, StableSorted(cmp, hs[..n]), hs[n]);
      assert hs == hs[..n] + [hs[n]];
    }
  }

  lemma {:induction false} AddAllInOrderApp(cfg: Config, hs: seq<Handle>, cmp: (Handle, Handle) -> int)
    requires NoDup(hs)
    ensures var s := AddAllInOrder(cfg, NoTable, hs, cmp);
      Inv(cfg, s) && s.App() == StableSorted(cmp, hs)
    decreases |hs|
  {
    if hs != [] {
      var n := |hs| - 1;
      AddAllInOrderApp(cfg, hs[..n], cmp);
      var s1 := AddAllInOrder(cfg, NoTable, hs[..n], cmp);
      StableSortedKeeps(cmp, hs[..n]);
      PermutationNoDup(hs[..n], s1.App());
      assert hs[n] !in hs[..n];
      AddInOrderKeepsInv(cfg, s1, hs[n], cmp);
    }
  }

  /** Main result on order: sorted insertion of any sequence into an empty table gives exactly the
      application order of plain insertion followed by HASH_SRT, for any total preorder. */
  lemma InOrderEqualsAddThenSort(cfg: Config, hs: seq<Handle>, cmp: (Handle, Handle) -> int)
    requires NoDup(hs) && TotalPreorder(cmp, Elems(hs))
    ensures AddAllInOrder(cfg, NoTable, hs, cmp).App() == Sort(AddAll(cfg, NoTable, hs), cmp).App()
  {
    AddAllApp(cfg, hs);
    AddAllInOrderApp(cfg, hs, cmp);
    MergeSortIsStableSort(cmp, hs, Elems(hs));
  }

  /** Sorting changes no chain, so every lookup still finds the same element. */
  lemma SortKeepsLookups(cfg: Config, s: State, cmp: (Handle, Handle) -> int, key: Key)
    requires Inv(cfg, s)
    ensures Find(cfg, Sort(s, cmp), key) == Find(cfg, s, key)
    ensures s.State? && TotalPreorder(cmp, Elems(s.app)) ==>
      Sorted(cmp, Sort(s, cmp).app) &&
        forall y :: y in s.app ==> EqualTo(cmp, y, Sort(s, cmp).app) == EqualTo(cmp, y, s.app)
  {
    SortKeepsInv(cfg, s, cmp);
    if s.State? && TotalPreorder(cmp, Elems(s.app)) {
      MergeSortIsStableSort(cmp, s.app, Elems(s.app));
      StableSortedIsStableSort(cmp, s.app, Elems(s.app));
    }
  }
}
