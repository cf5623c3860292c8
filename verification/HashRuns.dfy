/** Runs of operations on elements, with equal keys allowed: the invariant, the bound on the chain
    lengths that expansion is there to keep, and the application order as a list. */
module HashRuns {
  import opened Sequences
  import opened Handles
  import opened StableSort
  import opened HashModel
  import opened HashInvariant
  import opened HashExpansion
  import opened HashRefinement

  datatype Edit =
    | Append(h: Handle)
    | Insert(h: Handle, cmp: (Handle, Handle) -> int)
    | Substitute(h: Handle)
    | SubstituteInOrder(h: Handle, cmp: (Handle, Handle) -> int)
    | Remove(h: Handle)
    | Reorder(cmp: (Handle, Handle) -> int)

  /** What uthash asks of its caller: only an element outside the table is added, only one inside it is
      deleted. Nothing is asked about keys. */
  ghost predicate EditAllowed(cfg: Config, s: State, e: Edit)
    requires Inv(cfg, s)
  {
    match e
    case Append(h) => h !in s.App()
    case Insert(h, _) => h !in s.App()
    case Substitute(h) => Replaceable(cfg, s, h)
    case SubstituteInOrder(h, _) => Replaceable(cfg, s, h)
    case Remove(h) => h in s.App()
    case Reorder(_) => true
  }

  ghost function Edited(cfg: Config, s: State, e: Edit): State
    requires Inv(cfg, s) && EditAllowed(cfg, s, e)
  {
    match e
    case Append(h) => Add(cfg, s, h)
    case Insert(h, cmp) => AddInOrder(cfg, s, h, cmp)
    case Substitute(h) => Replace(cfg, s, h).0
    case SubstituteInOrder(h, cmp) => ReplaceInOrder(cfg, s, h, cmp).0
    case Remove(h) => DeleteKeepsInv(cfg, s, h); Delete(cfg, s, h)
    case Reorder(cmp) => Sort(s, cmp)
  }

  lemma EditKeepsInv(cfg: Config, s: State, e: Edit)
    requires Inv(cfg, s) && EditAllowed(cfg, s, e)
    ensures Inv(cfg, Edited(cfg, s, e))
  {
    match e
    case Append(h) => AddKeepsInv(cfg, s, h);
    case Insert(h, cmp) => AddInOrderKeepsInv(cfg, s, h, cmp);
    case Substitute(h) => ReplaceKeepsInv(cfg, s, h);
    case SubstituteInOrder(h, cmp) => ReplaceInOrderKeepsInv(cfg, s, h, cmp);
    case Remove(h) => DeleteKeepsInv(cfg, s, h);
    case Reorder(cmp) => SortKeepsInv(cfg, s, cmp);
  }

  // ---------------------------------------------------------------- the bound on chain lengths

  /** A chain is below the threshold of its bucket, or no longer than the last expansion left it. */
  predicate Short(length: nat, mult: nat, ideal: nat) {
    length < (mult + 1) * 10 || length <= (mult + 1) * ideal
  }

  /** While expansion is on, every chain is short. */
  ghost predicate ChainsShort(t: Table) {
    !t.noexpand ==> forall b :: 0 <= b < |t.chains| && b < |t.mults| ==> Short(|t.chains[b]|, t.mults[b], t.ideal)
  }

  ghost predicate Bounded(s: State) {
    s.State? ==> ChainsShort(s.t)
  }

  lemma AddKeepsChainsShort(cfg: Config, t: Table, h: Handle, items: nat)
    requires Shaped(t) && ChainsShort(t) && items > 0
    ensures ChainsShort(AddToTable(cfg, t, h, items))
  {
    var b := Home(cfg, h, t.log2);
    ExpandStatistics(cfg, t.(chains := t.chains[b := [h] + t.chains[b]]), items);
  }

  lemma AddBounded(cfg: Config, s: State, h: Handle, cmp: (Handle, Handle) -> int)
    requires Inv(cfg, s) && Bounded(s)
    ensures Bounded(Add(cfg, s, h)) && Bounded(AddInOrder(cfg, s, h, cmp))
  {
    if s.NoTable? {
      MakeTableInv(cfg);
      AddKeepsChainsShort(cfg, MakeTable(), h, 1);
    } else {
      AddKeepsChainsShort(cfg, s.t, h, |s.app| + 1);
    }
  }

  lemma WithoutBounded(cfg: Config, s: State, h: Handle?)
    requires Inv(cfg, s) && Bounded(s) && (h != null ==> h in s.App())
    ensures Bounded(Without(cfg, s, h))
  {
    if h != null {
      DeleteKeepsInv(cfg, s, h);
    }
  }

  lemma EditKeepsBound(cfg: Config, s: State, e: Edit)
    requires Inv(cfg, s) && Bounded(s) && EditAllowed(cfg, s, e)
    ensures Bounded(Edited(cfg, s, e))
  {
    match e
    case Append(h) => AddBounded(cfg, s, h, (x, y) => 0);
    case Insert(h, cmp) => AddBounded(cfg, s, h, cmp);
    case Substitute(h) => ReplaceBounded(cfg, s, h, (x, y) => 0);
    case SubstituteInOrder(h, cmp) => ReplaceBounded(cfg, s, h, cmp);
    case Remove(h) => WithoutBounded(cfg, s, h);
    case Reorder(cmp) =>
  }

  lemma ReplaceBounded(cfg: Config, s: State, h: Handle, cmp: (Handle, Handle) -> int)
    requires Inv(cfg, s) && Bounded(s) && Replaceable(cfg, s, h)
    ensures Bounded(Replace(cfg, s, h).0) && Bounded(ReplaceInOrder(cfg, s, h, cmp).0)
  {
    FindIsLookup(cfg, s, h.key);
    WithoutBounded(cfg, s, Find(cfg, s, h.key));
    AddBounded(cfg, Without(cfg, s, Find(cfg, s, h.key)), h, cmp);
  }

  // ---------------------------------------------------------------- whole runs

  ghost predicate EditsAllowed(cfg: Config, s: State, es: seq<Edit>)
    requires Inv(cfg, s)
    decreases |es|
  {
    es == [] ||
    (EditAllowed(cfg, s, es[0]) &&
     (EditKeepsInv(cfg, s, es[0]); EditsAllowed(cfg, Edited(cfg, s, es[0]), es[1..])))
  }

  ghost function EditRun(cfg: Config, s: State, es: seq<Edit>): State
    requires Inv(cfg, s) && EditsAllowed(cfg, s, es)
    decreases |es|
  {
    if es == [] then s
    else EditKeepsInv(cfg, s, es[0]); EditRun(cfg, Edited(cfg, s, es[0]), es[1..])
  }

  /** Main result on element-level runs: whatever the keys, every allowed sequence of operations keeps
      the full invariant, and while expansion is on it keeps every chain short. */
  lemma {:induction false} EditsKeepInvAndBound(cfg: Config, s: State, es: seq<Edit>)
    requires Inv(cfg, s) && Bounded(s) && EditsAllowed(cfg, s, es)
    ensures Inv(cfg, EditRun(cfg, s, es)) && Bounded(EditRun(cfg, s, es))
    decreases |es|
  {
    if es != [] {
      EditKeepsInv(cfg, s, es[0]);
      EditKeepsBound(cfg, s, es[0]);
      EditsKeepInvAndBound(cfg, Edited(cfg, s, es[0]), es[1..]);
    }
  }

  // ---------------------------------------------------------------- the application order

  /** `r` is `app` without one occurrence of `h`, the rest in order. */
  ghost predicate Taken(app: seq<Handle>, h: Handle, r: seq<Handle>) {
    exists k :: 0 <= k < |app| && app[k] == h && r == RemoveAt(app, k)
  }

  /** `r` is `app` with `h` behind everything that is not greater and in front of the first greater one. */
  ghost predicate Placed(cmp: (Handle, Handle) -> int, app: seq<Handle>, h: Handle, r: seq<Handle>) {
    exists k :: 0 <= k <= |app| && r == app[..k] + [h] + app[k..]
      && (forall i :: 0 <= i < k ==> Le(cmp, app[i], h)) && (k < |app| ==> !Le(cmp, app[k], h))
  }

  /** Where a replacement makes room: at an element with the key, or nowhere if there is none. */
  ghost predicate RoomAt(app: seq<Handle>, key: Key, k: nat) {
    if k < |app| then app[k].key == key else k == |app| && forall e :: e in app ==> e.key != key
  }

  function Room(app: seq<Handle>, k: nat): seq<Handle> {
    if k < |app| then RemoveAt(app, k) else app
  }

  /** What each operation means for the application order, seen as a list. */
  ghost predicate ListStep(app: seq<Handle>, e: Edit, app': seq<Handle>) {
    match e
    case Append(h) => app' == app + [h]
    case Insert(h, cmp) => Placed(cmp, app, h, app')
    case Substitute(h) => exists k :: RoomAt(app, h.key, k) && app' == Room(app, k) + [h]
    case SubstituteInOrder(h, cmp) => exists k :: RoomAt(app, h.key, k) && Placed(cmp, Room(app, k), h, app')
    case Remove(h) => Taken(app, h, app')
    case Reorder(cmp) =>
      && multiset(app') == multiset(app)
      && (TotalPreorder(cmp, Elems(app)) ==> Sorted(cmp, app'))
      && (TotalPreorder(cmp, Elems(app)) ==> forall y :: y in app ==> EqualTo(cmp, y, app') == EqualTo(cmp, y, app))
  }

  /** Main result on the order: every operation, whatever the keys, is its list operation. */
  lemma EditRefinesList(cfg: Config, s: State, e: Edit)
    requires Inv(cfg, s) && EditAllowed(cfg, s, e)
    ensures ListStep(s.App(), e, Edited(cfg, s, e).App())
  {
    match e
    case Append(h) =>
    case Insert(h, cmp) => PlacedByInsert(cmp, s.App(), h);
    case Substitute(h) =>
      var k := RoomIsMade(cfg, s, h);
      ReplaceKeepsInv(cfg, s, h);
    case SubstituteInOrder(h, cmp) =>
      var k := RoomIsMade(cfg, s, h);
      ReplaceInOrderKeepsInv(cfg, s, h, cmp);
      PlacedByInsert(cmp, Room(s.App(), k), h);
    case Remove(h) =>
      DeleteApp(cfg, s, h);
      assert s.app[IndexOf(s.app, h)] == h;
    case Reorder(cmp) =>
      SortKeepsInv(cfg, s, cmp);
      SortKeepsLookups(cfg, s, cmp, []);
  }

  lemma PlacedByInsert(cmp: (Handle, Handle) -> int, app: seq<Handle>, h: Handle)
    ensures Placed(cmp, app, h, InsertOrdered(cmp, app, h))
  {
    var k := FirstGreater(cmp, app, h);
    assert InsertOrdered(cmp, app, h) == app[..k] + [h] + app[k..];
  }

  lemma RoomIsMade(cfg: Config, s: State, h: Handle) returns (k: nat)
    requires Inv(cfg, s)
    ensures RoomAt(s.App(), h.key, k)
    ensures var found := Find(cfg, s, h.key);
      && (found != null ==> found in s.App())
      && Room(s.App(), k) == (if found == null then s.App() else RemoveAt(s.App(), IndexOf(s.App(), found)))
  {
    FindIsLookup(cfg, s, h.key);
    var found := Find(cfg, s, h.key);
    k := if found == null then |s.App()| else IndexOf(s.App(), found);
  }
}
