/** Whole runs of a table in place: the theorems of `HashRuns` and `HashRefinement` are about what these
    compute. */
module TableRuns {
  import opened Handles
  import opened HashModel
  import opened HashInvariant
  import opened HashRefinement
  import opened HashRuns
  import opened UtHash

  /** The element an operation is about. */
  function Subject(e: Edit): set<Handle> {
    match e
    case Append(h) => {h}
    case Insert(h, _) => {h}
    case Substitute(h) => {h}
    case SubstituteInOrder(h, _) => {h}
    case Remove(h) => {h}
    case Reorder(_) => {}
  }

  ghost predicate Within(app: seq<Handle>, S: set<Handle>) {
    forall i {:trigger app[i]} :: 0 <= i < |app| ==> app[i] in S
  }

  /** The elements of the operations are among `S`. */
  ghost predicate About(es: seq<Edit>, S: set<Handle>) {
    forall i {:trigger es[i]} :: 0 <= i < |es| ==> Subject(es[i]) <= S
  }

  /** The arrays of a table are old ones or have been allocated since. */
  twostate predicate Framed(t: HashTable)
    reads t
  {
    && (t.buckets == old(t.buckets) || fresh(t.buckets))
    && (t.bloomBv == old(t.bloomBv) || fresh(t.bloomBv))
  }

  lemma EditMembers(cfg: Config, s: State, e: Edit)
    requires Inv(cfg, s) && EditAllowed(cfg, s, e)
    ensures forall h :: h in Edited(cfg, s, e).App() ==> h in s.App() || h in Subject(e)
  {
    EditRefinesList(cfg, s, e);
    ListStepMembers(s.App(), e, Edited(cfg, s, e).App());
  }

  lemma ListStepMembers(app: seq<Handle>, e: Edit, app': seq<Handle>)
    requires ListStep(app, e, app')
    ensures forall h :: h in app' ==> h in app || h in Subject(e)
  {
    match e
    case Append(h) =>
    case Insert(h, cmp) =>
      PlacedMembers(cmp, app, h, app');
    case Substitute(h) =>
    case SubstituteInOrder(h, cmp) =>
      var k :| RoomAt(app, h.key, k) && Placed(cmp, Room(app, k), h, app');
      PlacedMembers(cmp, Room(app, k), h, app');
    case Remove(h) =>
    case Reorder(cmp) =>
      forall h | h in app' ensures h in app {
        assert h in multiset(app');
      }
  }

  lemma PlacedMembers(cmp: (Handle, Handle) -> int, app: seq<Handle>, h: Handle, app': seq<Handle>)
    requires Placed(cmp, app, h, app')
    ensures forall e :: e in app' ==> e in app || e == h
  {
  }

  /** One operation, carried out on the pointers; it leads to `s'`. */
  method Perform(t: HashTable, e: Edit, ghost s': State, ghost S: set<Handle>)
    requires t.Valid() && EditAllowed(t.cfg, t.s, e) && s' == Edited(t.cfg, t.s, e)
    requires Within(t.s.App(), S) && Subject(e) <= S
    modifies t, t.buckets, t.bloomBv, S
    ensures t.Valid() && t.s == s' && Framed(t)
  {
    match e
    case Append(h) => t.Add(h);
    case Insert(h, cmp) => t.AddInOrder(h, cmp);
    case Substitute(h) => var old_h := t.Replace(h);
    case SubstituteInOrder(h, cmp) => var old_h := t.ReplaceInOrder(h, cmp);
    case Remove(h) => t.Delete(h);
    case Reorder(cmp) => t.Sort(cmp);
  }

  /** What is left to do after the first of some operations. */
  lemma RunUnfold(cfg: Config, s: State, es: seq<Edit>, S: set<Handle>) returns (s': State)
    requires Inv(cfg, s) && EditsAllowed(cfg, s, es) && es != [] && Within(s.App(), S) && About(es, S)
    ensures EditAllowed(cfg, s, es[0]) && s' == Edited(cfg, s, es[0]) && Inv(cfg, s') && Subject(es[0]) <= S
    ensures EditsAllowed(cfg, s', es[1..]) && EditRun(cfg, s, es) == EditRun(cfg, s', es[1..])
    ensures Within(s'.App(), S) && About(es[1..], S)
  {
    s' := Edited(cfg, s, es[0]);
    EditKeepsInv(cfg, s, es[0]);
    EditMembers(cfg, s, es[0]);
  }

  /** Any sequence of allowed operations. */
  method PerformAll(t: HashTable, es: seq<Edit>, ghost S: set<Handle>)
    requires t.Valid() && EditsAllowed(t.cfg, t.s, es) && Within(t.s.App(), S) && About(es, S)
    modifies t, t.buckets, t.bloomBv, S
    ensures t.Valid() && t.s == EditRun(t.cfg, old(t.s), es) && Framed(t)
  {
    ghost var goal := EditRun(t.cfg, t.s, es);
    ghost var todo := es;
    var i := 0;
    while i < |es|
      invariant 0 <= i <= |es| && todo == es[i..] && t.Valid() && Framed(t)
      invariant Within(t.s.App(), S) && About(todo, S)
      invariant EditsAllowed(t.cfg, t.s, todo) && EditRun(t.cfg, t.s, todo) == goal
    {
      ghost var s' := RunUnfold(t.cfg, t.s, todo, S);
      Perform(t, es[i], s', S);
      todo := todo[1..];
      i := i + 1;
    }
  }
}
