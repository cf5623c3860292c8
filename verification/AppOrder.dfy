/** The in-place merge sort of the application order (HASH_SRT). */
module AppOrder {
  import opened Sequences
  import opened Handles
  import opened StableSort

  /** Splice `add` in front of `iter`, the element at position `k`. */
  method SpliceBefore(add: Handle, iter: Handle, ghost app: seq<Handle>, ghost k: nat)
    requires NoDup(app) && AppLinked(app) && add !in app && k < |app| && iter == app[k]
    modifies add`next, add`prev, app`next, app`prev
    ensures AppLinked(app[..k] + [add] + app[k..]) && add.prev == Pred(app, k)
  {
    add.next := iter;
    add.prev := iter.prev;
    assert add.prev == Pred(app, k);
    if add.prev != null {
      add.prev.next := add;
    }
    iter.prev := add;
  }

  /** Unlink the element at position `k`. */
  method UnlinkAt(del: Handle, ghost app: seq<Handle>, ghost k: nat)
    requires NoDup(app) && AppLinked(app) && k < |app| && del == app[k]
    modifies app`next, app`prev
    ensures AppLinked(RemoveAt(app, k)) && del.prev == Pred(app, k) && del.next == Succ(app, k)
  {
    assert del.prev == Pred(app, k) && del.next == Succ(app, k);
    if del.prev != null {
      del.prev.next := del.next;
    }
    if del.next != null {
      del.next.prev := del.prev;
    }
  }

  /** The list built so far: linked, except that the last `next` is still open. */
  ghost predicate Emitted(out: seq<Handle>)
    reads out`prev, out`next
  {
    && NoDup(out)
    && (forall i {:trigger out[i].prev} :: 0 <= i < |out| ==> out[i].prev == Pred(out, i))
    && (forall i {:trigger out[i].next} :: 0 <= i < |out| - 1 ==> out[i].next == out[i + 1])
  }

  /** The elements of `s` from `lo` to `hi` still carry their old `next`. */
  ghost predicate Pending(s: seq<Handle>, lo: nat, hi: nat)
    requires lo <= hi <= |s|
    reads s`next
  {
    forall i {:trigger s[i].next} :: lo <= i < hi ==> s[i].next == Succ(s, i)
  }

  ghost predicate Apart(out: seq<Handle>, s: seq<Handle>, lo: nat, hi: nat)
    requires lo <= hi <= |s|
  {
    forall j, i :: 0 <= j < |out| && lo <= i < hi ==> out[j] != s[i]
  }

  /** Append `e` behind `tail`. */
  method Emit(list: Handle?, tail: Handle?, e: Handle, ghost out: seq<Handle>)
    returns (list': Handle, tail': Handle)
    requires Emitted(out) && list == First(out) && tail == Last(out) && e !in out
    modifies (if tail == null then {} else {tail})`next, e`prev
    ensures Emitted(out + [e]) && list' == First(out + [e]) && tail' == e
  {
    list' := if tail == null then e else list;
    if tail != null {
      tail.next := e;
    }
    e.prev := tail;
    tail' := e;
  }

  /** Walk `insize` steps from `p`, stopping at the end of the list. */
  method SkipRun(p: Handle, insize: nat, ghost s: seq<Handle>, ghost n: nat)
    returns (q: Handle?, psize: nat)
    requires insize > 0 && n < |s| && p == s[n] && Pending(s, n, |s|)
    ensures psize == Min(insize, |s| - n) && q == At(s, n + psize)
  {
    q, psize := p, 0;
    var i := 0;
    while i < insize
      invariant 0 <= i <= insize && psize == i && n + i < |s| && q == s[n + i]
    {
      psize := psize + 1;
      q := q.next;
      if q == null {
        break;
      }
      i := i + 1;
    }
  }

  /** The choice of one merge step: which head is next, and both cursors behind it.
      The left run is at `s[pi..pe]`, the right one at `s[qi..qe]`. */
  method TakeNext(cmp: (Handle, Handle) -> int, p: Handle?, psize: nat, q: Handle?, qsize: nat,
                  ghost s: seq<Handle>, ghost pi: nat, ghost pe: nat, ghost qi: nat, ghost qe: nat)
    returns (e: Handle, p': Handle?, psize': nat, q': Handle?, qsize': nat, ghost pi': nat, ghost qi': nat)
    requires pi <= pe <= qi <= qe <= |s| && psize == pe - pi
    requires psize > 0 ==> p == s[pi]
    requires q == At(s, qi) && (qsize != 0 && q != null <==> qi < qe)
    requires psize != 0 || (qsize != 0 && q != null)
    requires Pending(s, pi, pe) && Pending(s, qi, |s|)
    ensures if pi' == pi then qi' == qi + 1 <= qe && e == s[qi] && qsize' == qsize - 1 && p' == p
            else pi' == pi + 1 <= pe && qi' == qi && e == s[pi] && qsize' == qsize && q' == q
    ensures psize' == pe - pi' && q' == At(s, qi') && (psize' > 0 ==> p' == s[pi'])
    ensures Merge(cmp, s[pi..pe], s[qi..qe]) == [e] + Merge(cmp, s[pi'..pe], s[qi'..qe])
  {
    p', psize', q', qsize' := p, psize, q, qsize;
    pi', qi' := pi, qi;
    if psize == 0 {
      e := q;
      q' := q.next;
      qsize' := qsize - 1;
      qi' := qi + 1;
      assert s[qi..qe] == [e] + s[qi'..qe];
    } else if qsize == 0 || q == null {
      e := p;
      p' := p.next;
      psize' := psize - 1;
      pi' := pi + 1;
      assert s[pi..pe] == [e] + s[pi'..pe];
    } else if cmp(p, q) <= 0 {
      e := p;
      p' := p.next;
      psize' := psize - 1;
      pi' := pi + 1;
      assert s[pi..pe][1..] == s[pi'..pe];
    } else {
      e := q;
      q' := q.next;
      qsize' := qsize - 1;
      qi' := qi + 1;
      assert s[qi..qe][1..] == s[qi'..qe];
    }
  }

  /** Where a merge stands: `out` is built, `s[pi..pe]` and `s[qi..]` are still to be read. */
  ghost predicate Merging(s: seq<Handle>, out: seq<Handle>, pi: nat, pe: nat, qi: nat, list: Handle?, tail: Handle?)
    requires pi <= pe <= qi <= |s|
    reads s`prev, s`next, out`prev, out`next
  {
    && Pending(s, pi, pe) && Pending(s, qi, |s|)
    && Emitted(out) && Elems(out) <= Elems(s) && Apart(out, s, pi, pe) && Apart(out, s, qi, |s|)
    && list == First(out) && tail == Last(out)
  }

  /** One merge step: the head `e` of the run with index `k` moves to the end of the output. */
  method MoveToOutput(list: Handle?, tail: Handle?, e: Handle, ghost s: seq<Handle>, ghost out: seq<Handle>,
                      ghost pi: nat, ghost pe: nat, ghost qi: nat, ghost fromLeft: bool)
    returns (list': Handle, tail': Handle)
    requires NoDup(s) && pi <= pe <= qi <= |s| && Merging(s, out, pi, pe, qi, list, tail)
    requires if fromLeft then pi < pe && e == s[pi] else qi < |s| && e == s[qi]
    modifies s`prev, s`next
    ensures list' == First(out + [e]) && tail' == e
    ensures fromLeft ==> Merging(s, out + [e], pi + 1, pe, qi, list', tail')
    ensures !fromLeft ==> Merging(s, out + [e], pi, pe, qi + 1, list', tail')
  {
    assert e in Elems(s) && (tail != null ==> tail in Elems(s));
    list', tail' := Emit(list, tail, e, out);
  }

  /** A whole merge step: choose a head and move it to the end of the output. */
  method MergeStep(cmp: (Handle, Handle) -> int, p: Handle?, psize: nat, q: Handle?, qsize: nat,
                   list: Handle?, tail: Handle?,
                   ghost s: seq<Handle>, ghost out: seq<Handle>,
                   ghost pi: nat, ghost pe: nat, ghost qi: nat, ghost qe: nat)
    returns (p': Handle?, psize': nat, q': Handle?, qsize': nat, list': Handle?, tail': Handle?,
             ghost out': seq<Handle>, ghost pi': nat, ghost qi': nat)
    requires NoDup(s) && pi <= pe <= qi <= qe <= |s| && psize == pe - pi
    requires psize > 0 ==> p == s[pi]
    requires q == At(s, qi) && (qsize != 0 && q != null <==> qi < qe)
    requires psize != 0 || (qsize != 0 && q != null)
    requires Merging(s, out, pi, pe, qi, list, tail)
    modifies s`prev, s`next
    ensures pi' + qi' == pi + qi + 1 && pi <= pi' <= pe && qi <= qi' <= qe
    ensures psize' == pe - pi' && qsize' == qsize - (qi' - qi)
    ensures q' == At(s, qi') && (psize' > 0 ==> p' == s[pi'])
    ensures Merging(s, out', pi', pe, qi', list', tail')
    ensures out' + Merge(cmp, s[pi'..pe], s[qi'..qe]) == out + Merge(cmp, s[pi..pe], s[qi..qe])
  {
    var e;
    e, p', psize', q', qsize', pi', qi' := TakeNext(cmp, p, psize, q, qsize, s, pi, pe, qi, qe);
    list', tail' := MoveToOutput(list, tail, e, s, out, pi, pe, qi, pi' != pi);
    out' := out + [e];
    Associate(out, [e], Merge(cmp, s[pi'..pe], s[qi'..qe]));
  }

  /** Merge the run at `p` with the run behind it onto the output list. */
  method MergeRuns(cmp: (Handle, Handle) -> int, p0: Handle, insize: nat, list0: Handle?, tail0: Handle?,
                   ghost s: seq<Handle>, ghost n: nat, ghost out0: seq<Handle>)
    returns (p: Handle?, list: Handle?, tail: Handle?, ghost out: seq<Handle>, ghost pe: nat, ghost qe: nat)
    requires insize > 0 && NoDup(s) && n < |s| && p0 == s[n]
    requires Merging(s, out0, n, n, n, list0, tail0)
    modifies s`prev, s`next
    ensures pe == n + Min(insize, |s| - n) && qe == pe + Min(insize, |s| - pe)
    ensures out == out0 + Merge(cmp, s[n..pe], s[pe..qe])
    ensures p == At(s, qe) && Merging(s, out, qe, qe, qe, list, tail)
  {
    var q, psize := SkipRun(p0, insize, s, n);
    var qsize := insize;
    p := p0;
    pe := n + psize;
    qe := pe + Min(insize, |s| - pe);
    ghost var pi, qi := n, pe;
    list, tail, out := list0, tail0, out0;
    ghost var goal := out0 + Merge(cmp, s[n..pe], s[pe..qe]);
    while psize != 0 || (qsize != 0 && q != null)
      invariant n <= pi <= pe <= qi <= qe <= |s|
      invariant psize == pe - pi && qsize == insize - (qi - pe)
      invariant q == At(s, qi) && (psize > 0 ==> p == s[pi])
      invariant Merging(s, out, pi, pe, qi, list, tail)
      invariant out + Merge(cmp, s[pi..pe], s[qi..qe]) == goal
      decreases psize + qsize
    {
      p, psize, q, qsize, list, tail, out, pi, qi :=
        MergeStep(cmp, p, psize, q, qsize, list, tail, s, out, pi, pe, qi, qe);
    }
    assert s[pi..pe] == [] && s[qi..qe] == [];
    p := q;
  }

  lemma PassUnfold(cmp: (Handle, Handle) -> int, s: seq<Handle>, n: nat, pe: nat, qe: nat, w: nat)
    requires w > 0 && n < |s| && pe == n + Min(w, |s| - n) && qe == pe + Min(w, |s| - pe)
    ensures Pass(cmp, s[n..], w) == Merge(cmp, s[n..pe], s[pe..qe]) + Pass(cmp, s[qe..], w)
  {
    assert s[n..] == s[n..pe] + s[pe..qe] + s[qe..];
    PassSplit(cmp, s[n..pe], s[pe..qe], s[qe..], w);
  }

  /** The merge at `p`, seen from the pass it belongs to. */
  method PassStep(cmp: (Handle, Handle) -> int, p0: Handle, insize: nat, list0: Handle?, tail0: Handle?,
                  ghost s: seq<Handle>, ghost n0: nat, ghost out0: seq<Handle>)
    returns (p: Handle?, list: Handle?, tail: Handle?, ghost out: seq<Handle>, ghost n: nat)
    requires insize > 0 && NoDup(s) && n0 < |s| && p0 == s[n0]
    requires Merging(s, out0, n0, n0, n0, list0, tail0)
    modifies s`prev, s`next
    ensures n == Min(n0 + 2 * insize, |s|) && p == At(s, n) && Merging(s, out, n, n, n, list, tail)
    ensures out + Pass(cmp, s[n..], insize) == out0 + Pass(cmp, s[n0..], insize)
  {
    ghost var pe;
    p, list, tail, out, pe, n := MergeRuns(cmp, p0, insize, list0, tail0, s, n0, out0);
    PassUnfold(cmp, s, n0, pe, n, insize);
    Associate(out0, Merge(cmp, s[n0..pe], s[pe..n]), Pass(cmp, s[n..], insize));
  }

  /** The last element of the finished list gets a null `next`. */
  method CloseList(tail: Handle?, ghost s: seq<Handle>, ghost out: seq<Handle>, ghost S: set<Handle>)
    requires Emitted(out) && tail == Last(out) && Elems(out) <= Elems(s)
    requires forall i :: 0 <= i < |s| ==> s[i] in S
    modifies S`next
    ensures AppLinked(out) && forall i :: 0 <= i < |out| ==> out[i] in S
  {
    forall i | 0 <= i < |out| ensures out[i] in S { assert out[i] in Elems(s); }
    if tail != null {
      tail.next := null;
    }
  }

  /** The loop of one pass: neighbouring runs of width `insize` are merged onto the output list. */
  method PassLoop(cmp: (Handle, Handle) -> int, p0: Handle, insize: nat, ghost s: seq<Handle>)
    returns (list: Handle?, tail: Handle?, nmerges: nat, ghost out: seq<Handle>)
    requires insize > 0 && NoDup(s) && s != [] && p0 == s[0] && Merging(s, [], 0, 0, 0, null, null)
    modifies s`prev, s`next
    ensures out == Pass(cmp, s, insize) && Merging(s, out, |s|, |s|, |s|, list, tail)
    ensures nmerges <= 1 <==> |s| <= 2 * insize
  {
    var p: Handle? := p0;
    list, tail, nmerges, out := null, null, 0, [];
    ghost var n := 0;
    assert s[0..] == s;
    while p != null
      invariant n <= |s| && p == At(s, n)
      invariant Merging(s, out, n, n, n, list, tail)
      invariant out + Pass(cmp, s[n..], insize) == Pass(cmp, s, insize)
      invariant nmerges == 0 <==> n == 0
      invariant nmerges == 1 ==> n == Min(2 * insize, |s|)
      invariant nmerges > 1 ==> n > 2 * insize
      decreases |s| - n
    {
      nmerges := nmerges + 1;
      p, list, tail, out, n := PassStep(cmp, p, insize, list, tail, s, n, out);
    }
    assert s[n..] == [];
  }

  /** One pass over the list: merge the runs, then close the last `next`. */
  method PassOver(cmp: (Handle, Handle) -> int, p0: Handle, insize: nat, ghost s: seq<Handle>, ghost S: set<Handle>)
    returns (list: Handle?, tail: Handle?, nmerges: nat, ghost out: seq<Handle>)
    requires insize > 0 && NoDup(s) && s != [] && p0 == s[0] && AppLinked(s)
    requires forall i :: 0 <= i < |s| ==> s[i] in S
    modifies S`prev, S`next
    ensures out == Pass(cmp, s, insize) && (forall i :: 0 <= i < |out| ==> out[i] in S)
    ensures NoDup(out) && AppLinked(out) && list == First(out) && tail == Last(out)
    ensures nmerges <= 1 <==> |s| <= 2 * insize
  {
    list, tail, nmerges, out := PassLoop(cmp, p0, insize, s);
    CloseList(tail, s, out, S);
  }

  /** HASH_SRT on a non-empty list: passes of doubling width until one pass needs at most one merge. */
  method SortList(cmp: (Handle, Handle) -> int, head: Handle, ghost s: seq<Handle>, ghost S: set<Handle>)
    returns (list: Handle?, tail: Handle?, ghost out: seq<Handle>)
    requires NoDup(s) && s != [] && head == s[0] && AppLinked(s)
    requires forall i :: 0 <= i < |s| ==> s[i] in S
    modifies S`prev, S`next
    ensures out == MergeSort(cmp, s)
    ensures NoDup(out) && AppLinked(out) && list == First(out) && tail == Last(out)
  {
    var insize := 1;
    var looping := true;
    list, tail, out := head, null, s;
    while looping
      invariant insize > 0 && NoDup(out) && AppLinked(out) && out != [] && list == First(out)
      invariant (forall i :: 0 <= i < |out| ==> out[i] in S) && |out| == |s|
      invariant if looping then SortFrom(cmp, out, insize) == MergeSort(cmp, s)
                else out == MergeSort(cmp, s) && tail == Last(out)
      decreases looping, |s| - insize
    {
      var nmerges;
      list, tail, nmerges, out := PassOver(cmp, list, insize, out, S);
      if nmerges <= 1 {
        looping := false;
      }
      insize := 2 * insize;
    }
  }
}
