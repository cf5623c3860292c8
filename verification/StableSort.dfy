/** The value-level meaning of ordered insertion and of the bottom-up merge sort.
    `StableSorted` is the reference: insert the elements one by one, each behind every
    element that does not compare greater. The comparison result is used as in C: only
    its sign matters. */
module StableSort {
  import opened Sequences

  /** `a` may stand before `b`. */
  predicate Le<T>(cmp: (T, T) -> int, a: T, b: T) {
    cmp(a, b) <= 0
  }

  ghost predicate TotalPreorder<T>(cmp: (T, T) -> int, S: set<T>) {
    && (forall a, b :: a in S && b in S ==> Le(cmp, a, b) || Le(cmp, b, a))
    && (forall a, b, c :: a in S && b in S && c in S && Le(cmp, a, b) && Le(cmp, b, c) ==> Le(cmp, a, c))
  }

  ghost function Elems<T>(s: seq<T>): set<T> {
    set x | x in s
  }

  ghost predicate Sorted<T>(cmp: (T, T) -> int, s: seq<T>) {
    forall i, j :: 0 <= i < j < |s| ==> Le(cmp, s[i], s[j])
  }

  // ---------------------------------------------------------------- ordered insertion

  /** Index of the first element that compares greater than `x`, or the length. */
  function FirstGreater<T>(cmp: (T, T) -> int, s: seq<T>, x: T): (k: nat)
    ensures k <= |s|
    ensures forall i :: 0 <= i < k ==> Le(cmp, s[i], x)
    ensures k < |s| ==> !Le(cmp, s[k], x)
  {
    if s == [] || !Le(cmp, s[0], x) then 0 else 1 + FirstGreater(cmp, s[1..], x)
  }

  function InsertOrdered<T>(cmp: (T, T) -> int, s: seq<T>, x: T): (r: seq<T>)
    ensures |r| == |s| + 1
  {
    var k := FirstGreater(cmp, s, x);
    s[..k] + [x] + s[k..]
  }

  function StableSorted<T>(cmp: (T, T) -> int, s: seq<T>): (r: seq<T>)
    ensures |r| == |s|
  {
    if s == [] then []
    else InsertOrdered(cmp, StableSorted(cmp, s[..|s| - 1]), s[|s| - 1])
  }

  lemma InsertHead<T>(cmp: (T, T) -> int, s: seq<T>, x: T)
    ensures s != [] && Le(cmp, s[0], x) ==> InsertOrdered(cmp, s, x) == [s[0]] + InsertOrdered(cmp, s[1..], x)
    ensures s == [] || !Le(cmp, s[0], x) ==> InsertOrdered(cmp, s, x) == [x] + s
  {
    if s != [] && Le(cmp, s[0], x) {
      var k := FirstGreater(cmp, s[1..], x);
      assert s[..k + 1] == [s[0]] + s[1..][..k];
      assert s[k + 1..] == s[1..][k..];
    }
  }

  lemma InsertKeepsElements<T>(cmp: (T, T) -> int, s: seq<T>, x: T)
    ensures multiset(InsertOrdered(cmp, s, x)) == multiset(s + [x])
  {
    var k := FirstGreater(cmp, s, x);
    assert s == s[..k] + s[k..];
  }

  lemma InsertSorted<T>(cmp: (T, T) -> int, s: seq<T>, x: T, S: set<T>)
    requires TotalPreorder(cmp, S) && Elems(s + [x]) <= S && Sorted(cmp, s)
    ensures Sorted(cmp, InsertOrdered(cmp, s, x))
  {
    var k := FirstGreater(cmp, s, x);
    var r := InsertOrdered(cmp, s, x);
    assert x in S by { assert x in s + [x]; }
    assert forall e :: e in s ==> e in S by { assert forall e :: e in s ==> e in s + [x]; }
    forall i, j | 0 <= i < j < |r| ensures Le(cmp, r[i], r[j]) {
      if i == k {
        assert r[j] == s[j - 1] && r[i] == x;
        assert Le(cmp, x, s[k]);
        assert k == j - 1 || Le(cmp, s[k], s[j - 1]);
      } else if j == k {
        assert r[i] == s[i];
      } else {
        var i' := if i < k then i else i - 1;
        var j' := if j < k then j else j - 1;
        assert r[i] == s[i'] && r[j] == s[j'];
      }
    }
  }

  /** The elements that compare equal to `y`, in the order in which they stand in `s`. */
  function EqualTo<T>(cmp: (T, T) -> int, y: T, s: seq<T>): seq<T> {
    if s == [] then []
    else (if Le(cmp, y, s[0]) && Le(cmp, s[0], y) then [s[0]] else []) + EqualTo(cmp, y, s[1..])
  }

  lemma {:induction false} EqualToConcat<T>(cmp: (T, T) -> int, y: T, s: seq<T>, t: seq<T>)
    ensures EqualTo(cmp, y, s + t) == EqualTo(cmp, y, s) + EqualTo(cmp, y, t)
  {
    if s == [] {
      assert s + t == t;
    } else {
      assert (s + t)[1..] == s[1..] + t;
      EqualToConcat(cmp, y, s[1..], t);
    }
  }

  lemma {:induction false} NoneEqual<T>(cmp: (T, T) -> int, y: T, s: seq<T>)
    requires forall e :: e in s ==> !Le(cmp, e, y)
    ensures EqualTo(cmp, y, s) == []
  {
    if s != [] {
      NoneEqual(cmp, y, s[1..]);
    }
  }

  lemma NoEqualBehind<T>(cmp: (T, T) -> int, s: seq<T>, x: T, y: T, S: set<T>)
    requires TotalPreorder(cmp, S) && Elems(s) <= S && x in S && y in S && Sorted(cmp, s)
    requires Le(cmp, x, y) && Le(cmp, y, x)
    ensures EqualTo(cmp, y, s[FirstGreater(cmp, s, x)..]) == []
  {
    var k := FirstGreater(cmp, s, x);
    forall e | e in s[k..] ensures !Le(cmp, e, y) {
      var j :| k <= j < |s| && s[j] == e;
      assert k == j || Le(cmp, s[k], s[j]);
      assert s[k] in S && s[j] in S;
      assert Le(cmp, e, y) ==> Le(cmp, e, x);
    }
    NoneEqual(cmp, y, s[k..]);
  }

  lemma InsertEqualTo<T>(cmp: (T, T) -> int, s: seq<T>, x: T, y: T)
    requires EqualTo(cmp, y, [x]) == [] || EqualTo(cmp, y, s[FirstGreater(cmp, s, x)..]) == []
    ensures EqualTo(cmp, y, InsertOrdered(cmp, s, x)) == EqualTo(cmp, y, s) + EqualTo(cmp, y, [x])
  {
    var k := FirstGreater(cmp, s, x);
    var a, b := s[..k], s[k..];
    EqualToThree(cmp, y, a, [x], b);
    EqualToConcat(cmp, y, a, b);
    assert s == a + b;
    Exchange(EqualTo(cmp, y, a), EqualTo(cmp, y, [x]), EqualTo(cmp, y, b));
  }

  lemma EqualToThree<T>(cmp: (T, T) -> int, y: T, a: seq<T>, b: seq<T>, c: seq<T>)
    ensures EqualTo(cmp, y, a + b + c) == EqualTo(cmp, y, a) + EqualTo(cmp, y, b) + EqualTo(cmp, y, c)
  {
    EqualToConcat(cmp, y, a + b, c);
    EqualToConcat(cmp, y, a, b);
  }

  lemma Exchange<T>(a: seq<T>, x: seq<T>, b: seq<T>)
    requires x == [] || b == []
    ensures a + x + b == a + b + x
  {
  }

  /** A later element never overtakes an earlier one that compares equal to it. */
  lemma InsertStable<T>(cmp: (T, T) -> int, s: seq<T>, x: T, y: T, S: set<T>)
    requires TotalPreorder(cmp, S) && Elems(s) <= S && x in S && y in S && Sorted(cmp, s)
    ensures EqualTo(cmp, y, InsertOrdered(cmp, s, x)) == EqualTo(cmp, y, s + [x])
  {
    if Le(cmp, x, y) && Le(cmp, y, x) {
      NoEqualBehind(cmp, s, x, y, S);
    } else {
      assert EqualTo(cmp, y, [x]) == [];
    }
    InsertEqualTo(cmp, s, x, y);
    EqualToConcat(cmp, y, s, [x]);
  }

  /** The reference really is a stable sort of its input: sorted, the same elements,
      and elements that compare equal keep their order. */
  lemma {:induction false} StableSortedIsStableSort<T>(cmp: (T, T) -> int, s: seq<T>, S: set<T>)
    requires TotalPreorder(cmp, S) && Elems(s) <= S
    ensures Sorted(cmp, StableSorted(cmp, s))
    ensures multiset(StableSorted(cmp, s)) == multiset(s)
    ensures forall y :: y in S ==> EqualTo(cmp, y, StableSorted(cmp, s)) == EqualTo(cmp, y, s)
    decreases |s|
  {
    if s != [] {
      var s', x := s[..|s| - 1], s[|s| - 1];
      assert s == s' + [x];
      assert forall e :: e in s' ==> e in s;
      StableSortedIsStableSort(cmp, s', S);
      var r := StableSorted(cmp, s');
      assert forall e :: e in r ==> e in s' by {
        forall e | e in r ensures e in s' { assert e in multiset(r); }
      }
      InsertSorted(cmp, r, x, S);
      InsertKeepsElements(cmp, r, x);
      forall y | y in S ensures EqualTo(cmp, y, StableSorted(cmp, s)) == EqualTo(cmp, y, s) {
        InsertStable(cmp, r, x, y, S);
        EqualToConcat(cmp, y, r, [x]);
        EqualToConcat(cmp, y, s', [x]);
      }
    }
  }

  // ---------------------------------------------------------------- bottom-up merge sort

  /** One merge step sequence: the left run wins ties. */
  function Merge<T>(cmp: (T, T) -> int, p: seq<T>, q: seq<T>): (r: seq<T>)
    ensures |r| == |p| + |q|
  {
    if p == [] then q
    else if q == [] then p
    else if Le(cmp, p[0], q[0]) then [p[0]] + Merge(cmp, p[1..], q)
    else [q[0]] + Merge(cmp, p, q[1..])
  }

  function Min(a: nat, b: nat): nat {
    if a < b then a else b
  }

  /** One pass: merge neighbouring runs of width `w`, left to right. */
  function Pass<T>(cmp: (T, T) -> int, s: seq<T>, w: nat): (r: seq<T>)
    requires w > 0
    ensures |r| == |s|
  {
    if s == [] then []
    else
      var a := Min(w, |s|);
      var b := Min(2 * w, |s|);
      Merge(cmp, s[..a], s[a..b]) + Pass(cmp, s[b..], w)
  }

  /** Passes of doubling width, the last being the one that merged at most one pair. */
  function SortFrom<T>(cmp: (T, T) -> int, s: seq<T>, w: nat): (r: seq<T>)
    requires w > 0
    ensures |r| == |s|
    decreases |s| - w
  {
    if |s| <= 2 * w then Pass(cmp, s, w) else SortFrom(cmp, Pass(cmp, s, w), 2 * w)
  }

  function MergeSort<T>(cmp: (T, T) -> int, s: seq<T>): (r: seq<T>)
    ensures |r| == |s|
  {
    SortFrom(cmp, s, 1)
  }

  lemma {:induction false} MergeKeepsElements<T>(cmp: (T, T) -> int, p: seq<T>, q: seq<T>)
    ensures multiset(Merge(cmp, p, q)) == multiset(p) + multiset(q)
    decreases |p| + |q|
  {
    if p != [] && q != [] {
      assert p == [p[0]] + p[1..] && q == [q[0]] + q[1..];
      if Le(cmp, p[0], q[0]) {
        MergeKeepsElements(cmp, p[1..], q);
      } else {
        MergeKeepsElements(cmp, p, q[1..]);
      }
    }
  }

  lemma {:induction false} PassKeepsElements<T>(cmp: (T, T) -> int, s: seq<T>, w: nat)
    requires w > 0
    ensures multiset(Pass(cmp, s, w)) == multiset(s)
    decreases |s|
  {
    if s != [] {
      var a, b := Min(w, |s|), Min(2 * w, |s|);
      assert s == s[..a] + s[a..b] + s[b..];
      MergeKeepsElements(cmp, s[..a], s[a..b]);
      PassKeepsElements(cmp, s[b..], w);
    }
  }

  /** For any comparison function at all, even an inconsistent one, sorting only permutes. */
  lemma {:induction false} SortFromKeepsElements<T>(cmp: (T, T) -> int, s: seq<T>, w: nat)
    requires w > 0
    ensures multiset(SortFrom(cmp, s, w)) == multiset(s)
    decreases |s| - w
  {
    PassKeepsElements(cmp, s, w);
    if |s| > 2 * w {
      SortFromKeepsElements(cmp, Pass(cmp, s, w), 2 * w);
    }
  }

  /** Inserting behind a merge is inserting into its right run. */
  lemma {:induction false} MergeInsert<T>(cmp: (T, T) -> int, p: seq<T>, q: seq<T>, x: T, S: set<T>)
    requires TotalPreorder(cmp, S) && Elems(p) <= S && Elems(q) <= S && x in S
    ensures InsertOrdered(cmp, Merge(cmp, p, q), x) == Merge(cmp, p, InsertOrdered(cmp, q, x))
    decreases |p| + |q|
  {
    InsertHead(cmp, q, x);
    InsertHead(cmp, p, x);
    InsertHead(cmp, Merge(cmp, p, q), x);
    if p == [] {
    } else if q == [] {
      assert Merge(cmp, p[1..], q) == p[1..];
      MergeInsert(cmp, p[1..], q, x, S);
      InsertHead(cmp, [], x);
    } else {
      assert p[0] in S && q[0] in S;
      assert q == [q[0]] + q[1..];
      if Le(cmp, p[0], q[0]) {
        MergeInsert(cmp, p[1..], q, x, S);
        assert Merge(cmp, p, q)[1..] == Merge(cmp, p[1..], q);
        if !Le(cmp, p[0], x) {
          assert !Le(cmp, q[0], x);
          assert ([x] + q)[1..] == q;
        }
      } else {
        MergeInsert(cmp, p, q[1..], x, S);
        assert Merge(cmp, p, q)[1..] == Merge(cmp, p, q[1..]);
        var r := InsertOrdered(cmp, q, x);
        if !Le(cmp, q[0], x) {
          assert !Le(cmp, p[0], x);
          assert r[1..] == q;
        } else {
          assert r[1..] == InsertOrdered(cmp, q[1..], x);
        }
      }
    }
  }

  lemma {:induction false} MergeOfSorted<T>(cmp: (T, T) -> int, p: seq<T>, q: seq<T>, S: set<T>)
    requires TotalPreorder(cmp, S) && Elems(p) <= S && Elems(q) <= S
    ensures Merge(cmp, StableSorted(cmp, p), StableSorted(cmp, q)) == StableSorted(cmp, p + q)
    decreases |q|
  {
    if q == [] {
      assert p + q == p;
    } else {
      var q', x := q[..|q| - 1], q[|q| - 1];
      assert forall e :: e in q' ==> e in q;
      assert (p + q)[..|p + q| - 1] == p + q';
      MergeOfSorted(cmp, p, q', S);
      StableSortedIsStableSort(cmp, p, S);
      StableSortedIsStableSort(cmp, q', S);
      SameElems(StableSorted(cmp, p), p);
      SameElems(StableSorted(cmp, q'), q');
      MergeInsert(cmp, StableSorted(cmp, p), StableSorted(cmp, q'), x, S);
    }
  }

  lemma SameElems<T>(s: seq<T>, t: seq<T>)
    requires multiset(s) == multiset(t)
    ensures Elems(s) == Elems(t)
  {
    forall e ensures e in s <==> e in t {
      assert e in multiset(s) <==> e in multiset(t);
    }
  }

  /** Every run of width `w` replaced by its stable sort. */
  function RunsSorted<T>(cmp: (T, T) -> int, s: seq<T>, w: nat): (r: seq<T>)
    requires w > 0
    ensures |r| == |s|
  {
    if |s| <= w then StableSorted(cmp, s)
    else StableSorted(cmp, s[..w]) + RunsSorted(cmp, s[w..], w)
  }

  lemma {:induction false} RunsOfOne<T>(cmp: (T, T) -> int, s: seq<T>)
    ensures RunsSorted(cmp, s, 1) == s
    decreases |s|
  {
    if |s| >= 1 {
      assert s[..1][..0] == [] && StableSorted(cmp, s[..1][..0]) == [];
      assert StableSorted(cmp, s[..1]) == s[..1];
      if |s| == 1 {
        assert s[..1] == s;
      } else {
        RunsOfOne(cmp, s[1..]);
      }
    }
  }

  lemma PassSplit<T>(cmp: (T, T) -> int, p: seq<T>, q: seq<T>, rest: seq<T>, w: nat)
    requires w > 0 && p != [] && |p| <= w && |q| <= w
    requires |p| < w ==> q == []
    requires |q| < w ==> rest == []
    ensures Pass(cmp, p + q + rest, w) == Merge(cmp, p, q) + Pass(cmp, rest, w)
  {
    var s := p + q + rest;
    var a, b := Min(w, |s|), Min(2 * w, |s|);
    assert s[..a] == p && s[a..b] == q && s[b..] == rest;
  }

  lemma RunsSplit<T>(cmp: (T, T) -> int, p: seq<T>, rest: seq<T>, w: nat)
    requires w > 0 && p != [] && |p| <= w
    requires |p| < w ==> rest == []
    ensures RunsSorted(cmp, p + rest, w) == StableSorted(cmp, p) + RunsSorted(cmp, rest, w)
  {
    var s := p + rest;
    if |s| <= w {
      assert s == p && rest == [];
    } else {
      assert s[..w] == p && s[w..] == rest;
    }
  }

  lemma RunsSplitTwice<T>(cmp: (T, T) -> int, p: seq<T>, q: seq<T>, rest: seq<T>, w: nat)
    requires w > 0 && p != [] && |p| <= w && |q| <= w
    requires |p| < w ==> q == []
    requires |q| < w ==> rest == []
    ensures RunsSorted(cmp, p + q + rest, w) == StableSorted(cmp, p) + StableSorted(cmp, q) + RunsSorted(cmp, rest, w)
  {
    Associate(p, q, rest);
    RunsSplit(cmp, p, q + rest, w);
    if q == [] {
      assert q + rest == rest;
      assert StableSorted(cmp, p) + [] == StableSorted(cmp, p);
    } else {
      RunsSplit(cmp, q, rest, w);
      Associate(StableSorted(cmp, p), StableSorted(cmp, q), RunsSorted(cmp, rest, w));
    }
  }

  /** A pass doubles the width of the sorted runs. */
  lemma {:induction false} PassDoublesRuns<T>(cmp: (T, T) -> int, s: seq<T>, w: nat, S: set<T>)
    requires w > 0 && TotalPreorder(cmp, S) && Elems(s) <= S
    ensures Pass(cmp, RunsSorted(cmp, s, w), w) == RunsSorted(cmp, s, 2 * w)
    decreases |s|, 1
  {
    if s != [] {
      var a, b := Min(w, |s|), Min(2 * w, |s|);
      var p, q, rest := s[..a], s[a..b], s[b..];
      assert forall e :: e in p || e in q || e in rest ==> e in s;
      assert s == p + q + rest;
      PassDoublesSplit(cmp, s, p, q, rest, w, S);
    }
  }

  lemma {:induction false} PassDoublesSplit<T>(cmp: (T, T) -> int, s: seq<T>, p: seq<T>, q: seq<T>, rest: seq<T>,
                                               w: nat, S: set<T>)
    requires w > 0 && p != [] && |p| <= w && |q| <= w && s == p + q + rest
    requires |p| < w ==> q == []
    requires |q| < w ==> rest == []
    requires TotalPreorder(cmp, S) && Elems(p) <= S && Elems(q) <= S && Elems(rest) <= S
    ensures Pass(cmp, RunsSorted(cmp, s, w), w) == RunsSorted(cmp, s, 2 * w)
    decreases |p| + |q| + |rest|, 0, 1
  {
    RunsSplitTwice(cmp, p, q, rest, w);
    RunsSplit(cmp, p + q, rest, 2 * w);
    PassRuns(cmp, p, q, rest, w, S);
  }

  lemma {:induction false} PassRuns<T>(cmp: (T, T) -> int, p: seq<T>, q: seq<T>, rest: seq<T>, w: nat, S: set<T>)
    requires w > 0 && p != [] && |p| <= w && |q| <= w
    requires |p| < w ==> q == []
    requires |q| < w ==> rest == []
    requires TotalPreorder(cmp, S) && Elems(p) <= S && Elems(q) <= S && Elems(rest) <= S
    ensures Pass(cmp, StableSorted(cmp, p) + StableSorted(cmp, q) + RunsSorted(cmp, rest, w), w)
         == StableSorted(cmp, p + q) + RunsSorted(cmp, rest, 2 * w)
    decreases |p| + |q| + |rest|, 0, 0
  {
    PassSplit(cmp, StableSorted(cmp, p), StableSorted(cmp, q), RunsSorted(cmp, rest, w), w);
    MergeOfSorted(cmp, p, q, S);
    PassDoublesRuns(cmp, rest, w, S);
  }

  lemma {:induction false} SortFromRuns<T>(cmp: (T, T) -> int, s: seq<T>, w: nat, S: set<T>)
    requires w > 0 && TotalPreorder(cmp, S) && Elems(s) <= S
    ensures SortFrom(cmp, RunsSorted(cmp, s, w), w) == StableSorted(cmp, s)
    decreases |s| - w
  {
    PassDoublesRuns(cmp, s, w, S);
    if |s| > 2 * w {
      SortFromRuns(cmp, s, 2 * w, S);
    }
  }

  /** Main result: for a total preorder the in-place sort computes the stable sort. */
  lemma MergeSortIsStableSort<T>(cmp: (T, T) -> int, s: seq<T>, S: set<T>)
    requires TotalPreorder(cmp, S) && Elems(s) <= S
    ensures MergeSort(cmp, s) == StableSorted(cmp, s)
  {
    RunsOfOne(cmp, s);
    SortFromRuns(cmp, s, 1, S);
  }
}
