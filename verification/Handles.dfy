/** The hash handle of uthash: one node that is threaded through two doubly linked lists,
    the application order (`prev`/`next`) and one bucket chain (`hhPrev`/`hhNext`). */
module Handles {
  import opened Bits

  type Key = seq<Byte>

  class Handle {
    const key: Key
    var hashv: nat
    var prev: Handle?
    var next: Handle?
    var hhPrev: Handle?
    var hhNext: Handle?

    constructor (key: Key)
      ensures this.key == key
    {
      this.key := key;
    }
  }

  function Succ(s: seq<Handle>, i: nat): Handle? {
    if i + 1 < |s| then s[i + 1] else null
  }

  function Pred(s: seq<Handle>, i: nat): Handle?
    requires i <= |s|
  {
    if i > 0 then s[i - 1] else null
  }

  function At(s: seq<Handle>, i: nat): Handle? {
    if i < |s| then s[i] else null
  }

  function First(s: seq<Handle>): Handle? {
    if s == [] then null else s[0]
  }

  function Last(s: seq<Handle>): Handle? {
    if s == [] then null else s[|s| - 1]
  }

  /** `s` is the application order spelled by the `prev` and `next` fields. */
  ghost predicate AppLinked(s: seq<Handle>)
    reads s`prev, s`next
  {
    && (forall i {:trigger s[i].prev} :: 0 <= i < |s| ==> s[i].prev == Pred(s, i))
    && (forall i {:trigger s[i].next} :: 0 <= i < |s| ==> s[i].next == Succ(s, i))
  }

  /** `s` is the chain spelled by the `hhPrev` and `hhNext` fields. */
  ghost predicate ChainLinked(s: seq<Handle>)
    reads s`hhPrev, s`hhNext
  {
    && (forall i {:trigger s[i].hhPrev} :: 0 <= i < |s| ==> s[i].hhPrev == Pred(s, i))
    && (forall i {:trigger s[i].hhNext} :: 0 <= i < |s| ==> s[i].hhNext == Succ(s, i))
  }
}
