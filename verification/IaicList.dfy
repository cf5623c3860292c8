/** The circular doubly linked list of iaic_list.h: a ring of nodes, one of which serves as
    the sentinel. A node carries the fields of the record it is embedded in; the list
    operations never touch them, and nothing ever states what the sentinel's fields hold. */
module IaicList {
  import opened Sequences
  import opened BoModel

  class Node {
    var prev: Node?
    var next: Node?

    // block_t
    var size: nat
    var idle: bool
    var isBo: bool
    var handle: nat
    var paddr: nat
    var vaddr: int

    constructor ()
    {
    }

    /** A freshly allocated block_t, not yet on any list. */
    constructor Block(b: Blk)
      ensures Val() == b
    {
      size, idle, isBo := b.size, b.idle, b.isBo;
      handle, paddr, vaddr := b.handle, b.paddr, b.vaddr;
    }

    function Val(): Blk
      reads this`size, this`idle, this`isBo, this`handle, this`paddr, this`vaddr
    {
      Blk(size, idle, isBo, handle, paddr, vaddr)
    }
  }

  function NextOf(c: seq<Node>, i: nat): Node
    requires i < |c|
  {
    if i + 1 < |c| then c[i + 1] else c[0]
  }

  function PrevOf(c: seq<Node>, i: nat): Node
    requires i < |c|
  {
    if i > 0 then c[i - 1] else c[|c| - 1]
  }

  /** `c` is a ring, read from some node on. */
  ghost predicate Ring(c: seq<Node>)
    reads c`prev, c`next
  {
    && c != [] && NoDup(c)
    && (forall i {:trigger c[i].next} :: 0 <= i < |c| ==> c[i].next == NextOf(c, i))
    && (forall i {:trigger c[i].prev} :: 0 <= i < |c| ==> c[i].prev == PrevOf(c, i))
  }

  /** AIP_LIST_INIT. */
  method Init(list: Node)
    modifies list`prev, list`next
    ensures Ring([list])
  {
    list.prev := list;
    list.next := list;
  }

  /** __list_add: link `node` between the neighbours `prev` and `next`, at positions `k` and `k + 1`. */
  method Link(node: Node, prev: Node, next: Node, ghost c: seq<Node>, ghost k: nat)
    requires Ring(c) && node !in c && k < |c| && prev == c[k] && next == NextOf(c, k)
    modifies node`prev, node`next, c`prev, c`next
    ensures Ring(c[..k + 1] + [node] + c[k + 1..])
  {
    next.prev := node;
    node.next := next;
    node.prev := prev;
    prev.next := node;
    ghost var d := c[..k + 1] + [node] + c[k + 1..];
    forall i | 0 <= i < |d| ensures d[i].next == NextOf(d, i) && d[i].prev == PrevOf(d, i) {
      if i != k + 1 {
        var j := if i <= k then i else i - 1;
        assert d[i] == c[j];
      }
    }
  }

  /** aip_list_add: directly behind the node at position `k`. */
  method Add(node: Node, head: Node, ghost c: seq<Node>, ghost k: nat)
    requires Ring(c) && node !in c && k < |c| && head == c[k]
    modifies node`prev, node`next, c`prev, c`next
    ensures Ring(c[..k + 1] + [node] + c[k + 1..])
  {
    assert head.next == NextOf(c, k);
    Link(node, head, head.next, c, k);
  }

  /** aip_list_add_tail: directly before the head, that is, at the end of the list. */
  method AddTail(node: Node, head: Node, ghost c: seq<Node>)
    requires Ring(c) && node !in c && head == c[0]
    modifies node`prev, node`next, c`prev, c`next
    ensures Ring(c + [node])
  {
    assert head.prev == PrevOf(c, 0);
    Link(node, head.prev, head, c, |c| - 1);
    assert c[..|c|] + [node] + c[|c|..] == c + [node];
  }

  /** __list_del_entry: the neighbours of the node at position `k` meet; the node keeps its pointers.
      A node that is a ring of its own stays one. */
  method DelEntry(entry: Node, ghost c: seq<Node>, ghost k: nat)
    requires Ring(c) && k < |c| && entry == c[k]
    modifies c`prev, c`next
    ensures if |c| == 1 then Ring(c) else Ring(RemoveAt(c, k))
    ensures entry !in RemoveAt(c, k)
  {
    assert entry.prev == PrevOf(c, k) && entry.next == NextOf(c, k);
    entry.next.prev := entry.prev;
    entry.prev.next := entry.next;
    if |c| == 1 {
      assert c == [entry];
    } else {
      ghost var d := RemoveAt(c, k);
      forall i | 0 <= i < |d| ensures d[i].next == NextOf(d, i) && d[i].prev == PrevOf(d, i) {
        ghost var j := if i < k then i else i + 1;
        assert d[i] == c[j] && old(c[j].next) == NextOf(c, j) && old(c[j].prev) == PrevOf(c, j);
      }
    }
  }

  /** aip_list_del. */
  method Del(entry: Node, ghost c: seq<Node>, ghost k: nat)
    requires Ring(c) && k < |c| && entry == c[k]
    modifies c`prev, c`next
    ensures |c| > 1 ==> Ring(RemoveAt(c, k))
    ensures entry.prev == null && entry.next == null
  {
    DelEntry(entry, c, k);
    entry.prev := null;
    entry.next := null;
  }

  /** aip_list_del_init: the removed node becomes a list of its own. */
  method DelInit(entry: Node, ghost c: seq<Node>, ghost k: nat)
    requires Ring(c) && k < |c| && entry == c[k]
    modifies c`prev, c`next
    ensures |c| > 1 ==> Ring(RemoveAt(c, k))
    ensures Ring([entry])
  {
    DelEntry(entry, c, k);
    Init(entry);
  }

  /** aip_list_replace: `node` takes the place of the node at position `k`. */
  method Replace(old_node: Node, node: Node, ghost c: seq<Node>, ghost k: nat)
    requires Ring(c) && node !in c && k < |c| && old_node == c[k]
    modifies node`prev, node`next, c`prev, c`next
    ensures Ring(c[k := node])
  {
    assert old_node.prev == PrevOf(c, k) && old_node.next == NextOf(c, k);
    node.next := old_node.next;
    node.next.prev := node;
    node.prev := old_node.prev;
    node.prev.next := node;
  }

  /** aip_list_replace_init: the replaced node becomes a list of its own. */
  method ReplaceInit(old_node: Node, node: Node, ghost c: seq<Node>, ghost k: nat)
    requires Ring(c) && node !in c && k < |c| && old_node == c[k]
    modifies node`prev, node`next, c`prev, c`next
    ensures Ring(c[k := node]) && Ring([old_node])
  {
    Replace(old_node, node, c, k);
    Init(old_node);
  }

  /** list_move: to the front of the list. */
  method Move(node: Node, head: Node, ghost c: seq<Node>, ghost k: nat)
    requires Ring(c) && 0 < k < |c| && node == c[k] && head == c[0]
    modifies c`prev, c`next
    ensures Ring([head, node] + RemoveAt(c, k)[1..])
  {
    ghost var d := RemoveAt(c, k);
    SecondPlace(d, head, node);
    DelEntry(node, c, k);
    Add(node, head, d, 0);
  }

  lemma SecondPlace(d: seq<Node>, head: Node, node: Node)
    requires d != [] && d[0] == head
    ensures d[..0 + 1] + [node] + d[0 + 1..] == [head, node] + d[1..]
  {
  }

  /** list_move_tail: to the end of the list. */
  method MoveTail(node: Node, head: Node, ghost c: seq<Node>, ghost k: nat)
    requires Ring(c) && 0 < k < |c| && node == c[k] && head == c[0]
    modifies c`prev, c`next
    ensures Ring(RemoveAt(c, k) + [node])
  {
    DelEntry(node, c, k);
    AddTail(node, head, RemoveAt(c, k));
  }

  // ---------------------------------------------------------------- predicates

  /** aip_list_is_last. */
  predicate IsLast(list: Node, head: Node)
    reads list`next
  {
    list.next == head
  }

  /** aip_list_empty. */
  predicate Empty(head: Node)
    reads head`next
  {
    head.next == head
  }

  /** aip_list_empty_careful. */
  predicate EmptyCareful(head: Node)
    reads head`next, head`prev
  {
    var next := head.next;
    next == head && next == head.prev
  }

  /** aip_list_is_singular. */
  predicate IsSingular(head: Node)
    reads head`next, head`prev
  {
    !Empty(head) && head.next == head.prev
  }

  /** What the four tests mean for a ring read from its head. */
  lemma PredicatesMean(c: seq<Node>, k: nat)
    requires Ring(c) && k < |c|
    ensures IsLast(c[k], c[0]) <==> k == |c| - 1
    ensures Empty(c[0]) <==> |c| == 1
    ensures EmptyCareful(c[0]) <==> Empty(c[0])
    ensures IsSingular(c[0]) <==> |c| == 2
  {
    assert c[k].next == NextOf(c, k);
    assert c[0].next == NextOf(c, 0) && c[0].prev == PrevOf(c, 0);
  }
}
