/** The intrusive doubly linked rings of `rtb_fwc.c`. */
module ConfigRings {
  import opened Bytes
  import opened ConfigItems

  /** A `list_head` together with the config item around it; a list's own head carries no item. A poisoned
      pointer is null. */
  class Node {
    var next: Node?
    var prev: Node?
    var offset: nat
    var data: seq<byte>

    constructor (offset: nat, data: seq<byte>)
      ensures this.offset == offset && this.data == data && next == null && prev == null
    {
      this.offset, this.data, next, prev := offset, data, null, null;
    }

    ghost function Value(): Item
      reads `offset, `data
    {
      Item(offset, data)
    }
  }

  ghost function NodeSet(items: seq<Node>): set<Node> {
    set n | n in items
  }

  ghost predicate Distinct(items: seq<Node>) {
    forall i, j :: 0 <= i < j < |items| ==> items[i] != items[j]
  }

  /** The node at position `i` of a ring, counting the head as the position after the last item and before
      the first. */
  ghost function NodeAt(head: Node, items: seq<Node>, i: int): Node
    requires -1 <= i <= |items|
  {
    if 0 <= i < |items| then items[i] else head
  }

  /** `head` and `items` form a ring, in this order: `next` and `prev` are inverse to each other. */
  ghost predicate Ring(head: Node, items: seq<Node>)
    reads head`next, head`prev, NodeSet(items)`next, NodeSet(items)`prev
  {
    && Distinct(items) && head !in items
    && head.next == NodeAt(head, items, 0) && head.prev == NodeAt(head, items, |items| - 1)
    && (forall i {:trigger items[i].next} :: 0 <= i < |items| ==> items[i].next == NodeAt(head, items, i + 1))
    && (forall i {:trigger items[i].prev} :: 0 <= i < |items| ==> items[i].prev == NodeAt(head, items, i - 1))
  }

  ghost function Values(items: seq<Node>): (r: seq<Item>)
    reads NodeSet(items)`offset, NodeSet(items)`data
    ensures |r| == |items| && forall i :: 0 <= i < |items| ==> r[i] == items[i].Value()
  {
    if |items| == 0 then [] else Values(items[..|items| - 1]) + [items[|items| - 1].Value()]
  }

  lemma RingIsDistinct(head: Node, items: seq<Node>)
    requires Ring(head, items)
    ensures Distinct(items) && head !in items
  {}

  lemma RingNeighbours(head: Node, items: seq<Node>, k: nat)
    requires Ring(head, items) && k < |items|
    ensures items[k].next in items || items[k].next == head
    ensures items[k].prev in items || items[k].prev == head
  {}

  /** Walking along `next`. */
  lemma RingStep(head: Node, items: seq<Node>, p: nat)
    requires Ring(head, items) && p <= |items|
    ensures head.next == NodeAt(head, items, 0)
    ensures NodeAt(head, items, p).next != null
    ensures p < |items| ==> items[p].next == NodeAt(head, items, p + 1)
    ensures NodeAt(head, items, p) == head <==> p == |items|
  {}

  lemma RingEnds(head: Node, items: seq<Node>)
    requires Ring(head, items)
    ensures head.prev in items || head.prev == head
    ensures head.next in items || head.next == head
  {}

  lemma ValuesConcat(a: seq<Node>, b: seq<Node>)
    ensures Values(a + b) == Values(a) + Values(b)
  {
    assert forall i :: 0 <= i < |a + b| ==> (a + b)[i] == if i < |a| then a[i] else b[i - |a|];
  }

  lemma ValuesSlices(items: seq<Node>, k: nat)
    requires k <= |items|
    ensures Values(items[..k]) == Values(items)[..k] && Values(items[k..]) == Values(items)[k..]
  {
    hide Values;
  }

  ghost function Removed(items: seq<Node>, k: nat): seq<Node>
    requires k < |items|
  {
    items[..k] + items[k + 1..]
  }

  lemma RemovedSlices(items: seq<Node>, k: nat)
    requires k < |items|
    ensures |Removed(items, k)| == |items| - 1
    ensures Removed(items, k)[..k] == items[..k] && Removed(items, k)[k..] == items[k + 1..]
    ensures items[..k + 1] == items[..k] + [items[k]]
  {}

  lemma ValuesRemoved(items: seq<Node>, k: nat)
    requires k < |items|
    ensures Values(Removed(items, k)) == Values(items)[..k] + Values(items)[k + 1..]
  {
    hide Values;
    ValuesConcat(items[..k], items[k + 1..]);
    ValuesSlices(items, k);
    ValuesSlices(items, k + 1);
  }

  lemma ValuesAround(items: seq<Node>, k: nat, entry: Node)
    requires k <= |items|
    ensures Values(items[..k] + [entry] + items[k..]) == Values(items)[..k] + [entry.Value()] + Values(items)[k..]
  {
    hide Values;
    ValuesConcat(items[..k] + [entry], items[k..]);
    ValuesConcat(items[..k], [entry]);
    ValuesSlices(items, k);
    assert Values([entry]) == [entry.Value()];
  }

  lemma ValuesSnoc(items: seq<Node>, entry: Node)
    ensures Values(items + [entry]) == Values(items) + [entry.Value()]
  {
    ValuesConcat(items, [entry]);
    assert Values([entry]) == [entry.Value()];
  }

  lemma ValuesTail(items: seq<Node>)
    requires |items| > 0
    ensures Removed(items, 0) == items[1..] && Values(items[1..]) == Values(items)[1..]
  {
    hide Values;
    ValuesSlices(items, 1);
  }

  /** The first of the nodes from position `n` on. */
  lemma FirstFrom(head: Node, items: seq<Node>, n: nat)
    requires n < |items|
    ensures
      var rest := items[n..];
      && items[n] == rest[0] && items[n + 1..] == rest[1..] && Values(rest) == [rest[0].Value()] + Values(rest[1..])
      && NodeAt(head, items, n + 1) == NodeAt(head, rest[1..], 0)
  {
    hide Values;
    var rest := items[n..];
    assert items[n + 1..] == rest[1..] && rest == [rest[0]] + rest[1..];
    ValuesConcat([rest[0]], rest[1..]);
    assert Values([rest[0]]) == [rest[0].Value()];
  }

  lemma NodesConcat(a: seq<Node>, b: seq<Node>)
    ensures NodeSet(a + b) == NodeSet(a) + NodeSet(b)
  {}

  lemma RemovedNodes(items: seq<Node>, k: nat)
    requires Distinct(items) && k < |items|
    ensures
      var rest := items[..k] + items[k + 1..];
      Distinct(rest) && NodeSet(rest) == NodeSet(items) - {items[k]}
  {
    var rest := items[..k] + items[k + 1..];
    assert forall i :: 0 <= i < |rest| ==> rest[i] == items[if i < k then i else i + 1];
    forall n | n in NodeSet(items) - {items[k]}
      ensures n in rest
    {
      var i :| 0 <= i < |items| && items[i] == n;
      assert rest[if i < k then i else i - 1] == n;
    }
  }

  lemma ReplacedNodes(items: seq<Node>, k: nat, entry: Node)
    requires Distinct(items) && k < |items| && entry !in items
    ensures Distinct(items[k := entry]) && NodeSet(items[k := entry]) == NodeSet(items) - {items[k]} + {entry}
  {
    var r := items[k := entry];
    assert r[k] == entry;
    forall n | n in NodeSet(items) - {items[k]}
      ensures n in r
    {
      var i :| 0 <= i < |items| && items[i] == n;
      assert r[i] == n;
    }
    assert forall i :: 0 <= i < |r| && i != k ==> r[i] == items[i] && items[i] in items;
  }

  // ---- list_head operations ----

  method InitListHead(list: Node)
    modifies list`next, list`prev
    ensures Ring(list, [])
  {
    list.next := list;
    list.prev := list;
  }

  method ListEmpty(head: Node, ghost items: seq<Node>) returns (empty: bool)
    requires Ring(head, items)
    ensures empty == (items == [])
  {
    empty := head.next == head;
  }

  /** `list_add_tail`. */
  method ListAddTail(entry: Node, head: Node, ghost items: seq<Node>)
    requires Ring(head, items) && entry != head && entry !in items
    modifies head`prev, entry`next, entry`prev, head.prev`next
    ensures Ring(head, items + [entry])
  {
    var last := head.prev;
    head.prev := entry;
    entry.next := head;
    entry.prev := last;
    last.next := entry;
  }

  /** `list_del`: the entry at position `k` leaves the ring. */
  method ListDel(entry: Node, ghost head: Node, ghost items: seq<Node>, ghost k: nat)
    requires Ring(head, items) && k < |items| && items[k] == entry
    modifies entry`next, entry`prev, entry.prev`next, entry.next`prev
    ensures Ring(head, items[..k] + items[k + 1..])
  {
    hide Distinct;
    DelApart(head, items, k);
    RingIsDistinct(head, items);
    RemovedNodes(items, k);
    var prev, next := entry.prev, entry.next;
    next.prev := prev;
    prev.next := next;
    entry.next := null;
    entry.prev := null;
    ghost var rest := items[..k] + items[k + 1..];
    forall i | 0 <= i < |rest|
      ensures rest[i].next == NodeAt(head, rest, i + 1)
    {
      assert rest[i] == items[if i < k then i else i + 1];
    }
    forall i | 0 <= i < |rest|
      ensures rest[i].prev == NodeAt(head, rest, i - 1)
    {
      assert rest[i] == items[if i < k then i else i + 1];
    }
  }

  /** The nodes that a deletion writes to are the entry and its two neighbours. */
  lemma DelApart(head: Node, items: seq<Node>, k: nat)
    requires Ring(head, items) && k < |items|
    ensures items[k].next == NodeAt(head, items, k + 1) && items[k].prev == NodeAt(head, items, k - 1)
    ensures items[k] != head && forall i :: 0 <= i < |items| ==> items[i] != head
    ensures forall i :: 0 <= i < |items| && i != k ==> items[i] != items[k]
    ensures forall i :: 0 <= i < |items| && i != k + 1 ==> items[i] != items[k].next
    ensures forall i :: 0 <= i < |items| && i != k - 1 ==> items[i] != items[k].prev
  {
    assert forall i :: 0 <= i < |items| ==> items[i] in items;
  }

  /** `list_replace_init`: `entry` takes the place of the item at position `k`. */
  method ListReplaceInit(replaced: Node, entry: Node, head: Node, ghost items: seq<Node>, ghost k: nat)
    requires Ring(head, items) && k < |items| && items[k] == replaced && entry != head && entry !in items
    modifies replaced`next, replaced`prev, entry`next, entry`prev, replaced.prev`next, replaced.next`prev
    ensures Ring(head, items[k := entry])
  {
    entry.next := replaced.next;
    entry.next.prev := entry;
    entry.prev := replaced.prev;
    entry.prev.next := entry;
    InitListHead(replaced);
  }

  /** `list_splice_tail`: the items of one ring are appended to another; the emptied head keeps stale
      pointers until it is initialised again. */
  method ListSpliceTail(list: Node, head: Node, ghost moved: seq<Node>, ghost items: seq<Node>)
    requires Ring(list, moved) && Ring(head, items) && list != head && list !in items && head !in moved
    requires forall n :: n in moved ==> n !in items
    modifies head`prev, head.prev`next, list.next`prev, list.prev`next
    ensures Ring(head, items + moved)
  {
    if list.next == list {
      assert items + moved == items;
      return;
    }
    var prev := head.prev;
    var first, last := list.next, list.prev;
    ghost var n, m := |items|, |moved|;
    SpliceApart(list, head, moved, items);
    hide Distinct;
    first.prev := prev;
    prev.next := first;
    last.next := head;
    head.prev := last;
    ghost var all := items + moved;
    forall i | 0 <= i < n
      ensures items[i].next == (if i == n - 1 then first else items[i + 1])
      ensures items[i].prev == NodeAt(head, items, i - 1)
    {
      assert i < n - 1 ==> old(items[i].next) == items[i + 1];
    }
    forall i | 0 <= i < m
      ensures moved[i].next == (if i == m - 1 then head else moved[i + 1])
      ensures moved[i].prev == (if i == 0 then prev else moved[i - 1])
    {
      assert i < m - 1 ==> old(moved[i].next) == moved[i + 1];
      assert i > 0 ==> old(moved[i].prev) == moved[i - 1];
    }
    JoinedRing(head, items, moved);
  }

  /** A splice after which the emptied head starts a ring of its own again. */
  method SpliceAndInit(list: Node, head: Node, ghost moved: seq<Node>, ghost items: seq<Node>)
    requires Ring(list, moved) && Ring(head, items) && list != head && list !in items && head !in moved
    requires forall n :: n in moved ==> n !in items
    modifies list`next, list`prev, head`prev, head.prev`next, list.next`prev, list.prev`next
    ensures Ring(head, items + moved) && Ring(list, [])
  {
    hide Ring, Distinct;
    RingIsDistinct(list, moved);
    ListSpliceTail(list, head, moved, items);
    NodesConcat(items, moved);
    InitListHead(list);
  }

  /** The four nodes that a splice writes to, and no others, are at the ends of the two rings. */
  lemma SpliceApart(list: Node, head: Node, moved: seq<Node>, items: seq<Node>)
    requires Ring(list, moved) && Ring(head, items) && list != head && list !in items && head !in moved
    requires (forall n :: n in moved ==> n !in items) && list.next != list
    ensures |moved| > 0 && list.next == moved[0] && list.prev == moved[|moved| - 1]
    ensures head.prev == NodeAt(head, items, |items| - 1)
    ensures forall i :: 0 <= i < |items| ==>
              && items[i] != list.next && items[i] != list.prev && items[i] != head
              && (i < |items| - 1 ==> items[i] != head.prev)
    ensures forall i :: 0 <= i < |moved| ==>
              && moved[i] != head.prev && moved[i] != head
              && (i < |moved| - 1 ==> moved[i] != list.prev) && (i > 0 ==> moved[i] != list.next)
  {
    assert forall i :: 0 <= i < |items| ==> items[i] in items && items[i] !in moved;
    assert forall i :: 0 <= i < |moved| ==> moved[i] in moved;
  }

  /** Two linked stretches that meet end to end between the head make one ring. */
  lemma JoinedRing(head: Node, items: seq<Node>, moved: seq<Node>)
    requires Distinct(items) && Distinct(moved) && head !in items && head !in moved && |moved| > 0
    requires forall k :: k in moved ==> k !in items
    requires forall i {:trigger items[i].next} :: 0 <= i < |items| ==>
               items[i].next == if i == |items| - 1 then moved[0] else items[i + 1]
    requires forall i {:trigger items[i].prev} :: 0 <= i < |items| ==> items[i].prev == NodeAt(head, items, i - 1)
    requires forall i {:trigger moved[i].next} :: 0 <= i < |moved| ==>
               moved[i].next == if i == |moved| - 1 then head else moved[i + 1]
    requires forall i {:trigger moved[i].prev} :: 0 <= i < |moved| ==>
               moved[i].prev == if i == 0 then NodeAt(head, items, |items| - 1) else moved[i - 1]
    requires head.next == NodeAt(head, items + moved, 0) && head.prev == moved[|moved| - 1]
    ensures Ring(head, items + moved)
  {
    hide Distinct;
    var all := items + moved;
    DistinctConcat(items, moved);
    forall i | 0 <= i < |all|
      ensures all[i].next == NodeAt(head, all, i + 1)
    {
      if i < |items| {
        assert all[i] == items[i];
      } else {
        assert all[i] == moved[i - |items|];
      }
    }
    forall i | 0 <= i < |all|
      ensures all[i].prev == NodeAt(head, all, i - 1)
    {
      if i < |items| {
        assert all[i] == items[i];
      } else {
        assert all[i] == moved[i - |items|];
      }
    }
  }

  lemma DistinctConcat(a: seq<Node>, b: seq<Node>)
    requires Distinct(a) && Distinct(b) && forall k :: k in b ==> k !in a
    ensures Distinct(a + b)
  {
    forall i, j | 0 <= i < j < |a + b|
      ensures (a + b)[i] != (a + b)[j]
    {
      assert j >= |a| ==> (a + b)[j] in b;
    }
  }
}
