/** Circular doubly linked lists with an embedded head, as in dlist.h. */
module DList {
  import opened Collections

  /** A list node; `entry` is the record it is embedded in, which dlist_entry computes (a bare head has none). */
  class Node<E> {
    var prev: Node<E>
    var next: Node<E>
    const entry: Option<E>

    /** init_dlist_node */
    constructor (entry: Option<E>)
      ensures next == this && prev == this && this.entry == entry
    {
      this.entry := entry;
      next := this;
      prev := this;
    }
  }

  function Succ(i: nat, n: nat): (j: nat)
    requires i < n
    ensures j < n
  {
    if i + 1 == n then 0 else i + 1
  }

  /** The nodes are distinct and linked in this order, forwards and backwards, around to the first. */
  ghost predicate Ring<E>(nodes: seq<Node<E>>)
    reads nodes
  {
    |nodes| > 0 && Distinct(nodes) && Forward(nodes) && Backward(nodes)
  }

  ghost predicate Distinct<T>(nodes: seq<T>) { forall i, j :: 0 <= i < j < |nodes| ==> nodes[i] != nodes[j] }

  ghost predicate Forward<E>(nodes: seq<Node<E>>)
    reads nodes
  {
    forall i :: 0 <= i < |nodes| ==> nodes[i].next == nodes[Succ(i, |nodes|)]
  }

  ghost predicate Backward<E>(nodes: seq<Node<E>>)
    reads nodes
  {
    forall i :: 0 <= i < |nodes| ==> nodes[Succ(i, |nodes|)].prev == nodes[i]
  }

  /** __dlist_add */
  method Link<E>(node: Node<E>, prev: Node<E>, next: Node<E>)
    modifies node, prev, next
    ensures prev.next == node && node.prev == prev
    ensures node != next ==> next.prev == node
    ensures node != prev ==> node.next == next
    ensures prev != node && prev != next ==> prev.prev == old(prev.prev)
    ensures next != node && next != prev ==> next.next == old(next.next)
  {
    next.prev := node;
    node.next := next;
    node.prev := prev;
    prev.next := node;
  }

  /** Where the nodes of a ring come to be with a new one after the first. */
  lemma AddedOrder<T>(ring: seq<T>, node: T)
    requires |ring| > 0 && Distinct(ring) && node !in ring
    ensures var n, r := |ring|, [ring[0], node] + ring[1..];
            && |r| == n + 1 && Distinct(r)
            && (forall i :: 2 <= i < |r| ==> r[i] == ring[i - 1])
            && r[Succ(0, |r|)] == node && r[Succ(1, |r|)] == ring[Succ(0, n)]
            && forall i :: 2 <= i < |r| ==> r[Succ(i, |r|)] == ring[Succ(i - 1, n)]
  {}

  /** dlist_add: after the head. */
  method Add<E>(node: Node<E>, head: Node<E>, ghost ring: seq<Node<E>>)
    requires Ring(ring) && ring[0] == head && node !in ring
    modifies node, ring
    ensures Ring([head, node] + ring[1..])
  {
    hide Succ;
    AddedOrder(ring, node);
    assert head.next == ring[Succ(0, |ring|)];
    Link(node, head, head.next);
    ghost var r := [head, node] + ring[1..];
    assert forall i :: 2 <= i < |r| ==> r[i] == ring[i - 1];
  }

  /** dlist_add_tail: before the head. Adding a head to its own ring leaves the ring of one. */
  method AddTail<E>(node: Node<E>, head: Node<E>, ghost ring: seq<Node<E>>)
    requires Ring(ring) && ring[0] == head
    requires node !in ring || ring == [node]
    modifies node, ring
    ensures if node == head then Ring([head]) else Ring(ring + [node])
  {
    assert head.prev == ring[|ring| - 1] by { assert Succ(|ring| - 1, |ring|) == 0; }
    Link(node, head.prev, head);
  }

  /** Where the i-th of the remaining nodes was. */
  function Origin(i: nat, k: nat): nat { if i < k then i else i + 1 }

  /** Removal keeps the order, and the two neighbours become neighbours of each other. */
  lemma RemovedOrder<E>(ring: seq<Node<E>>, k: nat)
    requires 0 < k < |ring| && Distinct(ring)
    ensures var n, r := |ring|, Removed(ring, k);
            && (forall i :: 0 <= i < |r| ==> r[i] == ring[Origin(i, k)])
            && Distinct(r)
            && r[Succ(k - 1, |r|)] == ring[Succ(k, n)]
            && (forall i :: 0 <= i < |r| && i != k - 1 ==>
                  r[Succ(i, |r|)] == ring[Succ(Origin(i, k), n)] && r[Succ(i, |r|)] != ring[Succ(k, n)])
  {}

  /** A ring's links except around its k-th node, which the neighbours skip and which links to itself. */
  ghost predicate Bypassed<E>(ring: seq<Node<E>>, k: nat)
    requires 0 < k < |ring|
    reads ring
  {
    var n := |ring|;
    && Distinct(ring)
    && ring[k].next == ring[k] && ring[k].prev == ring[k]
    && ring[k - 1].next == ring[Succ(k, n)] && ring[Succ(k, n)].prev == ring[k - 1]
    && (forall i :: 0 <= i < n && i != k - 1 && i != k ==> ring[i].next == ring[Succ(i, n)])
    && (forall i :: 0 <= i < n && i != k - 1 && i != k ==> ring[Succ(i, n)].prev == ring[i])
  }

  lemma BypassedIsRing<E>(ring: seq<Node<E>>, k: nat)
    requires 0 < k < |ring| && Bypassed(ring, k)
    ensures Ring(Removed(ring, k))
  {
    RemovedOrder(ring, k);
    BypassedForward(ring, k);
    BypassedBackward(ring, k);
  }

  lemma BypassedForward<E>(ring: seq<Node<E>>, k: nat)
    requires 0 < k < |ring| && Bypassed(ring, k)
    ensures Forward(Removed(ring, k))
  {
    hide Succ, Removed, Origin;
    var r := Removed(ring, k);
    RemovedOrder(ring, k);
    forall i | 0 <= i < |r| ensures r[i].next == r[Succ(i, |r|)] {
      OriginIs(i, k);
      assert r[i] == ring[Origin(i, k)];
      if i != k - 1 { assert ring[Origin(i, k)].next == ring[Succ(Origin(i, k), |ring|)]; }
    }
  }

  lemma BypassedBackward<E>(ring: seq<Node<E>>, k: nat)
    requires 0 < k < |ring| && Bypassed(ring, k)
    ensures Backward(Removed(ring, k))
  {
    hide Succ, Removed, Origin;
    var r := Removed(ring, k);
    RemovedOrder(ring, k);
    forall i | 0 <= i < |r| ensures r[Succ(i, |r|)].prev == r[i] {
      OriginIs(i, k);
      assert r[i] == ring[Origin(i, k)];
      if i != k - 1 { assert ring[Succ(Origin(i, k), |ring|)].prev == ring[Origin(i, k)]; }
    }
  }

  lemma OriginIs(i: nat, k: nat)
    ensures Origin(i, k) == if i < k then i else i + 1
  {}

  /** dlist_del: the ring closes up, and the node is a ring of its own. */
  method Del<E>(node: Node<E>, ghost ring: seq<Node<E>>, ghost k: nat)
    requires Ring(ring) && 0 < k < |ring| && ring[k] == node
    modifies ring
    ensures Ring(Removed(ring, k)) && Ring([node])
  {
    assert Succ(k - 1, |ring|) == k;
    node.next.prev := node.prev;
    node.prev.next := node.next;
    node.next := node;
    node.prev := node;
    assert Bypassed(ring, k);
    BypassedIsRing(ring, k);
  }
}
