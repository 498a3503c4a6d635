/** Singly linked nodes on the heap, and the sequence of nodes that a head pointer leads to. */
module LinkedNodes {
  import opened Common

  class Node<T> {
    const item: T
    var next: Node?<T>

    constructor (item: T)
      ensures this.item == item && next == null
    {
      this.item, next := item, null;
    }
  }

  /** The node at place i, or null past the end. */
  function Place<T>(nodes: seq<Node<T>>, i: nat): Node?<T> {
    if i < |nodes| then nodes[i] else null
  }

  /** From head, next pointers run through exactly these nodes. */
  ghost predicate Linked<T>(head: Node?<T>, nodes: seq<Node<T>>)
    reads nodes
  {
    && head == Place(nodes, 0)
    && (forall i {:trigger nodes[i].next} :: 0 <= i < |nodes| ==> nodes[i].next == Place(nodes, i + 1))
    && Distinct(nodes)
  }

  /** The nodes without the one at place k. */
  ghost function Cut<T>(nodes: seq<Node<T>>, k: nat): seq<Node<T>>
    requires k < |nodes|
  {
    nodes[..k] + nodes[k + 1..]
  }

  /** The only node before place k that points at the node there is its predecessor. */
  lemma CutPlaces<T>(nodes: seq<Node<T>>, k: nat)
    requires Distinct(nodes) && k < |nodes|
    ensures Distinct(Cut(nodes, k)) && nodes[k] !in Cut(nodes, k)
    ensures forall i: nat :: i < |nodes| - 1 ==> Cut(nodes, k)[i] == nodes[if i < k then i else i + 1]
    ensures forall i: nat :: Place(Cut(nodes, k), i) == Place(nodes, if i < k then i else i + 1)
  {
  }

  /** Unlinks the head. */
  method UnlinkHead<T>(head: Node<T>, ghost nodes: seq<Node<T>>) returns (next: Node?<T>)
    requires Linked(head, nodes)
    ensures nodes != [] && Linked(next, nodes[1..]) && head !in nodes[1..]
  {
    next := head.next;
    ghost var rest := nodes[1..];
    forall i | 0 <= i < |rest|
      ensures rest[i].next == Place(rest, i + 1)
    {
      assert rest[i] == nodes[i + 1] && nodes[i + 1].next == Place(nodes, i + 2);
    }
  }

  /** Unlinks the node after prev, the one at place k; the node keeps its own next pointer. */
  method UnlinkAfter<T>(prev: Node<T>, head: Node<T>, ghost nodes: seq<Node<T>>, ghost k: nat)
    requires Linked(head, nodes) && 0 < k < |nodes| && prev == nodes[k - 1]
    modifies prev
    ensures Linked(head, Cut(nodes, k)) && nodes[k] !in Cut(nodes, k) && nodes[k].next == Place(nodes, k + 1)
    ensures forall n :: n in nodes && n != prev ==> n.next == old(n.next)
  {
    CutPlaces(nodes, k);
    ghost var rest := Cut(nodes, k);
    assert nodes[k].next == Place(nodes, k + 1);
    assert prev.next == Place(nodes, k) == nodes[k];
    label before:
    prev.next := prev.next.next;
    forall i | 0 <= i < |rest|
      ensures rest[i].next == Place(rest, i + 1)
    {
      var j := if i < k then i else i + 1;
      assert rest[i] == nodes[j];
      assert old@before(nodes[j].next) == Place(nodes, j + 1);
    }
  }

  /** A node that is off the list lets go of it. */
  method ClearNext<T>(node: Node<T>, head: Node?<T>, ghost nodes: seq<Node<T>>)
    requires Linked(head, nodes) && node !in nodes
    modifies node
    ensures Linked(head, nodes) && node.next == null
  {
    node.next := null;
  }

  /** Links a node that is on no list in front. */
  method LinkFront<T>(node: Node<T>, head: Node?<T>, ghost nodes: seq<Node<T>>)
    requires Linked(head, nodes) && node !in nodes
    modifies node
    ensures Linked(node, [node] + nodes)
  {
    node.next := head;
    ghost var longer := [node] + nodes;
    forall i | 0 <= i < |longer|
      ensures longer[i].next == Place(longer, i + 1)
    {
      if i > 0 {
        assert longer[i] == nodes[i - 1] && nodes[i - 1].next == Place(nodes, i);
      }
    }
  }
}
