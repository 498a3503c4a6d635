/**
 The intrusive list (intrusive_list.go), called from one goroutine at a time, so that no
 compare-and-swap fails. A node that is removed keeps its next pointer, which is what lets
 a walk go on from a node that its own visitor has just unlinked.
 */
module IntrusiveLists {
  import opened LinkedNodes

  class IntrusiveList<T> {
    var head: Node?<T>
    ghost var nodes: seq<Node<T>>

    ghost predicate Valid()
      reads this, nodes
    {
      Linked(head, nodes)
    }

    constructor ()
      ensures Valid() && nodes == []
    {
      head, nodes := null, [];
    }

    method Prepend(node: Node<T>)
      requires Valid() && node !in nodes
      modifies this, node
      ensures Valid() && nodes == [node] + old(nodes)
    {
      LinkFront(node, head, nodes);
      head := node;
      nodes := [node] + nodes;
    }

    /** The first matching node. */
    method Find(matches: T -> bool) returns (node: Node?<T>, ghost k: nat)
      requires Valid()
      ensures k <= |nodes| && node == Place(nodes, k)
      ensures node != null ==> matches(node.item)
      ensures forall i :: 0 <= i < k ==> !matches(nodes[i].item)
    {
      node, k := head, 0;
      while node != null
        invariant k <= |nodes| && node == Place(nodes, k)
        invariant forall i :: 0 <= i < k ==> !matches(nodes[i].item)
        decreases |nodes| - k
      {
        if matches(node.item) {
          return;
        }
        node, k := node.next, k + 1;
      }
    }

    /** Unlinks the first matching node; only its predecessor's next pointer changes. */
    method RemoveReturning(matches: T -> bool) returns (removed: Node?<T>, ghost k: nat)
      requires Valid()
      modifies this, nodes
      ensures Valid() && k <= |old(nodes)| && removed == Place(old(nodes), k)
      ensures removed != null ==> matches(removed.item) && nodes == Cut(old(nodes), k)
      ensures removed == null ==> nodes == old(nodes)
      ensures forall i :: 0 <= i < k ==> !matches(old(nodes)[i].item)
      ensures forall i :: k <= i < |old(nodes)| ==> old(nodes)[i].next == Place(old(nodes), i + 1)
    {
      var prev: Node?<T> := null;
      removed, k := head, 0;
      while removed != null
        invariant k <= |nodes| && removed == Place(nodes, k) && nodes == old(nodes) && Valid()
        invariant if k == 0 then prev == null else prev == nodes[k - 1]
        invariant forall i :: 0 <= i < k ==> !matches(nodes[i].item)
        decreases |nodes| - k
      {
        if matches(removed.item) {
          if prev == null {
            head := UnlinkHead(head, nodes);
            assert Cut(nodes, k) == nodes[1..];
          } else {
            UnlinkAfter(prev, head, nodes, k);
          }
          nodes := Cut(nodes, k);
          return;
        }
        prev, removed, k := removed, removed.next, k + 1;
      }
    }

    method PopHead() returns (popped: Node?<T>)
      requires Valid()
      modifies this
      ensures Valid() && popped == Place(old(nodes), 0)
      ensures nodes == if old(nodes) == [] then [] else old(nodes)[1..]
    {
      popped := head;
      if head != null {
        head := UnlinkHead(head, nodes);
        nodes := nodes[1..];
      }
    }
  }
}
