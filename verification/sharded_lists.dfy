/** A fixed number of intrusive lists that share no node, and the sequence of nodes of each. */
module ShardedLists {
  import opened Common
  import opened LinkedNodes
  import opened IntrusiveLists

  ghost predicate ListIs<T>(list: IntrusiveList<T>, nodes: seq<Node<T>>, owned: set<Node<T>>)
    reads list, owned
  {
    list.nodes == nodes && (forall n :: n in nodes ==> n in owned) && list.Valid()
  }

  /** Each list holds its row of nodes, all of them owned. */
  ghost predicate Hold<T>(lists: seq<IntrusiveList<T>>, rows: seq<seq<Node<T>>>, owned: set<Node<T>>)
    reads lists, owned
  {
    |rows| == |lists| && forall i :: 0 <= i < |lists| ==> ListIs(lists[i], rows[i], owned)
  }

  ghost predicate Apart<T>(rows: seq<seq<Node<T>>>) {
    forall i, j :: 0 <= i < j < |rows| ==> Disjoint(rows[i], rows[j])
  }

  ghost predicate Disjoint<T>(a: seq<T>, b: seq<T>) {
    forall n :: n in a ==> n !in b
  }

  method PrependTo<T>(lists: seq<IntrusiveList<T>>, ghost rows: seq<seq<Node<T>>>, ghost owned: set<Node<T>>,
                      i: nat, node: Node<T>)
    requires Distinct(lists) && i < |lists| && Hold(lists, rows, owned) && node !in owned
    modifies lists[i], node
    ensures Hold(lists, rows[i := [node] + rows[i]], owned + {node})
  {
    assert ListIs(lists[i], rows[i], owned);
    lists[i].Prepend(node);
    ghost var rows' := rows[i := [node] + rows[i]];
    forall j | 0 <= j < |lists|
      ensures ListIs(lists[j], rows'[j], owned + {node})
    {
      if j != i {
        assert old(ListIs(lists[j], rows[j], owned));
        assert ListIs(lists[j], rows[j], owned);
      }
    }
  }

  /** The removed node and those behind it still lead through the rest of the row as it was. */
  method RemoveFrom<T>(lists: seq<IntrusiveList<T>>, ghost rows: seq<seq<Node<T>>>, ghost owned: set<Node<T>>,
                       i: nat, matches: T -> bool)
    returns (removed: Node?<T>, ghost k: nat)
    requires Distinct(lists) && i < |lists| && Hold(lists, rows, owned) && Apart(rows)
    modifies lists[i], owned
    ensures k <= |rows[i]| && removed == Place(rows[i], k)
    ensures Hold(lists, if removed == null then rows else rows[i := Cut(rows[i], k)], owned)
    ensures removed != null ==> matches(removed.item)
    ensures forall a :: 0 <= a < k ==> !matches(rows[i][a].item)
    ensures forall a :: k <= a < |rows[i]| ==> rows[i][a].next == Place(rows[i], a + 1)
  {
    assert ListIs(lists[i], rows[i], owned);
    removed, k := lists[i].RemoveReturning(matches);
    ghost var rows' := if removed == null then rows else rows[i := Cut(rows[i], k)];
    forall j | 0 <= j < |lists|
      ensures ListIs(lists[j], rows'[j], owned)
    {
      if j != i {
        assert old(ListIs(lists[j], rows[j], owned));
        assert Disjoint(rows[if i < j then i else j], rows[if i < j then j else i]);
        assert forall n :: n in rows[j] ==> n !in rows[i] && n.next == old(n.next);
        assert lists[j].Valid();
      }
    }
  }
}
