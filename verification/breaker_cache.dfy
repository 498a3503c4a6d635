/**
 The bounded cache of circuit breakers (circuitbreaker_cache.go): a linked list on the heap
 that every request reorders, called from one goroutine at a time, so that no
 compare-and-swap fails.
 */
module BreakerCache {
  import opened Common
  import opened Recency
  import opened LinkedNodes
  import CircuitBreaker

  const DEFAULT_LIMIT: nat := 1024

  datatype Entry = Entry(id: string, breaker: CircuitBreaker.Breaker)

  function Ids(nodes: seq<Node<Entry>>): (ids: seq<string>)
    ensures |ids| == |nodes|
  {
    seq(|nodes|, i requires 0 <= i < |nodes| => nodes[i].item.id)
  }

  /** Every cached breaker is the one last handed out for its id. */
  ghost predicate Current(nodes: seq<Node<Entry>>, given: map<string, CircuitBreaker.Breaker>) {
    forall n :: n in nodes ==> n.item.id in given && given[n.item.id] == n.item.breaker
  }

  /** Moving the node at place k to the front moves its id to the front. */
  lemma MoveToFront(nodes: seq<Node<Entry>>, k: nat)
    requires Distinct(nodes) && Distinct(Ids(nodes)) && k < |nodes|
    ensures var moved := [nodes[k]] + Cut(nodes, k);
            && Distinct(Ids(moved)) && Ids(moved) == [nodes[k].item.id] + Without(Ids(nodes), nodes[k].item.id)
            && forall n :: n in moved <==> n in nodes
  {
    var ids, moved := Ids(nodes), [nodes[k]] + Cut(nodes, k);
    WithoutAt(ids, k);
    WithoutDistinct(ids, ids[k]);
    WithoutMembers(ids, ids[k]);
    assert Ids(moved) == [ids[k]] + (ids[..k] + ids[k + 1..]);
    assert nodes == nodes[..k] + [nodes[k]] + nodes[k + 1..];
  }

  /** A node with a new id in front is the only one with that id. */
  lemma AddFront(node: Node<Entry>, nodes: seq<Node<Entry>>)
    requires Distinct(Ids(nodes)) && node.item.id !in Ids(nodes)
    ensures var longer := [node] + nodes;
            && Ids(longer) == [node.item.id] + Ids(nodes) && Distinct(Ids(longer))
            && Without(Ids(nodes), node.item.id) == Ids(nodes)
            && Without(Ids(longer), node.item.id) == Ids(nodes)
            && forall n :: n in longer && n.item.id == node.item.id ==> n == node
  {
    var id, ids := node.item.id, Ids(nodes);
    WithoutFront(ids, id);
    assert Ids([node] + nodes) == [id] + ids;
    IdsMembers(nodes);
  }

  lemma CurrentFront(node: Node<Entry>, nodes: seq<Node<Entry>>, given: map<string, CircuitBreaker.Breaker>, limit: nat)
    requires Current(nodes, given) && node.item.id !in Ids(nodes)
    ensures Current(Take([node] + nodes, limit), given[node.item.id := node.item.breaker])
  {
    IdsMembers(nodes);
    forall n | n in Take([node] + nodes, limit)
      ensures n == node || n in nodes
    {
    }
  }

  lemma IdsMembers(nodes: seq<Node<Entry>>)
    ensures forall n :: n in nodes ==> n.item.id in Ids(nodes)
  {
    forall n | n in nodes
      ensures n.item.id in Ids(nodes)
    {
      var i :| 0 <= i < |nodes| && nodes[i] == n;
      assert Ids(nodes)[i] == n.item.id;
    }
  }

  lemma TakeIds(nodes: seq<Node<Entry>>, limit: nat)
    ensures Ids(Take(nodes, limit)) == Take(Ids(nodes), limit)
    ensures Distinct(Ids(nodes)) ==> Distinct(Ids(Take(nodes, limit)))
  {
  }

  /** A closed breaker without a history, with the configuration that was asked for. */
  ghost predicate New(breaker: CircuitBreaker.Breaker, config: CircuitBreaker.Config)
    reads breaker
  {
    && breaker.Valid() && breaker.history == []
    && breaker.config == config.(halfOpenMax := Max(1, config.halfOpenMax))
  }

  class Cache {
    var head: Node?<Entry>
    var count: int
    const limit: nat

    /** The nodes of the list, the ids requested so far, and the breaker last handed out for each. */
    ghost var nodes: seq<Node<Entry>>
    ghost var history: seq<string>
    ghost var given: map<string, CircuitBreaker.Breaker>

    ghost predicate Consistent()
      reads this, nodes
    {
      Linked(head, nodes) && Distinct(Ids(nodes))
    }

    /** The list holds the `limit` most recently requested distinct ids, most recent first. */
    ghost predicate Valid()
      reads this, nodes
    {
      && limit >= 1
      && Consistent()
      && count == |nodes|
      && Ids(nodes) == Take(Recent(history), limit)
      && Current(nodes, given)
    }

    constructor (limit: int)
      ensures Valid() && history == [] && given == map[] && nodes == []
      ensures this.limit == if limit <= 0 then DEFAULT_LIMIT else limit
    {
      this.limit := if limit <= 0 then DEFAULT_LIMIT else limit;
      head, count := null, 0;
      nodes, history, given := [], [], map[];
    }

    method FindNode(id: string) returns (node: Node?<Entry>, ghost k: nat)
      requires Consistent()
      ensures node == null <==> id !in Ids(nodes)
      ensures node != null ==> k < |nodes| && nodes[k] == node && node.item.id == id
    {
      node, k := head, 0;
      while node != null
        invariant k <= |nodes| && node == Place(nodes, k)
        invariant forall i :: 0 <= i < k ==> Ids(nodes)[i] != id
        decreases |nodes| - k
      {
        if node.item.id == id {
          assert Ids(nodes)[k] == id;
          return;
        }
        node, k := node.next, k + 1;
      }
    }

    /** Unlinks the node, wherever it is; it then leads nowhere. */
    method Detach(node: Node<Entry>, ghost k: nat) returns (detached: bool)
      requires Linked(head, nodes) && k < |nodes| && nodes[k] == node
      modifies this`head, this`nodes, nodes
      ensures detached && Linked(head, nodes) && nodes == Cut(old(nodes), k) && node.next == null
    {
      if head == node {
        head := UnlinkHead(head, nodes);
        assert Cut(nodes, k) == nodes[1..];
        nodes := Cut(nodes, k);
        ClearNext(node, head, nodes);
        return true;
      }
      var prev := head;
      ghost var i: nat := 0;
      while prev != null
        invariant i < k && prev == nodes[i] && nodes == old(nodes)
        invariant Linked(head, nodes)
        decreases k - i
      {
        var next := prev.next;
        if next == node {
          UnlinkAfter(prev, head, nodes, k);
          nodes := Cut(nodes, k);
          ClearNext(node, head, nodes);
          return true;
        }
        prev, i := next, i + 1;
      }
      return false;
    }

    /** Moves the node to the front. */
    method Promote(node: Node<Entry>, ghost k: nat)
      requires Linked(head, nodes) && k < |nodes| && nodes[k] == node
      modifies this`head, this`nodes, nodes
      ensures Linked(head, nodes) && nodes == [node] + Cut(old(nodes), k)
    {
      if head == node {
        assert nodes == [node] + Cut(nodes, k);
        return;
      }
      CutPlaces(nodes, k);
      var _ := Detach(node, k);
      LinkFront(node, head, nodes);
      head := node;
      nodes := [node] + nodes;
    }

    /** Drops the least recently requested node. */
    method EvictTail() returns (evicted: bool)
      requires Linked(head, nodes) && count == |nodes|
      modifies this`head, this`nodes, this`count, nodes
      ensures evicted == (old(nodes) != [])
      ensures Linked(head, nodes) && count == |nodes|
      ensures nodes == if evicted then old(nodes)[..|old(nodes)| - 1] else []
    {
      if head == null {
        return false;
      }
      ghost var last := |nodes| - 1;
      assert Cut(nodes, last) == nodes[..last];
      if head.next == null {
        head, count := null, count - 1;
        nodes := [];
        return true;
      }
      var prev := head;
      ghost var i: nat := 0;
      while true
        invariant i < last && prev == nodes[i] && nodes == old(nodes)
        invariant Linked(head, nodes) && count == |nodes|
        decreases last - i
      {
        var next := prev.next;
        if next == null {
          return false;
        }
        if next.next == null {
          UnlinkAfter(prev, head, nodes, last);
          count := count - 1;
          nodes := nodes[..last];
          return true;
        }
        prev, i := next, i + 1;
      }
    }

    method EvictOverflow()
      requires Consistent() && count == |nodes|
      modifies this`head, this`nodes, this`count, nodes
      ensures Consistent() && count == |nodes|
      ensures nodes == Take(old(nodes), limit) && Ids(nodes) == Take(old(Ids(nodes)), limit)
    {
      TakeIds(nodes, limit);
      while count > limit
        invariant Linked(head, nodes) && count == |nodes|
        invariant nodes <= old(nodes) && (|nodes| >= limit || nodes == old(nodes))
        decreases |nodes|
      {
        var evicted := EvictTail();
        if !evicted {
          break;
        }
      }
      assert nodes == Take(old(nodes), limit);
    }

    /** Looks the id up and, if it is cached, moves it to the front. */
    method Find(id: string) returns (breaker: CircuitBreaker.Breaker?)
      requires Consistent()
      modifies this`head, this`nodes, nodes
      ensures Consistent()
      ensures breaker == null <==> id !in old(Ids(nodes))
      ensures breaker == null ==> nodes == old(nodes)
      ensures breaker != null ==>
                && nodes != [] && nodes[0].item == Entry(id, breaker) && nodes[0] in old(nodes)
                && Ids(nodes) == [id] + Without(old(Ids(nodes)), id)
      ensures old(nodes) != [] && old(nodes)[0].item.id == id ==> nodes == old(nodes)
      ensures forall n :: n in nodes <==> n in old(nodes)
    {
      var node, k := FindNode(id);
      if node == null {
        return null;
      }
      MoveToFront(nodes, k);
      if nodes[0].item.id == id {
        assert Ids(nodes)[0] == Ids(nodes)[k];
        assert nodes == [nodes[k]] + Cut(nodes, k);
      }
      Promote(node, k);
      return node.item.breaker;
    }

    /** Links a new node in front. */
    method Link(id: string, breaker: CircuitBreaker.Breaker) returns (node: Node<Entry>)
      requires Consistent() && id !in Ids(nodes)
      modifies this`head, this`nodes
      ensures fresh(node) && node.item == Entry(id, breaker) && nodes == [node] + old(nodes) && nodes[0] == node
      ensures Consistent() && Ids(nodes) == [id] + old(Ids(nodes))
    {
      node := new Node(Entry(id, breaker));
      AddFront(node, nodes);
      LinkFront(node, head, nodes);
      head := node;
      nodes := [node] + nodes;
    }

    /** Looking up the id at the front changes nothing. */
    method Confirm(id: string) returns (breaker: CircuitBreaker.Breaker?)
      requires Consistent() && nodes != [] && nodes[0].item.id == id
      modifies this`head, this`nodes, nodes
      ensures Consistent() && nodes == old(nodes) && breaker == nodes[0].item.breaker
    {
      assert Ids(nodes)[0] == id;
      breaker := Find(id);
    }

    /** Puts a new breaker in front and drops what no longer fits. */
    method Insert(id: string, breaker: CircuitBreaker.Breaker)
      requires Consistent() && count == |nodes| && id !in Ids(nodes) && Current(nodes, given)
      modifies this`head, this`nodes, this`count, nodes
      ensures Consistent() && count == |nodes|
      ensures Ids(nodes) == Take([id] + old(Ids(nodes)), limit)
      ensures Current(nodes, given[id := breaker]) && forall n :: n in nodes ==> n in old(nodes) || fresh(n)
    {
      var node := Link(id, breaker);
      CurrentFront(node, old(nodes), given, limit);
      var existing := Confirm(id);
      assert existing == breaker;
      count := count + 1;
      EvictOverflow();
    }

    /** A new breaker for an id that is not cached. */
    method Admit(id: string, config: CircuitBreaker.Config) returns (breaker: CircuitBreaker.Breaker)
      requires Consistent() && count == |nodes| && id !in Ids(nodes) && Current(nodes, given)
      modifies this`head, this`nodes, this`count, nodes
      ensures Consistent() && count == |nodes| && Current(nodes, given[id := breaker])
      ensures Ids(nodes) == Take([id] + Without(old(Ids(nodes)), id), limit)
      ensures fresh(breaker) && New(breaker, config)
      ensures forall n :: n in nodes ==> n in old(nodes) || fresh(n)
    {
      WithoutAbsent(Ids(nodes), id);
      breaker := new CircuitBreaker.Breaker(config.maxFailures, config.resetTimeout, config.halfOpenMax);
      Insert(id, breaker);
    }

    /** The list part of a request. */
    method Request(id: string, config: CircuitBreaker.Config) returns (breaker: CircuitBreaker.Breaker)
      requires limit >= 1 && Consistent() && count == |nodes| <= limit && Current(nodes, given)
      modifies this`head, this`nodes, this`count, nodes
      ensures Consistent() && count == |nodes| && Current(nodes, given[id := breaker])
      ensures Ids(nodes) == Take([id] + Without(old(Ids(nodes)), id), limit)
      ensures if id in old(Ids(nodes)) then id in given && breaker == given[id]
              else fresh(breaker) && New(breaker, config)
      ensures forall n :: n in nodes ==> n in old(nodes) || fresh(n)
    {
      WithoutDistinct(Ids(nodes), id);
      var found := Find(id);
      if found == null {
        breaker := Admit(id, config);
      } else {
        breaker := found;
        assert given[id := breaker] == given;
      }
    }

    /** The breaker for an id: the one handed out last while it is cached, a new one otherwise. */
    method GetOrCreate(id: string, config: Option<CircuitBreaker.Config>) returns (breaker: CircuitBreaker.Breaker?)
      requires Valid()
      modifies this, nodes
      ensures Valid() && forall n :: n in nodes ==> n in old(nodes) || fresh(n)
      ensures (breaker == null) == (id == "" || config.None?)
      ensures breaker == null ==> history == old(history) && given == old(given) && nodes == old(nodes)
      ensures breaker != null ==> history == old(history) + [id] && given == old(given)[id := breaker]
      ensures breaker != null ==>
                if Retained(old(history), id, limit)
                then id in old(given) && breaker == old(given)[id]
                else fresh(breaker) && New(breaker, config.value)
    {
      if id == "" || config.None? {
        return null;
      }
      WindowStep(history, id, limit);
      RetainedIffRecent(history, id, limit);
      breaker := Request(id, config.value);
      Note(id, breaker);
    }

    ghost method Note(id: string, breaker: CircuitBreaker.Breaker)
      requires limit >= 1 && Consistent() && count == |nodes| && Current(nodes, given[id := breaker])
      requires Ids(nodes) == Take(Recent(history + [id]), limit)
      modifies this`history, this`given
      ensures Valid() && history == old(history) + [id] && given == old(given)[id := breaker]
    {
      history, given := history + [id], given[id := breaker];
    }
  }
}
