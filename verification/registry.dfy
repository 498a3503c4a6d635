/**
 The sharded registry of results and dependencies (registry.go): 256 linked lists of entries
 on the heap, called from one goroutine at a time. The ghost map `index` is the plain map
 that the shards implement.
 */
module Registries {
  import opened Common
  import opened SlotPhases
  import opened LinkedNodes
  import opened IntrusiveLists
  import opened ShardedLists
  import opened DependencyGraph
  import opened DependencyLinks

  const SHARDS: nat := 256

  /** A result as the registry sees it. */
  datatype Artifact = Artifact(content: nat, timestamp: int, ttl: int)

  datatype Held = Held(stored: Option<Artifact>, phase: Phase)

  class Entry {
    const keyHash: nat
    const key: string
    var stored: Option<Artifact>
    var phase: Phase
    var children: seq<string>
    var parents: seq<string>

    constructor (keyHash: nat, key: string)
      ensures this.keyHash == keyHash && this.key == key
      ensures stored == None && phase == Pending && children == [] && parents == []
    {
      this.keyHash, this.key := keyHash, key;
      stored, phase, children, parents := None, Pending, [], [];
    }

    /** Records a result, and makes a pending slot ready. */
    method Deliver(artifact: Artifact)
      modifies this`stored, this`phase
      ensures stored == Some(artifact) && phase == if old(phase) == Pending then Ready else old(phase)
    {
      stored := Some(artifact);
      if phase == Pending {
        phase := Ready;
      }
    }
  }

  /** One shard holds exactly the entries whose hash selects it, one per key. */
  ghost predicate ShardOk(hash: string -> nat, i: nat, nodes: seq<Node<Entry>>, index: map<string, Entry>) {
    && (forall a :: 0 <= a < |nodes| ==> Filed(hash, i, nodes[a].item, index))
    && (forall a, b :: 0 <= a < b < |nodes| ==> nodes[a].item.key != nodes[b].item.key)
    && (forall k :: k in index && hash(k) % SHARDS == i ==> Holds(nodes, k))
  }

  ghost predicate Filed(hash: string -> nat, i: nat, e: Entry, index: map<string, Entry>) {
    e.keyHash == hash(e.key) && e.keyHash % SHARDS == i && e.key in index && index[e.key] == e
  }

  ghost predicate Holds(nodes: seq<Node<Entry>>, key: string) {
    exists a :: 0 <= a < |nodes| && nodes[a].item.key == key
  }

  /** The rows of all the shards together implement the map. */
  ghost predicate Files(hash: string -> nat, rows: seq<seq<Node<Entry>>>, index: map<string, Entry>) {
    && |rows| == SHARDS
    && (forall i :: 0 <= i < SHARDS ==> ShardOk(hash, i, rows[i], index))
    && (forall k :: k in index ==> index[k].key == k)
  }

  /** A key is in the map exactly if the shard of its hash holds an entry for it, the one in the map. */
  lemma ShardLookup(hash: string -> nat, nodes: seq<Node<Entry>>, index: map<string, Entry>, key: string)
    requires ShardOk(hash, hash(key) % SHARDS, nodes, index)
    ensures key in index <==>
              exists a :: 0 <= a < |nodes| && nodes[a].item.keyHash == hash(key) && nodes[a].item.key == key
    ensures forall a :: 0 <= a < |nodes| && nodes[a].item.key == key ==> key in index && nodes[a].item == index[key]
  {
    var i := hash(key) % SHARDS;
    assert forall a :: 0 <= a < |nodes| ==> Filed(hash, i, nodes[a].item, index);
    if key in index {
      assert Holds(nodes, key);
    }
  }

  lemma ShardPrepend(hash: string -> nat, nodes: seq<Node<Entry>>, index: map<string, Entry>, node: Node<Entry>)
    requires var e := node.item;
             && ShardOk(hash, hash(e.key) % SHARDS, nodes, index)
             && e.keyHash == hash(e.key) && e.key !in index
    ensures ShardOk(hash, hash(node.item.key) % SHARDS, [node] + nodes, index[node.item.key := node.item])
  {
    var e := node.item;
    var i := hash(e.key) % SHARDS;
    var longer, index' := [node] + nodes, index[e.key := e];
    ShardLookup(hash, nodes, index, e.key);
    forall a | 0 <= a < |longer|
      ensures Filed(hash, i, longer[a].item, index')
    {
      assert a > 0 ==> Filed(hash, i, nodes[a - 1].item, index);
    }
    forall k | k in index' && hash(k) % SHARDS == i
      ensures Holds(longer, k)
    {
      if k == e.key {
        assert longer[0].item.key == k;
      } else {
        assert Holds(nodes, k);
        var a :| 0 <= a < |nodes| && nodes[a].item.key == k;
        assert longer[a + 1].item.key == k;
      }
    }
  }

  lemma CutFiled(hash: string -> nat, i: nat, nodes: seq<Node<Entry>>, index: map<string, Entry>, k: nat, a: nat)
    requires k < |nodes| && a < |nodes| - 1 && ShardOk(hash, i, nodes, index) && Distinct(nodes)
    ensures Filed(hash, i, Cut(nodes, k)[a].item, index - {nodes[k].item.key})
  {
    CutPlaces(nodes, k);
    var b := if a < k then a else a + 1;
    assert Cut(nodes, k)[a] == nodes[b];
    assert Filed(hash, i, nodes[b].item, index);
  }

  lemma CutHolds(nodes: seq<Node<Entry>>, k: nat, key: string)
    requires k < |nodes| && Distinct(nodes) && Holds(nodes, key) && key != nodes[k].item.key
    ensures Holds(Cut(nodes, k), key)
  {
    CutPlaces(nodes, k);
    var b :| 0 <= b < |nodes| && nodes[b].item.key == key;
    assert Cut(nodes, k)[if b < k then b else b - 1] == nodes[b];
  }

  lemma ShardCut(hash: string -> nat, nodes: seq<Node<Entry>>, index: map<string, Entry>, k: nat)
    requires k < |nodes| && ShardOk(hash, hash(nodes[k].item.key) % SHARDS, nodes, index) && Distinct(nodes)
    ensures ShardOk(hash, hash(nodes[k].item.key) % SHARDS, Cut(nodes, k), index - {nodes[k].item.key})
  {
    var i := hash(nodes[k].item.key) % SHARDS;
    var rest, index' := Cut(nodes, k), index - {nodes[k].item.key};
    CutPlaces(nodes, k);
    forall a | 0 <= a < |rest|
      ensures Filed(hash, i, rest[a].item, index')
    {
      CutFiled(hash, i, nodes, index, k, a);
    }
    forall key | key in index' && hash(key) % SHARDS == i
      ensures Holds(rest, key)
    {
      CutHolds(nodes, k, key);
    }
  }

  /** Other shards do not see a change at a key that they do not hold. */
  lemma ShardElsewhere(hash: string -> nat, j: nat, nodes: seq<Node<Entry>>,
                       index: map<string, Entry>, index': map<string, Entry>, key: string)
    requires ShardOk(hash, j, nodes, index) && hash(key) % SHARDS != j
    requires forall k :: k != key ==> (k in index' <==> k in index) && (k in index ==> index'[k] == index[k])
    ensures ShardOk(hash, j, nodes, index')
  {
    forall a | 0 <= a < |nodes|
      ensures Filed(hash, j, nodes[a].item, index')
    {
      assert Filed(hash, j, nodes[a].item, index);
    }
  }

  lemma FilesPrepend(hash: string -> nat, rows: seq<seq<Node<Entry>>>, index: map<string, Entry>, node: Node<Entry>)
    requires Files(hash, rows, index) && node.item.keyHash == hash(node.item.key) && node.item.key !in index
    ensures var i := hash(node.item.key) % SHARDS;
            Files(hash, rows[i := [node] + rows[i]], index[node.item.key := node.item])
  {
    var e := node.item;
    var i := hash(e.key) % SHARDS;
    var rows', index' := rows[i := [node] + rows[i]], index[e.key := e];
    ShardPrepend(hash, rows[i], index, node);
    forall j | 0 <= j < SHARDS
      ensures ShardOk(hash, j, rows'[j], index')
    {
      if j != i {
        ShardElsewhere(hash, j, rows[j], index, index', e.key);
      }
    }
  }

  lemma FilesCut(hash: string -> nat, rows: seq<seq<Node<Entry>>>, index: map<string, Entry>, i: nat, k: nat)
    requires Files(hash, rows, index) && i < SHARDS && k < |rows[i]|
    ensures Files(hash, rows[i := Cut(rows[i], k)], index - {rows[i][k].item.key})
  {
    var key := rows[i][k].item.key;
    assert Filed(hash, i, rows[i][k].item, index);
    var rows', index' := rows[i := Cut(rows[i], k)], index - {key};
    ShardCut(hash, rows[i], index, k);
    forall j | 0 <= j < SHARDS
      ensures ShardOk(hash, j, rows'[j], index')
    {
      if j != i {
        ShardElsewhere(hash, j, rows[j], index, index', key);
      }
    }
  }

  /** No node is in two shards. */
  lemma FilesApart(hash: string -> nat, rows: seq<seq<Node<Entry>>>, index: map<string, Entry>)
    requires Files(hash, rows, index)
    ensures Apart(rows)
  {
    forall i, j | 0 <= i < j < |rows|
      ensures Disjoint(rows[i], rows[j])
    {
      assert forall n :: n in rows[i] ==> Filed(hash, i, n.item, index);
      assert forall n :: n in rows[j] ==> Filed(hash, j, n.item, index);
    }
  }

  /** The node of a key is cut from its row, at place k, and it and those behind it keep their next pointers. */
  ghost predicate Dropped(row: seq<Node<Entry>>, rest: seq<Node<Entry>>, key: string, k: nat)
    reads row
  {
    && k <= |row|
    && (if k < |row| then row[k].item.key == key && rest == Cut(row, k) else rest == row)
    && (forall a :: k <= a < |row| ==> row[a].next == Place(row, a + 1))
  }

  /** A key without a result is registered with a pending slot. */
  function Awaited(results: map<string, Held>, key: string): map<string, Held> {
    if key in results then results else results[key := Held(None, Pending)]
  }

  /** A result recorded under a key: a pending slot becomes ready, any other keeps its phase. */
  function Delivered(results: map<string, Held>, key: string, artifact: Artifact): map<string, Held> {
    var phase := if key in results && results[key].phase != Pending then results[key].phase else Ready;
    results[key := Held(Some(artifact), phase)]
  }

  /** All that a registry holds: the rows of its shards, the map, and what is stored and linked under each id. */
  datatype Snapshot = Snapshot(
    rows: seq<seq<Node<Entry>>>,
    index: map<string, Entry>,
    view: Space,
    results: map<string, Held>)

  class Registry {
    const hash: string -> nat
    const shards: seq<IntrusiveList<Entry>>
    ghost var index: map<string, Entry>
    ghost var rows: seq<seq<Node<Entry>>>

    /** Every node that is, or was, in a shard. */
    ghost var owned: set<Node<Entry>>

    ghost predicate Valid()
      reads this, shards, owned
    {
      && |shards| == SHARDS && Distinct(shards)
      && Hold(shards, rows, owned)
      && Files(hash, rows, index)
    }

    /** The links of every registered id. */
    ghost function View(): Space
      reads this, index.Values
    {
      map k | k in index :: Links(index[k].children, index[k].parents)
    }

    /** The result, if any, and the slot of every registered id. */
    ghost function Results(): map<string, Held>
      reads this, index.Values
    {
      map k | k in index :: Held(index[k].stored, index[k].phase)
    }

    /** Every entry of an earlier map is still registered. */
    ghost predicate Kept(earlier: map<string, Entry>)
      reads this
    {
      forall k :: k in earlier ==> k in index && index[k] == earlier[k]
    }

    /** Every node and every entry that the registry did not have before is new. */
    twostate predicate Grown()
      reads this
    {
      && (forall n :: n in owned ==> n in old(owned) || fresh(n))
      && forall k :: k in index ==> (k in old(index) && index[k] == old(index)[k]) || fresh(index[k])
    }

    ghost function Snap(): Snapshot
      reads this, index.Values
    {
      Snapshot(rows, index, View(), Results())
    }

    constructor (hash: string -> nat)
      ensures Valid() && index == map[] && this.hash == hash && fresh(shards) && owned == {}
    {
      this.hash := hash;
      var lists: seq<IntrusiveList<Entry>> := [];
      ghost var rows: seq<seq<Node<Entry>>> := [];
      while |lists| < SHARDS
        invariant |lists| == |rows| <= SHARDS && Distinct(lists) && fresh(lists)
        invariant forall i :: 0 <= i < |lists| ==> rows[i] == [] && ListIs(lists[i], rows[i], {})
      {
        var list := new IntrusiveList<Entry>();
        lists, rows := lists + [list], rows + [[]];
      }
      shards := lists;
      this.index, this.rows, owned := map[], rows, {};
    }

    ghost method Record(index: map<string, Entry>, rows: seq<seq<Node<Entry>>>, owned: set<Node<Entry>>)
      requires |shards| == SHARDS && Distinct(shards) && Hold(shards, rows, owned) && Files(hash, rows, index)
      modifies this
      ensures Valid() && this.index == index && this.rows == rows && this.owned == owned
    {
      this.index, this.rows, this.owned := index, rows, owned;
    }

    /** A lookup in the shards is a lookup in the map. */
    method Find(key: string) returns (entry: Entry?)
      requires Valid()
      ensures (entry == null) == (key !in index)
      ensures entry != null ==> entry == index[key] && entry.key == key
    {
      var keyHash := hash(key);
      var i := keyHash % SHARDS;
      assert ListIs(shards[i], rows[i], owned);
      var node, k := shards[i].Find((e: Entry) => e.keyHash == keyHash && e.key == key);
      ShardLookup(hash, rows[i], index, key);
      return if node == null then null else node.item;
    }

    /** A new entry in front of its shard. */
    method Insert(key: string) returns (entry: Entry)
      requires Valid() && key !in index
      modifies this, shards
      ensures Valid() && index == old(index)[key := entry] && fresh(owned - old(owned))
      ensures fresh(entry) && entry.stored == None && entry.phase == Pending
      ensures entry.children == [] && entry.parents == []
    {
      var keyHash := hash(key);
      var i := keyHash % SHARDS;
      entry := new Entry(keyHash, key);
      var node := new Node(entry);
      PrependTo(shards, rows, owned, i, node);
      FilesPrepend(hash, rows, index, node);
      Record(index[key := entry], rows[i := [node] + rows[i]], owned + {node});
    }

    twostate predicate Untouched(e: Entry)
      reads e
    {
      && e.stored == old(e.stored) && e.phase == old(e.phase)
      && e.children == old(e.children) && e.parents == old(e.parents)
    }

    twostate lemma ViewCreated(key: string)
      requires index.Keys == old(index).Keys + {key} && (forall k :: k in old(index) ==> index[k] == old(index)[k])
      requires forall k :: k in old(index) ==> Untouched(old(index)[k])
      requires key !in old(index) ==> index[key].children == [] && index[key].parents == []
      ensures View() == Created(old(View()), key)
    {
    }

    twostate lemma ResultsAwaited(key: string)
      requires index.Keys == old(index).Keys + {key} && (forall k :: k in old(index) ==> index[k] == old(index)[k])
      requires forall k :: k in old(index) ==> Untouched(old(index)[k])
      requires key !in old(index) ==> index[key].stored == None && index[key].phase == Pending
      ensures Results() == Awaited(old(Results()), key)
    {
    }

    /** The entry of the key, made on demand. */
    method GetOrCreate(key: string) returns (entry: Entry)
      requires Valid()
      modifies this, shards
      ensures Valid() && index == old(index)[key := entry]
      ensures View() == Created(old(View()), key) && entry.key == key
      ensures Results() == Awaited(old(Results()), key)
      ensures key in old(index) ==> entry == old(index)[key]
      ensures key !in old(index) ==> fresh(entry) && entry.stored == None && entry.phase == Pending
      ensures Kept(old(index)) && Grown()
    {
      var found := Find(key);
      if found != null {
        return found;
      }
      entry := Insert(key);
      ViewCreated(key);
      ResultsAwaited(key);
    }

    /** Removes the key from the map; the removed node, at place k of its row, still leads to what was behind it. */
    method Unlink(key: string) returns (ghost k: nat)
      requires Valid()
      modifies this, shards, owned
      ensures Valid() && index == old(index) - {key} && owned == old(owned)
      ensures var i := hash(key) % SHARDS;
              && rows == old(rows)[i := rows[i]] && Dropped(old(rows)[i], rows[i], key, k)
              && (k < |old(rows)[i]| <==> key in old(index))
    {
      var keyHash := hash(key);
      var i := keyHash % SHARDS;
      var removed;
      FilesApart(hash, rows, index);
      ShardLookup(hash, rows[i], index, key);
      removed, k := RemoveFrom(shards, rows, owned, i, (e: Entry) => e.keyHash == keyHash && e.key == key);
      if removed != null {
        FilesCut(hash, rows, index, i, k);
        Record(index - {key}, rows[i := Cut(rows[i], k)], owned);
      }
    }

    twostate lemma ViewDropped(key: string)
      requires index == old(index) - {key} && (forall k :: k in index ==> Untouched(index[k]))
      ensures View() == old(View()) - {key} && Results() == old(Results()) - {key}
    {
    }

    /** Removes the key from the map; the removed node, at place k of its row, still leads to what was behind it. */
    method RemoveExpired(key: string) returns (ghost k: nat)
      requires Valid()
      modifies this, shards, owned
      ensures Valid() && index == old(index) - {key} && owned == old(owned)
      ensures View() == old(View()) - {key} && Results() == old(Results()) - {key}
      ensures forall k :: k in index ==> Untouched(index[k])
      ensures var i := hash(key) % SHARDS;
              && rows == old(rows)[i := rows[i]] && Dropped(old(rows)[i], rows[i], key, k)
              && (k < |old(rows)[i]| <==> key in old(index))
    {
      k := Unlink(key);
      ViewDropped(key);
    }

    /** When one entry changes, only its own links do. */
    twostate lemma LinksChanged(e: Entry)
      requires Files(hash, rows, index) && e.key in index && index[e.key] == e && index == old(index)
      requires forall k :: k in index && k != e.key ==> Untouched(index[k])
      ensures View() == old(View())[e.key := Links(e.children, e.parents)]
    {
    }

    /** When one entry changes, only its own result and slot do. */
    twostate lemma ResultChanged(e: Entry)
      requires Files(hash, rows, index) && e.key in index && index[e.key] == e && index == old(index)
      requires forall k :: k in index && k != e.key ==> Untouched(index[k])
      ensures Results() == old(Results())[e.key := Held(e.stored, e.phase)]
    {
    }

    method Relink(e: Entry, children: seq<string>, parents: seq<string>)
      requires Valid() && e.key in index && index[e.key] == e
      modifies e`children, e`parents
      ensures Valid() && e.children == children && e.parents == parents && Results() == old(Results())
      ensures View() == old(View())[e.key := Links(children, parents)]
    {
      e.children, e.parents := children, parents;
      LinksChanged(e);
      ResultChanged(e);
    }

    /** Records a result, and makes a pending slot ready. */
    method Deliver(e: Entry, artifact: Artifact)
      requires Valid() && e.key in index && index[e.key] == e
      modifies e`stored, e`phase
      ensures Valid() && e.phase != Pending
      ensures Results() == Delivered(old(Results()), e.key, artifact) && View() == old(View())
    {
      e.Deliver(artifact);
      LinksChanged(e);
      ResultChanged(e);
    }

    /** True exactly if the child already leads to the parent. */
    method WouldCreateCircle(parent: string, child: string) returns (circle: bool)
      requires Valid()
      ensures circle == Reaches(Children(View()), child, parent)
    {
      ghost var g := Children(View());
      ghost var all := Universe(g) + {child};
      var visited: set<string> := {};
      var stack := [child];
      ReachesSelf(g, child);
      while stack != []
        invariant Searched(g, child, visited, stack)
        invariant parent !in visited
        invariant visited <= all && forall x :: x in stack ==> x in all
        decreases all - visited, |stack|
      {
        var x := stack[|stack| - 1];
        if x == parent {
          return true;
        }
        SearchStep(g, child, visited, stack);
        stack := stack[..|stack| - 1];
        if x !in visited {
          visited := visited + {x};
          var entry := Find(x);
          if entry != null {
            stack := stack + entry.children;
          }
        }
      }
      SearchDone(g, child, visited);
      return false;
    }

    method GetBoth(a: string, b: string) returns (first: Entry, second: Entry)
      requires Valid()
      modifies this, shards
      ensures Valid() && Kept(old(index)) && Grown()
      ensures a in index && index[a] == first && first.key == a
      ensures b in index && index[b] == second && second.key == b
      ensures first in old(index).Values || fresh(first)
      ensures second in old(index).Values || fresh(second)
      ensures View() == Created(Created(old(View()), a), b) && Results() == Awaited(Awaited(old(Results()), a), b)
    {
      first := GetOrCreate(a);
      second := GetOrCreate(b);
    }

    /** Both ids registered and linked, with no check. */
    method RegisterDependent(dependency: string, job: string)
      requires Valid()
      modifies this, shards, index.Values`children, index.Values`parents
      ensures Valid() && View() == Related(old(View()), dependency, job)
      ensures Results() == Awaited(Awaited(old(Results()), dependency), job) && Kept(old(index)) && Grown()
    {
      var parent, child := GetBoth(dependency, job);
      Relink(parent, Pushed(parent.children, job), parent.parents);
      Relink(child, child.children, Pushed(child.parents, dependency));
    }

    /** The checked relation: refused exactly if it would close a cycle, and then nothing changes. */
    method AddRelationship(parent: string, child: string) returns (refused: bool)
      requires Valid()
      modifies this, shards, index.Values`children, index.Values`parents
      ensures Valid() && View() == Apply(old(View()), Relate(parent, child))
      ensures refused == Reaches(Children(old(View())), child, parent)
      ensures refused ==> Results() == old(Results())
      ensures !refused ==> Results() == Awaited(Awaited(old(Results()), parent), child)
      ensures Kept(old(index)) && Grown() && (refused ==> index == old(index))
    {
      refused := WouldCreateCircle(parent, child);
      assert Results() == old(Results());
      if !refused {
        RegisterDependent(parent, child);
      }
    }

    method Unparent(key: string, id: string)
      requires Valid()
      modifies index.Values`children, index.Values`parents
      ensures Valid() && View() == Unparented(old(View()), key, id)
    {
      var child := Find(key);
      if child != null {
        Relink(child, child.children, RemoveFirst(child.parents, id));
      }
    }

    method Disown(key: string, id: string)
      requires Valid()
      modifies index.Values`children, index.Values`parents
      ensures Valid() && View() == Disowned(old(View()), key, id)
    {
      var parent := Find(key);
      if parent != null {
        Relink(parent, RemoveFirst(parent.children, id), parent.parents);
      }
    }

    /** id is struck from the parents of each registered id of the list. */
    method StrikeParent(ids: seq<string>, id: string)
      requires Valid()
      modifies index.Values`children, index.Values`parents
      ensures Valid() && View() == DropParent(old(View()), ids, id)
    {
      for i := 0 to |ids|
        invariant Valid() && View() == DropParent(old(View()), ids[..i], id)
      {
        DropNext(old(View()), ids, i, id);
        Unparent(ids[i], id);
      }
      assert ids[..|ids|] == ids;
    }

    /** id is struck from the children of each registered id of the list. */
    method StrikeChild(ids: seq<string>, id: string)
      requires Valid()
      modifies index.Values`children, index.Values`parents
      ensures Valid() && View() == DropChild(old(View()), ids, id)
    {
      for i := 0 to |ids|
        invariant Valid() && View() == DropChild(old(View()), ids[..i], id)
      {
        DropNext(old(View()), ids, i, id);
        Disown(ids[i], id);
      }
      assert ids[..|ids|] == ids;
    }

    /** The entries that pruning an id may change: none if the id is not registered. */
    ghost function Prunable(id: string): set<Entry>
      reads this
    {
      if id in index then index.Values else {}
    }

    /** Every edge at the id is removed at both ends; nothing happens if the id is not registered. */
    method PruneDependencyEdges(id: string)
      requires Valid()
      modifies Prunable(id)`children, Prunable(id)`parents
      ensures Valid() && View() == Pruned(old(View()), id)
    {
      var entry := Find(id);
      if entry != null {
        ghost var v := View();
        StrikeParent(entry.children, id);
        DropParentSameEdges(v, v[id].children, id);
        StrikeChild(entry.parents, id);
        Relink(entry, [], []);
      }
    }

    /** Removing and then pruning, as the sweep does: the pruning finds no entry and changes nothing. */
    method RemoveThenPrune(key: string) returns (ghost k: nat)
      requires Valid()
      modifies this, shards, owned
      ensures Valid() && index == old(index) - {key} && owned == old(owned)
      ensures forall k :: k in index ==> Untouched(index[k])
      ensures var i := hash(key) % SHARDS;
              && rows == old(rows)[i := rows[i]] && Dropped(old(rows)[i], rows[i], key, k)
              && (k < |old(rows)[i]| <==> key in old(index))
    {
      k := RemoveExpired(key);
      PruneMissing(key);
    }

    /** Pruning an id that is not registered changes nothing at all. */
    method PruneMissing(id: string)
      requires Valid() && id !in index
    {
      PruneDependencyEdges(id);
    }

    /** Every node of a row is visited, and its slot closed; a closed slot stays closed. */
    method CloseShard(i: nat)
      requires Valid() && i < SHARDS
      modifies index.Values`phase
      ensures Valid() && forall b :: 0 <= b < |rows[i]| ==> rows[i][b].item.phase == Closed
      ensures forall e: Entry :: e in index.Values && old(e.phase) == Closed ==> e.phase == Closed
    {
      ghost var row := rows[i];
      RowEntries(i);
      assert ListIs(shards[i], row, owned);
      var node := shards[i].head;
      ghost var a := 0;
      while node != null
        invariant a <= |row| && node == Place(row, a)
        invariant forall b :: 0 <= b < a ==> row[b].item.phase == Closed
        invariant forall e: Entry :: e in index.Values && old(e.phase) == Closed ==> e.phase == Closed
        decreases |row| - a
      {
        node.item.phase := Closed;
        node, a := node.next, a + 1;
      }
    }

    lemma RowEntries(i: nat)
      requires Valid() && i < SHARDS
      ensures forall b :: 0 <= b < |rows[i]| ==> rows[i][b].item in index.Values
    {
      forall b | 0 <= b < |rows[i]|
        ensures rows[i][b].item in index.Values
      {
        assert Filed(hash, i, rows[i][b].item, index);
      }
    }

    /** Every slot is closed. */
    method CloseAll()
      requires Valid()
      modifies index.Values`phase
      ensures Valid() && forall k :: k in index ==> index[k].phase == Closed
    {
      for i := 0 to SHARDS
        invariant Valid()
        invariant forall j, b :: 0 <= j < i && 0 <= b < |rows[j]| ==> rows[j][b].item.phase == Closed
      {
        forall j | 0 <= j < i
          ensures forall b :: 0 <= b < |rows[j]| ==> rows[j][b].item in index.Values
        {
          RowEntries(j);
        }
        CloseShard(i);
      }
      forall k | k in index
        ensures index[k].phase == Closed
      {
        ShardLookup(hash, rows[hash(k) % SHARDS], index, k);
      }
    }
  }
}
