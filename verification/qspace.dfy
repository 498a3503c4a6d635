/**
 The result space (qspace.go) over the registry, called from one goroutine at a time:
 publication of results, the handles given to waiters, and the sweep of expired results.
 A slot is its entry's phase, which the entry's handles wait on.
 */
module ResultSpace {
  import opened Common
  import opened SlotPhases
  import opened LinkedNodes
  import opened ShardedLists
  import opened DependencyGraph
  import opened DependencyLinks
  import opened Registries

  predicate Expired(stored: Option<Artifact>, now: int) {
    stored.Some? && stored.value.ttl > 0 && now - stored.value.timestamp > stored.value.ttl
  }

  /** The decision of the sweep's visitor. */
  method Overdue(stored: Option<Artifact>, now: int) returns (expired: bool)
    ensures expired == Expired(stored, now)
  {
    if stored == None {
      return false;
    }
    var ttl := stored.value.ttl;
    if ttl <= 0 {
      return false;
    }
    return !(now - stored.value.timestamp <= ttl);
  }

  /** The keys with an expired result, in one shard. */
  ghost predicate GoneOf(hash: string -> nat, results: map<string, Held>, i: nat, now: int, gone: set<string>) {
    forall key :: key in gone <==> key in results && hash(key) % SHARDS == i && Expired(results[key].stored, now)
  }

  /** The keys with an expired result, among the first a of a row. */
  ghost predicate GoneFrom(results: map<string, Held>, row: seq<Node<Entry>>, a: nat, now: int, gone: set<string>)
    requires a <= |row|
  {
    && (forall b :: 0 <= b < |row| ==> row[b].item.key in results)
    && (forall b :: 0 <= b < |row| ==>
          (row[b].item.key in gone <==> b < a && Expired(results[row[b].item.key].stored, now)))
    && (forall key :: key in gone ==> Holds(row, key))
  }

  lemma GoneStep(hash: string -> nat, index: map<string, Entry>, results: map<string, Held>, row: seq<Node<Entry>>,
                 i: nat, a: nat, now: int, gone: set<string>)
    requires ShardOk(hash, i, row, index) && a < |row| && GoneFrom(results, row, a, now, gone)
    ensures GoneFrom(results, row, a + 1, now,
                     gone + if Expired(results[row[a].item.key].stored, now) then {row[a].item.key} else {})
  {
    var gone' := gone + if Expired(results[row[a].item.key].stored, now) then {row[a].item.key} else {};
    forall key | key in gone'
      ensures Holds(row, key)
    {
      if key !in gone {
        assert row[a].item.key == key;
      }
    }
  }

  lemma GoneAll(hash: string -> nat, index: map<string, Entry>, results: map<string, Held>, row: seq<Node<Entry>>,
                i: nat, now: int, gone: set<string>)
    requires ShardOk(hash, i, row, index) && results.Keys == index.Keys && GoneFrom(results, row, |row|, now, gone)
    ensures GoneOf(hash, results, i, now, gone)
  {
    forall key | key in gone
      ensures key in results && hash(key) % SHARDS == i && Expired(results[key].stored, now)
    {
      assert Holds(row, key);
      var b :| 0 <= b < |row| && row[b].item.key == key;
      assert Filed(hash, i, row[b].item, index);
    }
    forall key | key in results && hash(key) % SHARDS == i && Expired(results[key].stored, now)
      ensures key in gone
    {
      assert Holds(row, key);
    }
  }

  /** One registry is another without some ids. */
  ghost predicate Shrunk(from: Snapshot, to: Snapshot, gone: set<string>) {
    to.index == from.index - gone && to.view == from.view - gone && to.results == from.results - gone
  }

  /** A walk over row i has passed its first a nodes, and stands at place p of what is left of it. */
  ghost predicate Sweeping(from: Snapshot, to: Snapshot, i: nat, a: nat, p: nat, now: int, gone: set<string>) {
    && i < |from.rows| == |to.rows| && a <= |from.rows[i]| && p <= |to.rows[i]|
    && to.rows == from.rows[i := to.rows[i]] && to.rows[i][p..] == from.rows[i][a..]
    && GoneFrom(from.results, from.rows[i], a, now, gone)
    && Shrunk(from, to, gone)
  }

  /** A visit to the entry at place p of row i. */
  ghost predicate Visited(from: Snapshot, to: Snapshot, i: nat, p: nat, now: int, gone: set<string>)
  {
    && i < |from.rows| && p < |from.rows[i]|
    && var key := from.rows[i][p].item.key;
    && key in from.results && gone == (if Expired(from.results[key].stored, now) then {key} else {})
    && to.rows == (if gone == {} then from.rows else from.rows[i := Cut(from.rows[i], p)])
    && Shrunk(from, to, gone)
  }

  lemma SweepBegin(hash: string -> nat, from: Snapshot, i: nat, now: int)
    requires i < |from.rows| && ShardOk(hash, i, from.rows[i], from.index) && from.results.Keys == from.index.Keys
    ensures Sweeping(from, from, i, 0, 0, now, {})
  {
    forall b | 0 <= b < |from.rows[i]|
      ensures from.rows[i][b].item.key in from.results
    {
      assert Filed(hash, i, from.rows[i][b].item, from.index);
    }
  }

  lemma SweepStep(hash: string -> nat, from: Snapshot, to: Snapshot, to': Snapshot,
                  i: nat, a: nat, p: nat, now: int, gone: set<string>, g: set<string>)
    requires Sweeping(from, to, i, a, p, now, gone) && a < |from.rows[i]|
    requires ShardOk(hash, i, from.rows[i], from.index) && from.results.Keys == from.index.Keys
    requires Visited(to, to', i, p, now, g)
    ensures Sweeping(from, to', i, a + 1, if g == {} then p + 1 else p, now, gone + g)
    ensures Place(to.rows[i], p + 1) == Place(from.rows[i], a + 1)
    ensures from.rows[i][..a + 1] == from.rows[i][..a] + [from.rows[i][a]]
  {
    var row := from.rows[i];
    assert to.rows[i][p] == to.rows[i][p..][0] == row[a..][0] == row[a];
    GoneStep(hash, from.index, from.results, row, i, a, now, gone);
    assert to.rows[i][p + 1..] == row[a + 1..];
    assert g != {} ==> to'.rows[i][p..] == to.rows[i][p + 1..];
  }

  lemma SweepDone(hash: string -> nat, from: Snapshot, to: Snapshot,
                  i: nat, a: nat, p: nat, now: int, gone: set<string>)
    requires Sweeping(from, to, i, a, p, now, gone) && Place(from.rows[i], a) == null
    requires ShardOk(hash, i, from.rows[i], from.index) && from.results.Keys == from.index.Keys
    ensures GoneOf(hash, from.results, i, now, gone) && from.rows[i][..a] == from.rows[i]
  {
    GoneAll(hash, from.index, from.results, from.rows[i], i, now, gone);
  }

  /** The keys with an expired result, in the first shards. */
  ghost predicate GoneBelow(hash: string -> nat, results: map<string, Held>, i: nat, now: int, gone: set<string>) {
    forall key :: key in gone <==> key in results && hash(key) % SHARDS < i && Expired(results[key].stored, now)
  }

  /** The first i shards are swept, and the others are as they were. */
  ghost predicate SweptBelow(hash: string -> nat, from: Snapshot, to: Snapshot, i: nat, now: int, gone: set<string>) {
    && |from.rows| == |to.rows| == SHARDS && i <= SHARDS
    && from.rows[i..] == to.rows[i..]
    && GoneBelow(hash, from.results, i, now, gone) && Shrunk(from, to, gone)
  }

  lemma SweptNext(hash: string -> nat, from: Snapshot, to: Snapshot, to': Snapshot,
                  i: nat, now: int, gone: set<string>, g: set<string>)
    requires SweptBelow(hash, from, to, i, now, gone) && i < SHARDS
    requires GoneOf(hash, to.results, i, now, g) && Shrunk(to, to', g)
    requires |to'.rows| == SHARDS && to'.rows == to.rows[i := to'.rows[i]]
    ensures SweptBelow(hash, from, to', i + 1, now, gone + g)
    ensures from.rows[..i + 1] == from.rows[..i] + [to.rows[i]]
  {
    assert from.rows[i + 1..] == from.rows[i..][1..];
    assert to.rows[i + 1..] == to.rows[i..][1..] == to'.rows[i + 1..];
    assert from.rows[i] == from.rows[i..][0] == to.rows[i];
  }

  /** What a caller of Await gets: a result, a refusal, or the slot of an entry to wait on. */
  datatype Handle = Immediate(artifact: Artifact) | Rejected | Slot(entry: Entry)

  /** An entry with a result has no pending slot. */
  ghost predicate Answered(results: map<string, Held>) {
    forall k :: k in results && results[k].stored.Some? ==> results[k].phase != Pending
  }

  lemma AwaitedAnswered(results: map<string, Held>, a: string, b: string)
    requires Answered(results)
    ensures Answered(Awaited(Awaited(results, a), b))
  {
  }

  lemma DeliveredAwaited(results: map<string, Held>, id: string, artifact: Artifact)
    ensures Delivered(Awaited(results, id), id, artifact) == Delivered(results, id, artifact)
  {
  }

  /** Storing a result moves no slot back, and changes no other id. */
  lemma DeliveredAdvances(results: map<string, Held>, id: string, artifact: Artifact)
    ensures var after := Delivered(results, id, artifact);
            && after.Keys == results.Keys + {id} && after[id].stored == Some(artifact) && after[id].phase != Pending
            && forall k :: k in results ==>
                 Rank(results[k].phase) <= Rank(after[k].phase) && (k != id ==> after[k] == results[k])
  {
  }

  lemma ShrunkAnswered(from: Snapshot, to: Snapshot, gone: set<string>)
    requires Shrunk(from, to, gone) && Answered(from.results)
    ensures Answered(to.results)
  {
  }

  class QSpace {
    const entries: Registry
    var stopped: bool

    /** The entries whose slots were given out. */
    ghost var handles: set<Entry>

    ghost predicate Valid()
      reads this, entries, entries.shards, entries.owned, entries.index.Values, handles
    {
      entries.Valid() && Answered(entries.Results()) && Reachable()
    }

    /** A pending slot that was given out belongs to the registered entry of its key, while the space is open. */
    ghost predicate Reachable()
      reads this, entries, handles
    {
      forall e :: e in handles && e.phase == Pending ==>
        !stopped && e.key in entries.index && entries.index[e.key] == e
    }

    constructor (hash: string -> nat)
      ensures Valid() && entries.index == map[] && !stopped && handles == {}
      ensures fresh(entries) && fresh(entries.shards) && entries.owned == {}
    {
      entries := new Registry(hash);
      stopped, handles := false, {};
    }

    /** An entry is taken out of the registry; its node, at place p of its row, keeps its next pointer. */
    method Discard(node: Node<Entry>, ghost i: nat, ghost p: nat)
      requires entries.Valid() && i < SHARDS && p < |entries.rows[i]| && node == entries.rows[i][p]
      modifies entries, entries.shards, entries.owned, entries.index.Values`stored
      modifies entries.index.Values`children, entries.index.Values`parents
      ensures entries.Valid() && entries.owned == old(entries.owned)
      ensures node.next == Place(old(entries.rows)[i], p + 1)
      ensures entries.rows == old(entries.rows)[i := Cut(old(entries.rows)[i], p)]
      ensures entries.index == old(entries.index) - {node.item.key}
      ensures forall k :: k in entries.index ==> entries.Untouched(entries.index[k])
    {
      var entry := node.item;
      assert Filed(entries.hash, i, entry, entries.index);
      assert ShardOk(entries.hash, i, entries.rows[i], entries.index);
      entry.stored := None;
      ghost var k := entries.RemoveThenPrune(entry.key);
      assert k == p;
    }

    /** The visitor of the sweep: an expired entry is discarded, and the node keeps its next pointer. */
    method Visit(node: Node<Entry>, now: int, ghost i: nat, ghost p: nat) returns (ghost gone: set<string>)
      requires entries.Valid() && i < SHARDS && p < |entries.rows[i]| && node == entries.rows[i][p]
      modifies entries, entries.shards, entries.owned, entries.index.Values`stored
      modifies entries.index.Values`children, entries.index.Values`parents
      ensures entries.Valid() && entries.owned == old(entries.owned) && node.next == Place(old(entries.rows)[i], p + 1)
      ensures Visited(old(entries.Snap()), entries.Snap(), i, p, now, gone)
    {
      gone := {};
      assert ListIs(entries.shards[i], entries.rows[i], entries.owned);
      assert Filed(entries.hash, i, node.item, entries.index);
      var expired := Overdue(node.item.stored, now);
      if expired {
        gone := {node.item.key};
        Discard(node, i, p);
        entries.ViewDropped(node.item.key);
      }
    }

    /** One turn of the walk over row i. */
    method Advance(node: Node<Entry>, now: int,
                   ghost from: Snapshot, ghost i: nat, ghost a: nat, ghost p: nat, ghost gone: set<string>)
      returns (next: Node?<Entry>, ghost p': nat, ghost gone': set<string>)
      requires entries.Valid() && Sweeping(from, entries.Snap(), i, a, p, now, gone)
      requires a < |from.rows[i]| && node == from.rows[i][a]
      requires ShardOk(entries.hash, i, from.rows[i], from.index) && from.results.Keys == from.index.Keys
      modifies entries, entries.shards, entries.owned, entries.index.Values`stored
      modifies entries.index.Values`children, entries.index.Values`parents
      ensures entries.Valid() && entries.owned == old(entries.owned)
      ensures Sweeping(from, entries.Snap(), i, a + 1, p', now, gone')
      ensures next == Place(from.rows[i], a + 1) && from.rows[i][..a + 1] == from.rows[i][..a] + [node]
    {
      ghost var to := entries.Snap();
      ghost var g := Visit(node, now, i, p);
      SweepStep(entries.hash, from, to, entries.Snap(), i, a, p, now, gone, g);
      next, p', gone' := node.next, if g == {} then p + 1 else p, gone + g;
    }

    /** The walk over one shard visits each of its entries once, in order, although it unlinks some of them. */
    method SweepShard(i: nat, now: int) returns (ghost gone: set<string>, ghost visited: seq<Node<Entry>>)
      requires entries.Valid() && i < SHARDS
      modifies entries, entries.shards, entries.owned, entries.index.Values`stored
      modifies entries.index.Values`children, entries.index.Values`parents
      ensures entries.Valid() && entries.owned == old(entries.owned)
      ensures visited == old(entries.rows)[i] && entries.rows == old(entries.rows)[i := entries.rows[i]]
      ensures GoneOf(entries.hash, old(entries.Results()), i, now, gone)
      ensures Shrunk(old(entries.Snap()), entries.Snap(), gone)
    {
      ghost var from := entries.Snap();
      ghost var row := from.rows[i];
      SweepBegin(entries.hash, from, i, now);
      assert ListIs(entries.shards[i], row, entries.owned);
      var node := entries.shards[i].head;
      ghost var a, p := 0, 0;
      gone, visited := {}, [];
      while node != null
        invariant entries.Valid() && entries.owned == old(entries.owned)
        invariant Sweeping(from, entries.Snap(), i, a, p, now, gone)
        invariant node == Place(row, a) && visited == row[..a]
        decreases |row| - a
      {
        visited := visited + [row[a]];
        node, p, gone := Advance(node, now, from, i, a, p, gone);
        a := a + 1;
      }
      SweepDone(entries.hash, from, entries.Snap(), i, a, p, now, gone);
    }

    /** The sweep over all shards. */
    method Sweep(now: int) returns (ghost gone: set<string>, ghost visited: seq<seq<Node<Entry>>>)
      requires entries.Valid()
      modifies entries, entries.shards, entries.owned, entries.index.Values`stored
      modifies entries.index.Values`children, entries.index.Values`parents
      ensures entries.Valid() && visited == old(entries.rows) && entries.owned == old(entries.owned)
      ensures SweptBelow(entries.hash, old(entries.Snap()), entries.Snap(), SHARDS, now, gone)
    {
      ghost var from := entries.Snap();
      gone, visited := {}, [];
      for i := 0 to SHARDS
        invariant entries.Valid() && entries.owned == old(entries.owned)
        invariant SweptBelow(entries.hash, from, entries.Snap(), i, now, gone)
        invariant visited == from.rows[..i]
      {
        ghost var to := entries.Snap();
        ghost var g, row := SweepShard(i, now);
        SweptNext(entries.hash, from, to, entries.Snap(), i, now, gone, g);
        gone, visited := gone + g, visited + [row];
      }
      assert from.rows[..SHARDS] == from.rows;
    }

    /** Removes exactly the entries whose time to live is positive and exceeded, and visits every entry once. */
    method Cleanup(now: int) returns (ghost gone: set<string>, ghost visited: seq<seq<Node<Entry>>>)
      requires Valid()
      modifies entries, entries.shards, entries.owned, entries.index.Values`stored
      modifies entries.index.Values`children, entries.index.Values`parents
      ensures Valid() && visited == old(entries.rows) && entries.Grown()
      ensures forall k :: k in gone <==> k in old(entries.index) && Expired(old(entries.index[k].stored), now)
      ensures Shrunk(old(entries.Snap()), entries.Snap(), gone)
    {
      ghost var from := entries.Snap();
      gone, visited := Sweep(now);
      ShrunkAnswered(from, entries.Snap(), gone);
      StillReachable(gone);
    }

    /** An entry that leaves the registry takes no pending slot with it. */
    twostate lemma StillReachable(gone: set<string>)
      requires old(Reachable()) && entries.index == old(entries.index) - gone
      requires forall e :: e in old(handles) ==> e.phase == old(e.phase)
      requires forall k :: k in gone && k in old(entries.index) ==> old(entries.index[k].phase) != Pending
      requires unchanged(this)
      ensures Reachable()
    {
    }

    /** The entry of an id, made on demand. */
    method Entered(id: string) returns (entry: Entry)
      requires Valid()
      modifies entries, entries.shards
      ensures Valid() && entries.index == old(entries.index)[id := entry] && entry.key == id && entries.Grown()
      ensures if id in old(entries.index) then entry == old(entries.index[id]) else fresh(entry) && entry.stored == None
      ensures entries.View() == Created(old(entries.View()), id)
      ensures entries.Results() == Awaited(old(entries.Results()), id)
    {
      entry := entries.GetOrCreate(id);
    }

    /** Records a result under its entry, after which no handle for the entry's key blocks. */
    method Publish(entry: Entry, artifact: Artifact)
      requires Valid() && entry.key in entries.index && entries.index[entry.key] == entry
      modifies entry`stored, entry`phase
      ensures Valid() && forall e :: e in handles && e.key == entry.key ==> e.phase != Pending
      ensures entries.Results() == Delivered(old(entries.Results()), entry.key, artifact)
      ensures entries.View() == old(entries.View())
    {
      entries.Deliver(entry, artifact);
    }

    /** Publishes a result; artifact is None if it could not be built. Afterwards no handle for the id blocks. */
    method Store(id: string, artifact: Option<Artifact>)
      requires Valid()
      modifies entries, entries.shards, entries.index.Values`stored, entries.index.Values`phase
      ensures Valid() && entries.Grown()
      ensures stopped || artifact == None ==> entries.Snap() == old(entries.Snap())
      ensures !stopped && artifact != None ==>
                && entries.Results() == Delivered(old(entries.Results()), id, artifact.value)
                && entries.View() == Created(old(entries.View()), id)
                && forall e :: e in handles && e.key == id ==> e.phase != Pending
    {
      if !stopped && artifact != None {
        Put(id, artifact.value);
      }
    }

    method Put(id: string, artifact: Artifact)
      requires Valid()
      modifies entries, entries.shards, entries.index.Values`stored, entries.index.Values`phase
      ensures Valid() && entries.Results() == Delivered(old(entries.Results()), id, artifact) && entries.Grown()
      ensures entries.View() == Created(old(entries.View()), id)
      ensures forall e :: e in handles && e.key == id ==> e.phase != Pending
    {
      DeliveredAwaited(entries.Results(), id, artifact);
      var entry := Entered(id);
      Publish(entry, artifact);
    }

    ghost method GiveOut(entry: Entry)
      requires Valid() && !stopped && entry.key in entries.index && entries.index[entry.key] == entry
      modifies this`handles
      ensures Valid() && handles == old(handles) + {entry}
      ensures entries.View() == old(entries.View()) && entries.Results() == old(entries.Results())
    {
      handles := handles + {entry};
    }

    /** A stored result at once, and otherwise the slot of the registered entry. */
    method Await(id: string) returns (handle: Handle)
      requires Valid()
      modifies this`handles, entries, entries.shards
      ensures Valid() && entries.Grown()
      ensures stopped <==> handle == Rejected
      ensures stopped ==> entries.Snap() == old(entries.Snap()) && handles == old(handles)
      ensures !stopped ==>
                && entries.View() == Created(old(entries.View()), id)
                && entries.Results() == Awaited(old(entries.Results()), id)
                && Given(id, handle, old(entries.Results())) && id in entries.index
                && handles == old(handles) + if handle.Slot? then {handle.entry} else {}
    {
      if stopped {
        return Rejected;
      }
      handle := Hand(id);
    }

    /** A caller of an open space gets a result, or a slot that the space accounts for. */
    method AwaitOpen(id: string) returns (handle: Handle)
      requires Valid() && !stopped
      modifies this`handles, entries, entries.shards
      ensures Valid() && entries.Grown()
      ensures !handle.Rejected? && (handle.Slot? ==> handle.entry in handles && handle.entry.key == id)
    {
      handle := Await(id);
    }

    /** The stored result, if there was one, and otherwise the slot of the registered entry. */
    ghost predicate Given(id: string, handle: Handle, before: map<string, Held>)
      reads this, entries
    {
      if id in before && before[id].stored.Some?
      then handle == Immediate(before[id].stored.value)
      else handle.Slot? && handle.entry.key == id && id in entries.index && handle.entry == entries.index[id]
    }

    method Hand(id: string) returns (handle: Handle)
      requires Valid() && !stopped
      modifies this`handles, entries, entries.shards
      ensures Valid() && entries.Grown() && id in entries.index
      ensures entries.View() == Created(old(entries.View()), id)
      ensures entries.Results() == Awaited(old(entries.Results()), id)
      ensures Given(id, handle, old(entries.Results()))
      ensures handles == old(handles) + if handle.Slot? then {handle.entry} else {}
    {
      var entry := Entered(id);
      if entry.stored.Some? {
        handle := Immediate(entry.stored.value);
      } else {
        GiveOut(entry);
        handle := Slot(entry);
      }
    }

    /** The stored result of an id, if the space is open. */
    method PeekResult(id: string) returns (artifact: Option<Artifact>)
      requires Valid()
      ensures artifact == if !stopped && id in entries.Results() then entries.Results()[id].stored else None
    {
      if stopped {
        return None;
      }
      var entry := entries.Find(id);
      return if entry == null then None else entry.stored;
    }

    /** Entries that were only added to keep every pending slot registered. */
    twostate lemma KeptReachable()
      requires old(Reachable()) && entries.Kept(old(entries.index))
      requires forall e :: e in old(handles) ==> e.phase == old(e.phase)
      requires unchanged(this)
      ensures Reachable()
    {
    }

    method Relating(parent: string, child: string) returns (refused: bool)
      requires Valid()
      modifies entries, entries.shards, entries.index.Values`children, entries.index.Values`parents
      ensures Valid() && entries.Grown()
      ensures refused == Reaches(Children(old(entries.View())), child, parent)
      ensures entries.View() == Apply(old(entries.View()), Relate(parent, child))
      ensures refused ==> entries.Results() == old(entries.Results())
      ensures !refused ==> entries.Results() == Awaited(Awaited(old(entries.Results()), parent), child)
    {
      AwaitedAnswered(entries.Results(), parent, child);
      refused := entries.AddRelationship(parent, child);
      KeptReachable();
    }

    /** Relates two ids; refused if the space is stopped or the relation would close a cycle. */
    method AddRelationship(parent: string, child: string) returns (refused: bool)
      requires Valid()
      modifies entries, entries.shards, entries.index.Values`children, entries.index.Values`parents
      ensures Valid() && entries.Grown()
      ensures refused == (stopped || Reaches(Children(old(entries.View())), child, parent))
      ensures stopped ==> entries.Snap() == old(entries.Snap())
      ensures !stopped ==> entries.View() == Apply(old(entries.View()), Relate(parent, child))
      ensures refused ==> entries.Results() == old(entries.Results())
      ensures !refused ==> entries.Results() == Awaited(Awaited(old(entries.Results()), parent), child)
    {
      if stopped {
        return true;
      }
      refused := Relating(parent, child);
    }

    method Depending(dependency: string, job: string)
      requires Valid()
      modifies entries, entries.shards, entries.index.Values`children, entries.index.Values`parents
      ensures Valid() && entries.Grown()
      ensures entries.View() == Related(old(entries.View()), dependency, job)
      ensures entries.Results() == Awaited(Awaited(old(entries.Results()), dependency), job)
    {
      AwaitedAnswered(entries.Results(), dependency, job);
      entries.RegisterDependent(dependency, job);
      KeptReachable();
    }

    /** Records that a job waits on a dependency, with no check. */
    method RegisterDependent(dependency: string, job: string)
      requires Valid()
      modifies entries, entries.shards, entries.index.Values`children, entries.index.Values`parents
      ensures Valid() && entries.Grown()
      ensures stopped ==> entries.Snap() == old(entries.Snap())
      ensures !stopped ==>
                && entries.View() == Related(old(entries.View()), dependency, job)
                && entries.Results() == Awaited(Awaited(old(entries.Results()), dependency), job)
    {
      if !stopped {
        Depending(dependency, job);
      }
    }

    /** Afterwards no handle at all blocks. */
    method Close()
      requires Valid()
      modifies this`stopped, entries.index.Values`phase
      ensures Valid() && stopped
      ensures forall e :: e in handles ==> e.phase != Pending
      ensures !old(stopped) ==> forall k :: k in entries.index ==> entries.index[k].phase == Closed
    {
      if stopped {
        return;
      }
      stopped := true;
      entries.CloseAll();
    }
  }

  // Calls in a row

  /** A handle from Await does not block after Store. */
  method AwaitThenStore(space: QSpace, id: string, artifact: Artifact) returns (handle: Handle)
    requires space.Valid() && !space.stopped
    modifies space`handles, space.entries, space.entries.shards, space.entries.owned, space.entries.index.Values
    ensures space.Valid() && space.entries.Grown()
    ensures !handle.Rejected? && (handle.Slot? ==> handle.entry in space.handles && handle.entry.phase != Pending)
    ensures space.entries.Results() == Delivered(old(space.entries.Results()), id, artifact)
  {
    DeliveredAwaited(space.entries.Results(), id, artifact);
    handle := space.Await(id);
    space.Store(id, Some(artifact));
  }

  /** A sweep that removes the entry again, once more than its positive TTL has passed, does not change that. */
  method AwaitStoreSweep(space: QSpace, id: string, artifact: Artifact, now: int) returns (handle: Handle)
    requires space.Valid() && !space.stopped
    modifies space`handles, space.entries, space.entries.shards, space.entries.owned, space.entries.index.Values
    ensures space.Valid()
    ensures !handle.Rejected? && (handle.Slot? ==> handle.entry in space.handles && handle.entry.phase != Pending)
    ensures id !in space.entries.Results() <==> artifact.ttl > 0 && now > artifact.timestamp + artifact.ttl
  {
    handle := AwaitThenStore(space, id, artifact);
    assert id in space.entries.Results() && space.entries.Results()[id].stored == Some(artifact);
    ghost var gone, visited := space.Cleanup(now);
  }

  /** What was stored is what a later look finds, and a later Await returns. */
  method StoreThenLook(space: QSpace, id: string, artifact: Artifact) returns (seen: Option<Artifact>, handle: Handle)
    requires space.Valid() && !space.stopped
    modifies space`handles, space.entries, space.entries.shards, space.entries.index.Values
    ensures space.Valid() && seen == Some(artifact) && handle == Immediate(artifact)
  {
    space.Store(id, Some(artifact));
    assert id in space.entries.Results() && space.entries.Results()[id].stored == Some(artifact);
    seen := space.PeekResult(id);
    handle := space.Await(id);
  }

  /** A handle from Await does not block after Close. */
  method AwaitThenClose(space: QSpace, id: string) returns (handle: Handle)
    requires space.Valid() && !space.stopped
    modifies space, space.entries, space.entries.shards, space.entries.owned, space.entries.index.Values
    ensures space.Valid() && space.stopped
    ensures !handle.Rejected? && (handle.Slot? ==> handle.entry in space.handles && handle.entry.phase != Pending)
  {
    handle := space.AwaitOpen(id);
    space.Close();
  }
}
