/** Parent and child links between registered ids, as values: what each registry operation does to them. */
module DependencyLinks {
  import opened Common
  import opened DependencyGraph

  datatype Links = Links(children: seq<string>, parents: seq<string>)

  type Space = map<string, Links>

  /** The graph of children edges; an edge may lead to an id that is not registered. */
  function Children(v: Space): Graph<string> {
    map k | k in v :: v[k].children
  }

  function Created(v: Space, key: string): Space {
    if key in v then v else v[key := Links([], [])]
  }

  function Pushed(edges: seq<string>, id: string): seq<string> {
    if id in edges then edges else [id] + edges
  }

  /** Both ids registered, and the edge from parent to child recorded at both ends. */
  function Related(v: Space, parent: string, child: string): Space {
    var v1 := Created(Created(v, parent), child);
    var v2 := v1[parent := v1[parent].(children := Pushed(v1[parent].children, child))];
    v2[child := v2[child].(parents := Pushed(v2[child].parents, parent))]
  }

  function RemoveFirst(edges: seq<string>, id: string): seq<string> {
    if edges == [] then []
    else if edges[0] == id then edges[1..]
    else [edges[0]] + RemoveFirst(edges[1..], id)
  }

  /** id struck from the parents of k, if k is registered. */
  function Unparented(v: Space, k: string, id: string): Space {
    if k in v then v[k := v[k].(parents := RemoveFirst(v[k].parents, id))] else v
  }

  /** id struck from the children of k, if k is registered. */
  function Disowned(v: Space, k: string, id: string): Space {
    if k in v then v[k := v[k].(children := RemoveFirst(v[k].children, id))] else v
  }

  /** id struck from the parents of each id of a list, one after the other. */
  function DropParent(v: Space, ids: seq<string>, id: string): Space {
    if ids == [] then v else Unparented(DropParent(v, ids[..|ids| - 1], id), ids[|ids| - 1], id)
  }

  /** id struck from the children of each id of a list, one after the other. */
  function DropChild(v: Space, ids: seq<string>, id: string): Space {
    if ids == [] then v else Disowned(DropChild(v, ids[..|ids| - 1], id), ids[|ids| - 1], id)
  }

  lemma DropNext(v: Space, ids: seq<string>, i: nat, id: string)
    requires i < |ids|
    ensures DropParent(v, ids[..i + 1], id) == Unparented(DropParent(v, ids[..i], id), ids[i], id)
    ensures DropChild(v, ids[..i + 1], id) == Disowned(DropChild(v, ids[..i], id), ids[i], id)
  {
    assert ids[..i + 1][..i] == ids[..i];
  }

  /** Every edge at a registered id removed, at both ends. */
  function Pruned(v: Space, id: string): Space {
    if id !in v then v
    else
      var v1 := DropParent(v, v[id].children, id);
      if id !in v1 then v1
      else
        var v2 := DropChild(v1, v1[id].parents, id);
        v2[id := Links([], [])]
  }

  datatype Op =
    | Create(key: string)
    | Relate(parent: string, child: string)
    | Register(dependency: string, job: string)
    | Expire(key: string)
    | Prune(key: string)

  /** One registry operation; relating is refused when it would close a cycle, and registering is not checked. */
  ghost function Apply(v: Space, op: Op): Space {
    match op
    case Create(key) => Created(v, key)
    case Relate(parent, child) =>
      if Reaches(Children(v), child, parent) then v else Related(v, parent, child)
    case Register(dependency, job) => Related(v, dependency, job)
    case Expire(key) => v - {key}
    case Prune(key) => Pruned(v, key)
  }

  ghost function ApplyAll(v: Space, ops: seq<Op>): Space {
    if ops == [] then v else Apply(ApplyAll(v, ops[..|ops| - 1]), ops[|ops| - 1])
  }

  // Acyclicity

  lemma CreatedSameEdges(v: Space, key: string)
    ensures forall a, b :: Edge(Children(Created(v, key)), a, b) <==> Edge(Children(v), a, b)
  {
  }

  lemma RelatedAddsEdge(v: Space, parent: string, child: string)
    ensures AddsEdge(Children(v), Children(Related(v, parent, child)), parent, child)
  {
    var v1 := Created(Created(v, parent), child);
    CreatedSameEdges(v, parent);
    CreatedSameEdges(Created(v, parent), child);
    assert AddsEdge(Children(v1), Children(Related(v, parent, child)), parent, child);
  }

  lemma {:induction false} RemoveFirstMembers(edges: seq<string>, id: string)
    ensures forall x :: x in RemoveFirst(edges, id) ==> x in edges
  {
    if edges != [] {
      RemoveFirstMembers(edges[1..], id);
    }
  }

  lemma {:induction false} DropParentSameEdges(v: Space, ids: seq<string>, id: string)
    ensures DropParent(v, ids, id).Keys == v.Keys
    ensures forall k :: k in v ==> DropParent(v, ids, id)[k].children == v[k].children
  {
    if ids != [] {
      DropParentSameEdges(v, ids[..|ids| - 1], id);
    }
  }

  lemma {:induction false} DropChildFewerEdges(v: Space, ids: seq<string>, id: string)
    ensures DropChild(v, ids, id).Keys == v.Keys
    ensures forall k, x :: k in v && x in DropChild(v, ids, id)[k].children ==> x in v[k].children
  {
    if ids != [] {
      var u := DropChild(v, ids[..|ids| - 1], id);
      var k := ids[|ids| - 1];
      DropChildFewerEdges(v, ids[..|ids| - 1], id);
      if k in u {
        RemoveFirstMembers(u[k].children, id);
      }
    }
  }

  lemma PrunedFewerEdges(v: Space, id: string)
    ensures Subgraph(Children(Pruned(v, id)), Children(v))
  {
    if id in v {
      DropParentSameEdges(v, v[id].children, id);
      var v1 := DropParent(v, v[id].children, id);
      DropChildFewerEdges(v1, v1[id].parents, id);
    }
  }

  /**
   Registering a dependent skips the check: the graph stays acyclic exactly if the job does
   not already lead to its dependency.
   */
  lemma UncheckedRelationAcyclicIff(v: Space, dependency: string, job: string)
    requires Acyclic(Children(v))
    ensures Acyclic(Children(Related(v, dependency, job))) <==> !Reaches(Children(v), job, dependency)
  {
    RelatedAddsEdge(v, dependency, job);
    AddEdgeAcyclicIff(Children(v), Children(Related(v, dependency, job)), dependency, job);
  }

  /** The operation does not register a job that already leads to its dependency. */
  ghost predicate Unlooped(v: Space, op: Op) {
    op.Register? ==> !Reaches(Children(v), op.job, op.dependency)
  }

  /** Only an unchecked registration can close a cycle, and it does exactly if the job leads to its dependency. */
  lemma ApplyAcyclicIff(v: Space, op: Op)
    requires Acyclic(Children(v))
    ensures Acyclic(Children(Apply(v, op))) <==> Unlooped(v, op)
  {
    match op
    case Create(key) =>
      CreatedSameEdges(v, key);
      SubgraphAcyclic(Children(Created(v, key)), Children(v));
    case Relate(parent, child) =>
      RelatedAddsEdge(v, parent, child);
      AddEdgeAcyclicIff(Children(v), Children(Related(v, parent, child)), parent, child);
    case Register(dependency, job) => UncheckedRelationAcyclicIff(v, dependency, job);
    case Expire(key) =>
      SubgraphAcyclic(Children(v - {key}), Children(v));
    case Prune(key) =>
      PrunedFewerEdges(v, key);
      SubgraphAcyclic(Children(Pruned(v, key)), Children(v));
  }

  lemma EmptyAcyclic()
    ensures Acyclic(Children(map[]))
  {
    forall p
      ensures !Cycle(Children(map[]), p)
    {
      if |p| >= 2 {
        assert !Edge(Children(map[]), p[0], p[1]);
      }
    }
  }

  /** No operation of the run registers a job that leads to its dependency at that time. */
  ghost predicate UnloopedRun(ops: seq<Op>) {
    forall k :: 0 <= k < |ops| ==> Unlooped(ApplyAll(map[], ops[..k]), ops[k])
  }

  /**
   The children graph is acyclic all through a run of creations, relations, registrations,
   expirations and prunings, in any order, exactly if no job is registered that leads to its
   dependency at that time. Ids with edges still pointing at them may expire and be created
   again.
   */
  lemma AcyclicThroughoutIff(ops: seq<Op>)
    ensures (forall k :: 0 <= k <= |ops| ==> Acyclic(Children(ApplyAll(map[], ops[..k])))) <==> UnloopedRun(ops)
  {
    if UnloopedRun(ops) {
      forall k | 0 <= k <= |ops|
        ensures Acyclic(Children(ApplyAll(map[], ops[..k])))
      {
        UnloopedAcyclic(ops, k);
      }
    }
    if forall k :: 0 <= k <= |ops| ==> Acyclic(Children(ApplyAll(map[], ops[..k]))) {
      forall k | 0 <= k < |ops|
        ensures Unlooped(ApplyAll(map[], ops[..k]), ops[k])
      {
        ApplyNext(ops, k);
        assert Acyclic(Children(ApplyAll(map[], ops[..k]))) && Acyclic(Children(ApplyAll(map[], ops[..k + 1])));
        ApplyAcyclicIff(ApplyAll(map[], ops[..k]), ops[k]);
      }
    }
  }

  lemma ApplyNext(ops: seq<Op>, k: nat)
    requires k < |ops|
    ensures ApplyAll(map[], ops[..k + 1]) == Apply(ApplyAll(map[], ops[..k]), ops[k])
  {
    assert ops[..k + 1][..k] == ops[..k];
  }

  lemma {:induction false} UnloopedAcyclic(ops: seq<Op>, k: nat)
    requires UnloopedRun(ops) && k <= |ops|
    ensures Acyclic(Children(ApplyAll(map[], ops[..k])))
  {
    if k == 0 {
      EmptyAcyclic();
    } else {
      UnloopedAcyclic(ops, k - 1);
      ApplyNext(ops, k - 1);
      assert Unlooped(ApplyAll(map[], ops[..k - 1]), ops[k - 1]);
      ApplyAcyclicIff(ApplyAll(map[], ops[..k - 1]), ops[k - 1]);
    }
  }

  /** Without registrations it is acyclic after every run. */
  lemma AlwaysAcyclic(ops: seq<Op>)
    requires forall op :: op in ops ==> !op.Register?
    ensures Acyclic(Children(ApplyAll(map[], ops)))
  {
    UnloopedAcyclic(ops, |ops|);
    assert ops[..|ops|] == ops;
  }

  /** A job that waits on itself is such a case. */
  lemma UncheckedRelationCanCycle(job: string)
    ensures !Acyclic(Children(Related(map[], job, job)))
  {
    EmptyAcyclic();
    ReachesSelf(Children(map[]), job);
    UncheckedRelationAcyclicIff(map[], job, job);
  }

  // Both ends of an edge

  /** Every edge is recorded at both of its ends. */
  ghost predicate Mirrored(v: Space) {
    forall a, b :: HasChild(v, a, b) <==> HasParent(v, b, a)
  }

  ghost predicate HasChild(v: Space, a: string, b: string) {
    a in v && b in v[a].children
  }

  ghost predicate HasParent(v: Space, b: string, a: string) {
    b in v && a in v[b].parents
  }

  /** No id is listed twice. */
  ghost predicate Tidy(v: Space) {
    forall k :: k in v ==> Distinct(v[k].children) && Distinct(v[k].parents)
  }

  lemma {:induction false} RemoveFirstExact(edges: seq<string>, id: string)
    requires Distinct(edges)
    ensures Distinct(RemoveFirst(edges, id))
    ensures forall x :: x in RemoveFirst(edges, id) <==> x in edges && x != id
  {
    if edges != [] {
      assert edges == [edges[0]] + edges[1..] && edges[0] !in edges[1..];
      RemoveFirstExact(edges[1..], id);
      RemoveFirstMembers(edges[1..], id);
    }
  }

  lemma {:induction false} DropParentExact(v: Space, ids: seq<string>, id: string)
    requires Tidy(v)
    ensures Tidy(DropParent(v, ids, id)) && DropParent(v, ids, id).Keys == v.Keys
    ensures forall k :: k in v ==> DropParent(v, ids, id)[k].children == v[k].children
    ensures forall k, x :: HasParent(DropParent(v, ids, id), k, x) <==> HasParent(v, k, x) && !(x == id && k in ids)
  {
    if ids != [] {
      var u := DropParent(v, ids[..|ids| - 1], id);
      var k := ids[|ids| - 1];
      DropParentExact(v, ids[..|ids| - 1], id);
      assert ids == ids[..|ids| - 1] + [k];
      if k in u {
        RemoveFirstExact(u[k].parents, id);
      }
    }
  }

  lemma {:induction false} DropChildExact(v: Space, ids: seq<string>, id: string)
    requires Tidy(v)
    ensures Tidy(DropChild(v, ids, id)) && DropChild(v, ids, id).Keys == v.Keys
    ensures forall k :: k in v ==> DropChild(v, ids, id)[k].parents == v[k].parents
    ensures forall k, x :: HasChild(DropChild(v, ids, id), k, x) <==> HasChild(v, k, x) && !(x == id && k in ids)
  {
    if ids != [] {
      var u := DropChild(v, ids[..|ids| - 1], id);
      var k := ids[|ids| - 1];
      DropChildExact(v, ids[..|ids| - 1], id);
      assert ids == ids[..|ids| - 1] + [k];
      if k in u {
        RemoveFirstExact(u[k].children, id);
      }
    }
  }

  /** Pruning removes exactly the edges at the id, at both of their ends. */
  lemma PrunedIsolates(v: Space, id: string)
    requires Mirrored(v) && Tidy(v)
    ensures Mirrored(Pruned(v, id)) && Tidy(Pruned(v, id)) && Pruned(v, id).Keys == v.Keys
    ensures forall a, b :: HasChild(Pruned(v, id), a, b) <==> HasChild(v, a, b) && a != id && b != id
  {
    if id in v {
      var v1 := DropParent(v, v[id].children, id);
      DropParentExact(v, v[id].children, id);
      var v2 := DropChild(v1, v1[id].parents, id);
      DropChildExact(v1, v1[id].parents, id);
      var w := Pruned(v, id);
      forall a, b
        ensures HasChild(w, a, b) <==> HasChild(v, a, b) && a != id && b != id
        ensures HasParent(w, b, a) <==> HasParent(v, b, a) && a != id && b != id
      {
        assert HasChild(v, a, b) <==> HasParent(v, b, a);
        assert HasChild(v1, a, b) <==> HasChild(v, a, b);
        assert HasParent(v1, id, a) <==> HasParent(v, id, a) && !(a == id && id in v[id].children);
        if a != id {
          assert HasChild(w, a, b) <==> HasChild(v2, a, b);
        }
        if b != id {
          assert HasParent(w, b, a) <==> HasParent(v2, b, a);
        }
      }
    } else {
      forall a, b | HasChild(v, a, b)
        ensures a != id && b != id
      {
        assert HasParent(v, b, a);
      }
    }
  }

  lemma PushedExact(edges: seq<string>, id: string)
    requires Distinct(edges)
    ensures Distinct(Pushed(edges, id)) && forall x :: x in Pushed(edges, id) <==> x in edges || x == id
  {
  }

  lemma CreatedMirrored(v: Space, key: string)
    requires Mirrored(v) && Tidy(v)
    ensures Mirrored(Created(v, key)) && Tidy(Created(v, key))
  {
    var w := Created(v, key);
    assert forall a, b :: HasChild(w, a, b) <==> HasChild(v, a, b);
    assert forall a, b :: HasParent(w, b, a) <==> HasParent(v, b, a);
  }

  lemma ChildPushed(v: Space, w: Space, a: string, b: string)
    requires Tidy(v) && a in v && w == v[a := v[a].(children := Pushed(v[a].children, b))]
    ensures Tidy(w) && w.Keys == v.Keys
    ensures forall x, y :: HasChild(w, x, y) <==> HasChild(v, x, y) || (x == a && y == b)
    ensures forall x, y :: HasParent(w, y, x) <==> HasParent(v, y, x)
  {
    PushedExact(v[a].children, b);
  }

  lemma ParentPushed(v: Space, w: Space, b: string, a: string)
    requires Tidy(v) && b in v && w == v[b := v[b].(parents := Pushed(v[b].parents, a))]
    ensures Tidy(w) && w.Keys == v.Keys
    ensures forall x, y :: HasChild(w, x, y) <==> HasChild(v, x, y)
    ensures forall x, y :: HasParent(w, y, x) <==> HasParent(v, y, x) || (x == a && y == b)
  {
    PushedExact(v[b].parents, a);
  }

  lemma RelatedMirrored(v: Space, parent: string, child: string)
    requires Mirrored(v) && Tidy(v)
    ensures Mirrored(Related(v, parent, child)) && Tidy(Related(v, parent, child))
  {
    var v1 := Created(Created(v, parent), child);
    CreatedMirrored(v, parent);
    CreatedMirrored(Created(v, parent), child);
    var v2 := v1[parent := v1[parent].(children := Pushed(v1[parent].children, child))];
    ChildPushed(v1, v2, parent, child);
    ParentPushed(v2, Related(v, parent, child), child, parent);
  }

  /** Expiring an id keeps both ends of every edge exactly if the id has no edge but to itself. */
  lemma ExpireMirroredIff(v: Space, key: string)
    requires Mirrored(v)
    ensures Mirrored(v - {key}) <==>
              (key in v ==> forall x :: x in v[key].children || x in v[key].parents ==> x == key)
  {
    var w := v - {key};
    if key in v {
      forall x | Mirrored(w) && (x in v[key].children || x in v[key].parents)
        ensures x == key
      {
        assert HasChild(v, key, x) <==> HasParent(v, x, key);
        assert HasChild(v, x, key) <==> HasParent(v, key, x);
        assert !HasChild(w, key, x) && !HasParent(w, key, x);
        assert HasChild(w, x, key) <==> HasParent(w, key, x);
        assert HasChild(w, key, x) <==> HasParent(w, x, key);
      }
      if forall x :: x in v[key].children || x in v[key].parents ==> x == key {
        forall a, b
          ensures HasChild(w, a, b) <==> HasParent(w, b, a)
        {
          assert HasChild(v, a, b) <==> HasParent(v, b, a);
        }
      }
    } else {
      assert w == v;
    }
  }

  /** In that order, pruning first, no end is ever lost; the sweep does it the other way round. */
  lemma PruneThenExpireMirrored(v: Space, key: string)
    requires Mirrored(v) && Tidy(v)
    ensures Mirrored(Apply(Apply(v, Prune(key)), Expire(key)))
    ensures Mirrored(Apply(Apply(v, Expire(key)), Prune(key))) <==>
              (key in v ==> forall x :: x in v[key].children || x in v[key].parents ==> x == key)
  {
    PrunedIsolates(v, key);
    ExpireMirroredIff(Pruned(v, key), key);
    ExpireMirroredIff(v, key);
  }

  /** The order of the sweep leaves an edge behind at one end only, which a new entry of the same id does not mirror. */
  lemma SweepOrderLeavesDanglingEdge()
    ensures !Mirrored(ApplyAll(map[], [Relate("a", "b"), Expire("b"), Prune("b"), Create("b")]))
  {
    var v := Related(map[], "a", "b");
    if Reaches(Children(map[]), "b", "a") {
      ClosedHolds(Children(map[]), {"b"}, "b", "a");
    }
    assert "a" != "b";
    assert v["a"].children == Pushed([], "b") == ["b"];
    var r, e, p, c := Relate("a", "b"), Expire("b"), Prune("b"), Create("b");
    assert ApplyAll(map[], [r]) == v;
    var u := v - {"b"};
    assert [r, e][..1] == [r] && [r, e, p][..2] == [r, e] && [r, e, p, c][..3] == [r, e, p];
    assert ApplyAll(map[], [r, e]) == u;
    assert ApplyAll(map[], [r, e, p]) == u;
    assert ApplyAll(map[], [r, e, p, c]) == Created(u, "b");
    assert HasChild(Created(u, "b"), "a", "b") && !HasParent(Created(u, "b"), "b", "a");
  }

  /** Over every run without expirations, every edge is recorded at both ends. */
  lemma {:induction false} MirroredUntilExpiry(ops: seq<Op>)
    requires forall op :: op in ops ==> !op.Expire?
    ensures Mirrored(ApplyAll(map[], ops)) && Tidy(ApplyAll(map[], ops))
  {
    if ops != [] {
      var last := ops[|ops| - 1];
      MirroredUntilExpiry(ops[..|ops| - 1]);
      var v := ApplyAll(map[], ops[..|ops| - 1]);
      assert last in ops;
      if last.Relate? {
        RelatedMirrored(v, last.parent, last.child);
      } else if last.Register? {
        RelatedMirrored(v, last.dependency, last.job);
      } else if last.Prune? {
        PrunedIsolates(v, last.key);
      } else {
        CreatedMirrored(v, last.key);
      }
    }
  }
}
