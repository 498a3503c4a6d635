/** Directed graphs as adjacency lists: reachability, cycles, and what one more edge does. */
module DependencyGraph {

  type Graph<T> = map<T, seq<T>>

  ghost predicate Edge<T>(g: Graph<T>, a: T, b: T) {
    a in g && b in g[a]
  }

  /** Consecutive members of p are joined by edges. */
  ghost predicate Path<T>(g: Graph<T>, p: seq<T>) {
    |p| >= 1 && forall i :: 0 <= i < |p| - 1 ==> Edge(g, p[i], p[i + 1])
  }

  ghost predicate PathBetween<T>(g: Graph<T>, p: seq<T>, a: T, b: T) {
    Path(g, p) && p[0] == a && p[|p| - 1] == b
  }

  /** There is a path, perhaps of no edge at all, from a to b. */
  ghost predicate Reaches<T(!new)>(g: Graph<T>, a: T, b: T) {
    exists p :: PathBetween(g, p, a, b)
  }

  ghost predicate Cycle<T>(g: Graph<T>, p: seq<T>) {
    |p| >= 2 && Path(g, p) && p[0] == p[|p| - 1]
  }

  ghost predicate Acyclic<T(!new)>(g: Graph<T>) {
    forall p :: !Cycle(g, p)
  }

  ghost predicate Subgraph<T(!new)>(g: Graph<T>, h: Graph<T>) {
    forall a, b :: Edge(g, a, b) ==> Edge(h, a, b)
  }

  /** h is g with the edge from a to b, new or not. */
  ghost predicate AddsEdge<T(!new)>(g: Graph<T>, h: Graph<T>, a: T, b: T) {
    forall x, y :: Edge(h, x, y) <==> Edge(g, x, y) || (x == a && y == b)
  }

  /** Removing edges creates no cycle. */
  lemma SubgraphAcyclic<T(!new)>(g: Graph<T>, h: Graph<T>)
    requires Subgraph(g, h) && Acyclic(h)
    ensures Acyclic(g)
  {
    forall p | Cycle(g, p)
      ensures Cycle(h, p)
    {
    }
  }

  /** A path of h from b that ends in a, and leaves a nowhere before, uses no edge out of a. */
  lemma {:induction false} FirstArrival<T(!new)>(g: Graph<T>, h: Graph<T>, a: T, b: T, p: seq<T>)
    requires AddsEdge(g, h, a, b) && PathBetween(h, p, b, a)
    ensures Reaches(g, b, a)
    decreases |p|
  {
    if m :| 0 <= m < |p| - 1 && p[m] == a {
      assert PathBetween(h, p[..m + 1], b, a);
      FirstArrival(g, h, a, b, p[..m + 1]);
    } else {
      forall i | 0 <= i < |p| - 1
        ensures Edge(g, p[i], p[i + 1])
      {
        assert Edge(h, p[i], p[i + 1]);
      }
      assert PathBetween(g, p, b, a);
    }
  }

  /** A cycle that uses the edge from a to b, read from that edge on, is a path back from b to a. */
  lemma Unroll<T>(h: Graph<T>, p: seq<T>, i: nat) returns (q: seq<T>)
    requires Cycle(h, p) && i + 1 < |p|
    ensures PathBetween(h, q, p[i + 1], p[i])
  {
    var n := |p| - 1;
    q := p[i + 1..] + p[1..i + 1];
    forall k | 0 <= k < |q| - 1
      ensures Edge(h, q[k], q[k + 1])
    {
      var j := if i + 1 + k < n then i + 1 + k else i + 1 + k - n;
      assert q[k] == p[j] && q[k + 1] == p[j + 1];
    }
  }

  /** One more edge keeps a graph acyclic exactly if its end does not already lead to its start. */
  lemma AddEdgeAcyclicIff<T(!new)>(g: Graph<T>, h: Graph<T>, a: T, b: T)
    requires AddsEdge(g, h, a, b)
    ensures Acyclic(h) <==> Acyclic(g) && !Reaches(g, b, a)
  {
    if Reaches(g, b, a) {
      var p :| PathBetween(g, p, b, a);
      var q := [a] + p;
      forall i | 0 <= i < |q| - 1
        ensures Edge(h, q[i], q[i + 1])
      {
        if i > 0 {
          assert Edge(g, p[i - 1], p[i]);
        }
      }
      assert Cycle(h, q);
    }
    if Acyclic(h) {
      SubgraphAcyclic(g, h);
    }
    if Acyclic(g) && !Reaches(g, b, a) {
      forall p | Cycle(h, p)
        ensures false
      {
        assert !Cycle(g, p);
        var i :| 0 <= i < |p| - 1 && !Edge(g, p[i], p[i + 1]);
        assert Edge(h, p[i], p[i + 1]);
        var q := Unroll(h, p, i);
        FirstArrival(g, h, a, b, q);
      }
    }
  }

  lemma ReachesSelf<T(!new)>(g: Graph<T>, a: T)
    ensures Reaches(g, a, a)
  {
    assert PathBetween(g, [a], a, a);
  }

  lemma ReachesFurther<T(!new)>(g: Graph<T>, a: T, b: T, c: T)
    requires Reaches(g, a, b) && Edge(g, b, c)
    ensures Reaches(g, a, c)
  {
    var p :| PathBetween(g, p, a, b);
    assert PathBetween(g, p + [c], a, c);
  }

  /** A set that edges never leave holds everything that its members reach. */
  lemma ClosedHolds<T(!new)>(g: Graph<T>, s: set<T>, a: T, b: T)
    requires a in s && (forall x, y :: x in s && Edge(g, x, y) ==> y in s)
    requires Reaches(g, a, b)
    ensures b in s
  {
    var p :| PathBetween(g, p, a, b);
    var i := 0;
    while i < |p| - 1
      invariant 0 <= i < |p| && p[i] in s
    {
      assert Edge(g, p[i], p[i + 1]);
      i := i + 1;
    }
  }

  /** What a search from a knows: it reached all it has seen, and only seen ids lie behind visited ones. */
  ghost predicate Searched<T(!new)>(g: Graph<T>, a: T, visited: set<T>, stack: seq<T>) {
    && (a in visited || a in stack)
    && (forall x :: x in visited || x in stack ==> Reaches(g, a, x))
    && (forall x, y :: x in visited && Edge(g, x, y) ==> y in visited || y in stack)
  }

  /** Taking the top of the stack: a visited id is dropped, any other is visited and its successors stacked. */
  lemma SearchStep<T(!new)>(g: Graph<T>, a: T, visited: set<T>, stack: seq<T>)
    requires Searched(g, a, visited, stack) && stack != []
    ensures var x, rest := stack[|stack| - 1], stack[..|stack| - 1];
            && (x in visited ==> Searched(g, a, visited, rest))
            && (x !in visited ==> Searched(g, a, visited + {x}, rest + if x in g then g[x] else []))
  {
    var x, rest := stack[|stack| - 1], stack[..|stack| - 1];
    assert stack == rest + [x];
    if x !in visited && x in g {
      forall y | y in g[x]
        ensures Reaches(g, a, y)
      {
        ReachesFurther(g, a, x, y);
      }
    }
  }

  /** A search that ran out of stack has visited exactly what can be reached. */
  lemma SearchDone<T(!new)>(g: Graph<T>, a: T, visited: set<T>)
    requires Searched(g, a, visited, [])
    ensures forall b :: b in visited <==> Reaches(g, a, b)
  {
    forall b | Reaches(g, a, b)
      ensures b in visited
    {
      ClosedHolds(g, visited, a, b);
    }
  }

  /** Every id that occurs in the graph. */
  ghost function Universe<T>(g: Graph<T>): set<T> {
    g.Keys + set k, y | k in g && y in g[k] :: y
  }
}
