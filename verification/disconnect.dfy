/** src/disconnect.py: `disconnect_try` builds the vertex list and a
    symmetric adjacency list of sets from the edge list, runs the path search
    over it, and `find_minimal` turns the recorded paths into the cut
    formula.  It returns the number of true edge variables of the solver's
    model, or the string "unsat". */
module Disconnect {
  import opened Outcome
  import opened PathSearch
  import opened CutClauses

  /** The neighbours of v: the other end of every input edge at v. */
  function Neighbours(edges: seq<Edge>, v: nat): set<nat>
  {
    (set e | e in edges && e.0 == v :: e.1) + (set e | e in edges && e.1 == v :: e.0)
  }

  /** b is a neighbour of a exactly when (a, b) or (b, a) is an input edge,
      so the relation is symmetric and holds nothing else. */
  lemma NeighboursMeaning(edges: seq<Edge>, a: nat, b: nat)
    ensures b in Neighbours(edges, a) <==> Linked(edges, a, b)
    ensures b in Neighbours(edges, a) <==> a in Neighbours(edges, b)
  {
    if (a, b) in edges {
      var e := (a, b);
      assert e.0 == a && e.1 == b;
    }
    if (b, a) in edges {
      var e := (b, a);
      assert e.1 == a && e.0 == b;
    }
  }

  /** Neighbours over one more edge. */
  lemma NeighboursStep(edges: seq<Edge>, i: nat, v: nat)
    requires i < |edges|
    ensures Neighbours(edges[..i + 1], v)
         == Neighbours(edges[..i], v)
            + (if edges[i].0 == v then {edges[i].1} else {})
            + (if edges[i].1 == v then {edges[i].0} else {})
  {
    assert edges[..i + 1] == edges[..i] + [edges[i]];
  }

  /** The loop of `__init__` filling `self.graph`: for each edge (a, b),
      `graph[a].add(b)` and then `graph[b].add(a)`. */
  method BuildAdjacency(edges: seq<Edge>, size: nat) returns (g: seq<set<nat>>)
    requires forall e :: e in edges ==> e.0 < size && e.1 < size
    ensures |g| == size && forall v :: 0 <= v < size ==> g[v] == Neighbours(edges, v)
  {
    g := seq(size, _ => {});
    var i := 0;
    while i < |edges|
      invariant i <= |edges| && |g| == size
      invariant forall v :: 0 <= v < size ==> g[v] == Neighbours(edges[..i], v)
    {
      var a, b := edges[i].0, edges[i].1;
      assert edges[i] in edges;
      forall v | 0 <= v < size
        ensures Neighbours(edges[..i + 1], v)
             == Neighbours(edges[..i], v) + (if a == v then {b} else {}) + (if b == v then {a} else {})
      {
        NeighboursStep(edges, i, v);
      }
      g := g[a := g[a] + {b}];
      g := g[b := g[b] + {a}];
      i := i + 1;
    }
    assert edges[..i] == edges;
  }

  /** Iterating over a Python set: its elements once each, in an order the
      model does not fix. */
  method Enumerate(s: set<nat>) returns (xs: seq<nat>)
    ensures Distinct(xs) && forall x :: x in xs <==> x in s
  {
    xs := [];
    var rest := s;
    while rest != {}
      invariant Distinct(xs)
      invariant forall x :: x in s <==> x in xs || x in rest
      invariant forall x :: x in xs ==> x !in rest
      decreases |rest|
    {
      var x :| x in rest;
      xs := xs + [x];
      rest := rest - {x};
    }
  }

  /** The adjacency sets in the order the search iterates over them. */
  method Listing(g: seq<set<nat>>) returns (adj: seq<seq<nat>>)
    ensures |adj| == |g|
    ensures forall v :: 0 <= v < |g| ==> Distinct(adj[v]) && forall x :: x in adj[v] <==> x in g[v]
  {
    adj := [];
    var v := 0;
    while v < |g|
      invariant v <= |g| && |adj| == v
      invariant forall u :: 0 <= u < v ==> Distinct(adj[u]) && forall x :: x in adj[u] <==> x in g[u]
    {
      var xs := Enumerate(g[v]);
      adj := adj + [xs];
      v := v + 1;
    }
  }

  /** `disconnect_try`: the sorted vertices and the adjacency sets. */
  class DisconnectTry {
    var vertices: seq<nat>
    var graph: seq<set<nat>>

    /** The adjacency has an entry for every vertex up to the largest, and
        every neighbour is one of them. */
    ghost predicate Valid()
      reads this
    {
      && vertices != [] && Increasing(vertices)
      && |graph| == vertices[|vertices| - 1] + 1
      && forall a, b :: 0 <= a < |graph| && b in graph[a] ==> b < |graph|
    }

    /** `__init__(graph)` on a non-empty edge list (`Create` handles the
        empty one). */
    constructor (edges: seq<Edge>)
      requires edges != []
      ensures Valid()
      ensures forall x :: x in vertices <==> x in Endpoints(edges)
      ensures forall v :: 0 <= v < |graph| ==> graph[v] == Neighbours(edges, v)
    {
      var vs := CollectVertices(edges);
      assert edges[0].0 in Endpoints(edges);
      LastIsLargest(edges, vs);
      var size := vs[|vs| - 1] + 1;
      var g := BuildAdjacency(edges, size);
      forall a, b | 0 <= a < size && b in g[a]
        ensures b < size
      {
        NeighboursMeaning(edges, a, b);
        if (a, b) in edges {
          assert (a, b).1 == b;
        } else {
          assert (b, a) in edges && (b, a).0 == b;
        }
      }
      vertices, graph := vs, g;
    }

    /** `printAllPaths(s, d)`: on success, exactly the simple paths from s
        to d through the adjacency sets; the only failure is a start vertex
        beyond the largest vertex. */
    method PrintAllPaths(s: nat, d: nat) returns (r: Result<seq<seq<nat>>>)
      requires Valid()
      ensures r.Err? <==> s >= |graph|
      ensures r.Err? ==> r == Err(IndexError)
      ensures r.Ok? ==> forall w :: w in r.value <==>
                          SetPath(graph, w, s, d) && forall k :: 0 <= k < |w| ==> w[k] < |graph|
    {
      var adj := Listing(graph);
      forall a, b | 0 <= a < |graph| && b in adj[a]
        ensures b < |graph|
      {
        assert b in graph[a];
      }
      assert InRange(adj, |graph|);
      r := AllPaths(adj, |graph|, s, d);
      if r.Ok? {
        forall w
          ensures IsPath(adj, w, s, d) <==> SetPath(graph, w, s, d)
        {
          ListingSetPath(graph, adj, w, s, d);
        }
      }
    }
  }

  /** w is a simple path from u to d through adjacency sets. */
  predicate SetPath(g: seq<set<nat>>, w: seq<nat>, u: nat, d: nat)
  {
    && |w| >= 1 && w[0] == u && w[|w| - 1] == d
    && (forall k :: 0 <= k < |w| - 1 ==> w[k] < |g| && w[k + 1] in g[w[k]])
    && Distinct(w)
  }

  lemma ListingSetPath(g: seq<set<nat>>, adj: seq<seq<nat>>, w: seq<nat>, u: nat, d: nat)
    requires |adj| == |g| && forall v :: 0 <= v < |g| ==> forall x :: x in adj[v] <==> x in g[v]
    ensures IsPath(adj, w, u, d) <==> SetPath(g, w, u, d)
  {
    if IsPath(adj, w, u, d) {
      forall k | 0 <= k < |w| - 1
        ensures w[k] < |g| && w[k + 1] in g[w[k]]
      {
        assert Adjacent(adj, w[k], w[k + 1]);
      }
    }
    if SetPath(g, w, u, d) {
      forall k | 0 <= k < |w| - 1
        ensures Adjacent(adj, w[k], w[k + 1])
      {
        assert w[k] < |g| && w[k + 1] in g[w[k]];
      }
    }
  }

  /** `disconnect_try(graph)`: `vertices[-1]` raises `IndexError` on an
      empty edge list. */
  method Create(edges: seq<Edge>) returns (r: Result<DisconnectTry>)
    ensures r.Err? <==> edges == []
    ensures r.Err? ==> r == Err(IndexError)
    ensures r.Ok? ==> fresh(r.value) && r.value.Valid()
    ensures r.Ok? ==> forall x :: x in r.value.vertices <==> x in Endpoints(edges)
    ensures r.Ok? ==> forall v :: 0 <= v < |r.value.graph| ==> r.value.graph[v] == Neighbours(edges, v)
  {
    if edges == [] {
      return Err(IndexError);
    }
    var q := new DisconnectTry(edges);
    r := Ok(q);
  }

  /** What `find_minimal` returns: the count of true edge variables, or
      the string "unsat". */
  datatype Verdict = Count(n: nat) | UnsatText

  /** Deleting `chosen` leaves no simple path from s to t in the graph of
      the edge list. */
  ghost predicate Cuts(edges: seq<Edge>, s: nat, t: nat, chosen: set<EdgeVar>)
  {
    forall w :: EdgePath(edges, w, s, t) ==> Hits(chosen, w)
  }

  /** The first two lines of `find_minimal`: build `disconnect_try(graph)`
      and call `printAllPaths(s, t)` on it.  On success the recorded paths
      are exactly the simple paths from s to t of the edge list's graph. */
  method PathsOf(edges: seq<Edge>, s: nat, t: nat) returns (r: Result<seq<seq<nat>>>)
    ensures r.Err? ==> r == Err(IndexError)
    ensures r.Err? <==> edges == [] || forall x :: x in Endpoints(edges) ==> x < s
    ensures r.Ok? ==> forall w :: w in r.value <==> EdgePath(edges, w, s, t)
    ensures r.Ok? ==> s == t ==> [s] in r.value
    ensures r.Ok? ==> forall i :: 0 <= i < |r.value| ==>
                        |r.value[i]| >= 1 && r.value[i][0] == s && r.value[i][|r.value[i]| - 1] == t
  {
    var made := Create(edges);
    if made.Err? {
      return Err(IndexError);
    }
    var q := made.value;
    var vs := q.vertices;
    LastIsLargest(edges, vs);
    assert vs[|vs| - 1] in Endpoints(edges);
    r := q.PrintAllPaths(s, t);
    if r.Err? {
      forall x | x in Endpoints(edges)
        ensures x < s
      {
        var i :| 0 <= i < |vs| && vs[i] == x;
      }
      return;
    }
    PathsOfGraph(edges, q.graph, r.value, s, t);
  }

  /** `find_minimal(graph, s, t)`, with `s.check()`/`s.model()` given as
      `solve`.  "unsat" exactly when s == t (the one-vertex path gives an
      empty clause); otherwise the count is the size of a set of edges whose
      deletion cuts every path from s to t. */
  method FindMinimal(edges: seq<Edge>, s: nat, t: nat, solve: seq<seq<EdgeVar>> -> Option<set<EdgeVar>>)
    returns (r: Result<Verdict>)
    requires forall f :: CnfAnswers(f, solve(f))
    ensures r.Err? ==> r == Err(IndexError)
    ensures r.Err? <==> edges == [] || forall x :: x in Endpoints(edges) ==> x < s
    ensures r.Ok? ==> (r.value == UnsatText <==> s == t)
    ensures r.Ok? && r.value.Count? ==> exists chosen :: |chosen| == r.value.n && Cuts(edges, s, t, chosen)
  {
    var found := PathsOf(edges, s, t);
    if found.Err? {
      return Err(IndexError);
    }
    var paths := found.value;
    var answer := SolveCut(paths, s, t, solve);
    match answer {
      case None =>
        r := Ok(UnsatText);
      case Some(chosen) =>
        forall w | EdgePath(edges, w, s, t)
          ensures Hits(chosen, w)
        {
          var i :| 0 <= i < |paths| && paths[i] == w;
        }
        assert Cuts(edges, s, t, chosen);
        r := Ok(Count(|chosen|));
    }
  }

  /** The recorded paths are the simple paths from s to t of the edge
      list's graph. */
  lemma PathsOfGraph(edges: seq<Edge>, g: seq<set<nat>>, paths: seq<seq<nat>>, s: nat, t: nat)
    requires s < |g|
    requires forall x :: x in Endpoints(edges) ==> x < |g|
    requires forall v :: 0 <= v < |g| ==> g[v] == Neighbours(edges, v)
    requires forall w :: w in paths <==> SetPath(g, w, s, t) && forall k :: 0 <= k < |w| ==> w[k] < |g|
    ensures forall w :: w in paths <==> EdgePath(edges, w, s, t)
    ensures forall i :: 0 <= i < |paths| ==> |paths[i]| >= 1 && paths[i][0] == s && paths[i][|paths[i]| - 1] == t
    ensures s == t ==> [s] in paths
  {
    forall w
      ensures w in paths <==> EdgePath(edges, w, s, t)
    {
      SetEdgePath(edges, g, w, s, t);
    }
    forall i | 0 <= i < |paths|
      ensures |paths[i]| >= 1 && paths[i][0] == s && paths[i][|paths[i]| - 1] == t
    {
      assert paths[i] in paths;
    }
    if s == t {
      assert SetPath(g, [s], s, t);
    }
  }

  /** Through adjacency sets built from the edge list, the simple paths
      that stay below the size of the list are the simple paths of the
      edge list's graph, once the start is a vertex below that size. */
  lemma SetEdgePath(edges: seq<Edge>, g: seq<set<nat>>, w: seq<nat>, s: nat, t: nat)
    requires s < |g|
    requires forall x :: x in Endpoints(edges) ==> x < |g|
    requires forall v :: 0 <= v < |g| ==> g[v] == Neighbours(edges, v)
    ensures (SetPath(g, w, s, t) && forall k :: 0 <= k < |w| ==> w[k] < |g|) <==> EdgePath(edges, w, s, t)
  {
    forall k | 0 <= k < |w| - 1
      ensures (w[k] < |g| && w[k + 1] in g[w[k]]) <==> Linked(edges, w[k], w[k + 1])
    {
      NeighboursMeaning(edges, w[k], w[k + 1]);
      if Linked(edges, w[k], w[k + 1]) {
        var e := if (w[k], w[k + 1]) in edges then (w[k], w[k + 1]) else (w[k + 1], w[k]);
        assert e in edges && e.0 in Endpoints(edges) && e.1 in Endpoints(edges);
      }
    }
    if EdgePath(edges, w, s, t) && |w| >= 2 {
      EdgePathVertices(edges, w, s, t);
    }
  }
}
