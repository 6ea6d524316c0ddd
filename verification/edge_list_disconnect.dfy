/** The `disconnect` of 190100036_190100044_190100055/disconnect.py (module
    globals `graph` and `vertices`) and of src/test_disconnect.py (the same
    two as instance fields, set by `find_minimal`).  Both run the path search
    on the edge list itself: the "neighbours" of u are the two endpoints of
    the u-th edge, not the vertices joined to u.  Both raise
    `Exception("Unsat")` when the cut formula has no model. */
module EdgeListDisconnect {
  import opened Outcome
  import opened PathSearch
  import opened CutClauses

  /** `graph[u]` read as a neighbour list: the pair of the u-th edge. */
  function EdgeRows(edges: seq<Edge>): seq<seq<nat>>
  {
    seq(|edges|, u requires 0 <= u < |edges| => [edges[u].0, edges[u].1])
  }

  /** The search of `printAllPaths(s, d)` over the edge rows, with a
      `visited` list of `vertices[-1] + 1` entries, reads no index out of
      range. */
  predicate SearchSucceeds(edges: seq<Edge>, vertices: seq<nat>, s: nat, d: nat)
  {
    vertices != [] && Extend(EdgeRows(edges), seq(vertices[|vertices| - 1] + 1, _ => false), s, d).Ok?
  }

  /** Deleting `chosen` breaks every simple path from s to t through
      `EdgeRows(edges)` whose vertices are at most `top`. */
  ghost predicate CutsRows(edges: seq<Edge>, top: nat, s: nat, t: nat, chosen: set<EdgeVar>)
  {
    forall w :: IsPath(EdgeRows(edges), w, s, t) && (forall k :: 0 <= k < |w| ==> w[k] <= top) ==> Hits(chosen, w)
  }

  /** `printAllPaths(s, d)` over the stored edge list and vertices:
      `visited` has `vertices[-1] + 1` entries, which raises `IndexError`
      when there are no vertices; the search raises it too when it reaches a
      vertex other than d that has no edge of its index, or an index beyond
      `visited`.  When every vertex up to `vertices[-1]` has an edge row
      whose endpoints are in range, the search fails exactly when s is out of
      range.  On success, exactly the simple paths from s to d through
      `EdgeRows(edges)` whose vertices are below that size. */
  method EdgePaths(edges: seq<Edge>, vertices: seq<nat>, s: nat, d: nat) returns (r: Result<seq<seq<nat>>>)
    ensures vertices == [] ==> r == Err(IndexError)
    ensures r.Err? ==> r == Err(IndexError)
    ensures r.Ok? <==> SearchSucceeds(edges, vertices, s, d)
    ensures vertices != [] && InRange(EdgeRows(edges), vertices[|vertices| - 1] + 1) ==>
              (r.Ok? <==> s <= vertices[|vertices| - 1])
    ensures vertices != [] && s == d && s <= vertices[|vertices| - 1] ==> r.Ok?
    ensures r.Ok? ==> vertices != [] && s <= vertices[|vertices| - 1]
    ensures r.Ok? ==> forall w :: w in r.value <==>
                        IsPath(EdgeRows(edges), w, s, d)
                        && forall k :: 0 <= k < |w| ==> w[k] <= vertices[|vertices| - 1]
  {
    if vertices == [] {
      return Err(IndexError);
    }
    var size := vertices[|vertices| - 1] + 1;
    if s == d && s < size {
      assert Extend(EdgeRows(edges), seq(size, _ => false), s, d) == Ok([[s]]);
    }
    r := AllPaths(EdgeRows(edges), size, s, d);
  }

  /** The part of `find_minimal` after the vertices are stored: record the
      paths, then count the true edge variables of the model or raise
      `Unsat`. */
  method CutSize(edges: seq<Edge>, vertices: seq<nat>, s: nat, t: nat, solve: seq<seq<EdgeVar>> -> Option<set<EdgeVar>>)
    returns (r: Result<nat>)
    requires forall f :: CnfAnswers(f, solve(f))
    ensures r.Err? ==> r.fault == IndexError || r.fault == Unsat
    ensures vertices == [] ==> r == Err(IndexError)
    ensures r == Err(IndexError) <==>
              !SearchSucceeds(edges, vertices, s, t)
    ensures vertices != [] && InRange(EdgeRows(edges), vertices[|vertices| - 1] + 1) ==>
              (r == Err(IndexError) <==> s > vertices[|vertices| - 1])
    ensures r == Err(Unsat) ==> s == t
    ensures vertices != [] && s == t && s <= vertices[|vertices| - 1] ==> r == Err(Unsat)
    ensures r.Ok? ==> s != t && vertices != []
    ensures r.Ok? ==> exists chosen :: |chosen| == r.value && CutsRows(edges, vertices[|vertices| - 1], s, t, chosen)
  {
    var found := EdgePaths(edges, vertices, s, t);
    if found.Err? {
      return Err(IndexError);
    }
    var paths := found.value;
    var top := vertices[|vertices| - 1];
    Ends(paths, edges, s, t, top);
    var answer := SolveCut(paths, s, t, solve);
    match answer {
      case None =>
        r := Err(Unsat);
      case Some(chosen) =>
        forall w | IsPath(EdgeRows(edges), w, s, t) && (forall k :: 0 <= k < |w| ==> w[k] <= top)
          ensures Hits(chosen, w)
        {
          var i :| 0 <= i < |paths| && paths[i] == w;
        }
        assert CutsRows(edges, top, s, t, chosen);
        r := Ok(|chosen|);
    }
  }

  /** The state both files keep between the two calls: the edge list and
      the sorted vertices. */
  class Disconnect {
    var graph: seq<Edge>
    var vertices: seq<nat>

    /** `disconnect()` (the class defines `__init` rather than `__init__`, so
        nothing is set), or the module globals as loaded: both empty. */
    constructor ()
      ensures graph == [] && vertices == []
    {
      graph, vertices := [], [];
    }

    /** `printAllPaths(s, d)` on the stored edge list and vertices. */
    method PrintAllPaths(s: nat, d: nat) returns (r: Result<seq<seq<nat>>>)
      ensures vertices == [] ==> r == Err(IndexError)
      ensures r.Err? ==> r == Err(IndexError)
      ensures r.Ok? <==> SearchSucceeds(graph, vertices, s, d)
      ensures vertices != [] && InRange(EdgeRows(graph), vertices[|vertices| - 1] + 1) ==>
                (r.Ok? <==> s <= vertices[|vertices| - 1])
      ensures r.Ok? ==> vertices != [] && forall w :: w in r.value <==>
                          IsPath(EdgeRows(graph), w, s, d)
                          && forall k :: 0 <= k < |w| ==> w[k] <= vertices[|vertices| - 1]
    {
      r := EdgePaths(graph, vertices, s, d);
    }

    /** `find_minimal(graph, s, t)` with `s.check()`/`s.model()` given as
        `solve`: store the edge list and its sorted vertices, then record the
        paths and count the true edge variables of the model, or raise
        `Unsat`.  A formula without a model comes exactly from s == t; a
        count is the size of an edge set that breaks every recorded path. */
    method FindMinimal(graph_: seq<Edge>, s: nat, t: nat, solve: seq<seq<EdgeVar>> -> Option<set<EdgeVar>>)
      returns (r: Result<nat>)
      requires forall f :: CnfAnswers(f, solve(f))
      modifies this
      ensures graph == graph_ && Increasing(vertices) && forall x :: x in vertices <==> x in Endpoints(graph_)
      ensures graph_ == [] <==> vertices == []
      ensures r.Err? ==> r.fault == IndexError || r.fault == Unsat
      ensures graph_ == [] ==> r == Err(IndexError)
      ensures r == Err(IndexError) <==>
                !SearchSucceeds(graph_, vertices, s, t)
      ensures vertices != [] && |graph_| > vertices[|vertices| - 1] ==>
                (r == Err(IndexError) <==> s > vertices[|vertices| - 1])
      ensures r == Err(Unsat) ==> s == t
      ensures graph_ != [] && s == t && s <= vertices[|vertices| - 1] ==> r == Err(Unsat)
      ensures r.Ok? ==> s != t && vertices != []
      ensures r.Ok? ==> exists chosen :: |chosen| == r.value && CutsRows(graph_, vertices[|vertices| - 1], s, t, chosen)
    {
      var vs;
      vs, r := StoreAndCut(graph_, s, t, solve);
      graph, vertices := graph_, vs;
    }
  }

  /** The body of `find_minimal(graph, s, t)`: the sorted endpoints it stores
      as `vertices`, and its result. */
  method StoreAndCut(graph_: seq<Edge>, s: nat, t: nat, solve: seq<seq<EdgeVar>> -> Option<set<EdgeVar>>)
    returns (vs: seq<nat>, r: Result<nat>)
    requires forall f :: CnfAnswers(f, solve(f))
    ensures Increasing(vs) && forall x :: x in vs <==> x in Endpoints(graph_)
    ensures graph_ == [] <==> vs == []
    ensures r.Err? ==> r.fault == IndexError || r.fault == Unsat
    ensures graph_ == [] ==> r == Err(IndexError)
    ensures r == Err(IndexError) <==>
              !SearchSucceeds(graph_, vs, s, t)
    ensures vs != [] && |graph_| > vs[|vs| - 1] ==> (r == Err(IndexError) <==> s > vs[|vs| - 1])
    ensures r == Err(Unsat) ==> s == t
    ensures graph_ != [] && s == t && s <= vs[|vs| - 1] ==> r == Err(Unsat)
    ensures r.Ok? ==> s != t && vs != []
    ensures r.Ok? ==> exists chosen :: |chosen| == r.value && CutsRows(graph_, vs[|vs| - 1], s, t, chosen)
  {
    vs := CollectVertices(graph_);
    if vs != [] && |graph_| > vs[|vs| - 1] {
      EdgeRowsInRange(graph_, vs);
    }
    r := CutSize(graph_, vs, s, t, solve);
  }

  /** When the edge list has a row for every vertex up to the largest
      endpoint, the rows never lead out of range. */
  lemma EdgeRowsInRange(edges: seq<Edge>, vs: seq<nat>)
    requires Increasing(vs) && forall x :: x in vs <==> x in Endpoints(edges)
    requires vs != [] && |edges| > vs[|vs| - 1]
    ensures InRange(EdgeRows(edges), vs[|vs| - 1] + 1)
  {
    LastIsLargest(edges, vs);
    var adj := EdgeRows(edges);
    forall a, b | 0 <= a < vs[|vs| - 1] + 1 && b in adj[a]
      ensures b < vs[|vs| - 1] + 1
    {
      assert edges[a] in edges;
    }
  }

  /** The recorded paths all run from s to t, and the one-vertex path is
      recorded when s == t. */
  lemma Ends(paths: seq<seq<nat>>, edges: seq<Edge>, s: nat, t: nat, top: nat)
    requires forall w :: w in paths <==> IsPath(EdgeRows(edges), w, s, t) && forall k :: 0 <= k < |w| ==> w[k] <= top
    ensures forall i :: 0 <= i < |paths| ==> |paths[i]| >= 1 && paths[i][0] == s && paths[i][|paths[i]| - 1] == t
    ensures s == t && s <= top ==> [s] in paths
  {
    forall i | 0 <= i < |paths|
      ensures |paths[i]| >= 1 && paths[i][0] == s && paths[i][|paths[i]| - 1] == t
    {
      assert paths[i] in paths;
    }
    if s == t && s <= top {
      assert IsPath(EdgeRows(edges), [s], s, t);
    }
  }

  /** The example graph of src/disconnect-harness.py. */
  const HarnessGraph: seq<Edge> := [(2, 5), (2, 3), (3, 4), (4, 5), (3, 5), (5, 6), (3, 6)]

  /** On the harness graph the edge-list search walks from 2 to 4 although
      no edge joins them (edge 2 is (3, 4)), and it cannot take the real
      path 2, 5, 6 (edge 2 does not contain 5): the search with the seven
      `visited` entries of `vertices[-1] + 1` records the first and misses
      the second. */
  lemma EdgeRowsMisreadsGraph()
    ensures IsPath(EdgeRows(HarnessGraph), [2, 4, 5, 6], 2, 6)
    ensures !EdgePath(HarnessGraph, [2, 4, 5, 6], 2, 6)
    ensures EdgePath(HarnessGraph, [2, 5, 6], 2, 6)
    ensures !IsPath(EdgeRows(HarnessGraph), [2, 5, 6], 2, 6)
    ensures Extend(EdgeRows(HarnessGraph), seq(7, _ => false), 2, 6).Ok?
    ensures [2, 4, 5, 6] in Extend(EdgeRows(HarnessGraph), seq(7, _ => false), 2, 6).value
    ensures [2, 5, 6] !in Extend(EdgeRows(HarnessGraph), seq(7, _ => false), 2, 6).value
  {
    var adj := EdgeRows(HarnessGraph);
    var vis: seq<bool> := seq(7, _ => false);
    forall a, b | 0 <= a < 7 && b in adj[a]
      ensures b < 7
    {
      assert HarnessGraph[a] in HarnessGraph;
    }
    assert InRange(adj, |vis|);
    ExtendTotal(adj, vis, 2, 6);
    assert adj[2] == [3, 4] && adj[4] == [3, 5] && adj[5] == [5, 6];
    var w := [2, 4, 5, 6];
    assert Adjacent(adj, w[0], w[1]) && Adjacent(adj, w[1], w[2]) && Adjacent(adj, w[2], w[3]);
    assert !Linked(HarnessGraph, w[0], w[1]);
    var v := [2, 5, 6];
    assert HarnessGraph[0] == (2, 5) && HarnessGraph[5] == (5, 6);
    assert Linked(HarnessGraph, v[0], v[1]) && Linked(HarnessGraph, v[1], v[2]);
    assert !Adjacent(adj, v[0], v[1]);
    assert Avoids(w, vis);
    ExtendComplete(adj, vis, 2, 6, w);
    if v in Extend(adj, vis, 2, 6).value {
      ExtendSound(adj, vis, 2, 6, v);
      assert false;
    }
  }
}
