/** What the three `find_minimal` variants share around the path search:
    the sorted vertex list, the formula with one clause per recorded path
    over edge variables `e_{a1}_{a2}` (a1 <= a2), and its meaning: a set of
    true edge variables satisfies the formula exactly when it hits every
    recorded path, that is, when deleting those edges cuts the paths. */
module CutClauses {
  import opened Outcome
  import opened PathSearch

  /** An input edge `(v1, v2)`. */
  type Edge = (nat, nat)

  /** The variable `e_{a1}_{a2}` of an edge, by its two endpoints in order. */
  type EdgeVar = (nat, nat)

  /** The set of endpoints of the edge list. */
  function Endpoints(edges: seq<Edge>): set<nat>
  {
    (set e | e in edges :: e.0) + (set e | e in edges :: e.1)
  }

  predicate Increasing(vs: seq<nat>)
  {
    forall i, j :: 0 <= i < j < |vs| ==> vs[i] < vs[j]
  }

  /** m is at most every element of s. */
  predicate LowerBound(m: nat, s: set<nat>)
  {
    forall y :: y in s ==> m <= y
  }

  /** A non-empty finite set of naturals has a least element. */
  lemma {:induction false} LeastExists(s: set<nat>)
    requires s != {}
    ensures exists m :: m in s && LowerBound(m, s)
    decreases |s|
  {
    var x :| x in s;
    if s == {x} {
      assert LowerBound(x, s);
    } else {
      var s' := s - {x};
      LeastExists(s');
      var m :| m in s' && LowerBound(m, s');
      var least := if x < m then x else m;
      forall y | y in s
        ensures least <= y
      {
        if y != x {
          assert y in s';
        }
      }
      assert least in s && LowerBound(least, s);
    }
  }

  /** `sorted(v)` for a set of vertices: the elements in increasing order. */
  method Sort(v: set<nat>) returns (vs: seq<nat>)
    ensures Increasing(vs) && forall x :: x in vs <==> x in v
    ensures |vs| == |v|
  {
    vs := [];
    var rest := v;
    while rest != {}
      invariant Increasing(vs) && |vs| + |rest| == |v|
      invariant forall x :: x in v <==> x in vs || x in rest
      invariant forall i, y :: 0 <= i < |vs| && y in rest ==> vs[i] < y
      decreases |rest|
    {
      LeastExists(rest);
      var m :| m in rest && LowerBound(m, rest);
      vs := vs + [m];
      rest := rest - {m};
    }
  }

  /** The vertex list of `find_minimal`: every endpoint added to a set, then
      `sorted`. */
  method CollectVertices(edges: seq<Edge>) returns (vs: seq<nat>)
    ensures Increasing(vs) && forall x :: x in vs <==> x in Endpoints(edges)
    ensures vs == [] <==> edges == []
  {
    var v: set<nat> := {};
    var i := 0;
    while i < |edges|
      invariant i <= |edges| && v == Endpoints(edges[..i])
    {
      assert edges[..i + 1] == edges[..i] + [edges[i]];
      v := v + {edges[i].0};
      v := v + {edges[i].1};
      i := i + 1;
    }
    assert edges[..i] == edges;
    if edges != [] {
      assert edges[0].0 in v;
    }
    vs := Sort(v);
  }

  /** The last of the sorted vertices is the largest endpoint, so
      `vertices[-1] + 1` entries cover every endpoint. */
  lemma LastIsLargest(edges: seq<Edge>, vs: seq<nat>)
    requires Increasing(vs) && forall x :: x in vs <==> x in Endpoints(edges)
    requires vs != []
    ensures forall e :: e in edges ==> e.0 <= vs[|vs| - 1] && e.1 <= vs[|vs| - 1]
  {
    forall e | e in edges
      ensures e.0 <= vs[|vs| - 1] && e.1 <= vs[|vs| - 1]
    {
      assert e.0 in Endpoints(edges) && e.1 in Endpoints(edges);
      var i :| 0 <= i < |vs| && vs[i] == e.0;
      var j :| 0 <= j < |vs| && vs[j] == e.1;
    }
  }

  /** The variable of the edge between a and b: `(min(a, b), max(a, b))`,
      so the direction of travel does not matter. */
  function EdgeName(a: nat, b: nat): (e: EdgeVar)
    ensures e.0 <= e.1 && {e.0, e.1} == {a, b}
  {
    if a <= b then (a, b) else (b, a)
  }

  /** The two orders of an edge's endpoints name the same variable. */
  lemma EdgeNameUndirected(a: nat, b: nat)
    ensures EdgeName(a, b) == EdgeName(b, a)
  {
    var e, f := EdgeName(a, b), EdgeName(b, a);
    assert {e.0, e.1} == {f.0, f.1};
    assert e.0 == f.0 by {
      assert e.0 in {f.0, f.1} && f.0 in {e.0, e.1};
    }
  }

  /** The clause of one path: the variable of each consecutive pair. */
  function PathClause(w: seq<nat>): (c: seq<EdgeVar>)
  {
    seq(if |w| == 0 then 0 else |w| - 1, j requires 0 <= j < |w| - 1 => EdgeName(w[j], w[j + 1]))
  }

  /** The loop of `find_minimal` building `all_edges`, one `Or(p)` per path. */
  method BuildClauses(paths: seq<seq<nat>>) returns (cnf: seq<seq<EdgeVar>>)
    ensures |cnf| == |paths| && forall i :: 0 <= i < |paths| ==> cnf[i] == PathClause(paths[i])
  {
    cnf := [];
    var i := 0;
    while i < |paths|
      invariant i <= |paths| && |cnf| == i
      invariant forall k :: 0 <= k < i ==> cnf[k] == PathClause(paths[k])
    {
      var p: seq<EdgeVar> := [];
      var j := 0;
      while j < |paths[i]| - 1
        invariant 0 <= j && (j <= |paths[i]| - 1 || j == 0) && |p| == j
        invariant forall m :: 0 <= m < j ==> p[m] == EdgeName(paths[i][m], paths[i][m + 1])
      {
        var a1 := if paths[i][j] <= paths[i][j + 1] then paths[i][j] else paths[i][j + 1];
        var a2 := if paths[i][j] <= paths[i][j + 1] then paths[i][j + 1] else paths[i][j];
        p := p + [(a1, a2)];
        j := j + 1;
      }
      cnf := cnf + [p];
      i := i + 1;
    }
  }

  /** `Or(p)`: some variable of the clause is true (an empty `Or` is false). */
  predicate ClauseHolds(chosen: set<EdgeVar>, clause: seq<EdgeVar>)
  {
    exists j :: 0 <= j < |clause| && clause[j] in chosen
  }

  /** `And(all_edges)`: every clause holds. */
  predicate Satisfies(chosen: set<EdgeVar>, cnf: seq<seq<EdgeVar>>)
  {
    forall i :: 0 <= i < |cnf| ==> ClauseHolds(chosen, cnf[i])
  }

  /** Some variable of the formula is e. */
  ghost predicate Mentions(cnf: seq<seq<EdgeVar>>, e: EdgeVar)
  {
    exists i, j :: 0 <= i < |cnf| && 0 <= j < |cnf[i]| && cnf[i][j] == e
  }

  /** What `s.check()` and `s.model()` may answer for the formula: the set
      of variables true in some model, or nothing when there is no model. */
  ghost predicate CnfAnswers(cnf: seq<seq<EdgeVar>>, answer: Option<set<EdgeVar>>)
  {
    match answer
    case Some(c) => Satisfies(c, cnf) && forall e :: e in c ==> Mentions(cnf, e)
    case None => forall c: set<EdgeVar> :: !Satisfies(c, cnf)
  }

  /** Deleting the edges of `chosen` breaks the path w. */
  predicate Hits(chosen: set<EdgeVar>, w: seq<nat>)
  {
    exists j :: 0 <= j < |w| - 1 && EdgeName(w[j], w[j + 1]) in chosen
  }

  /** The formula says: every recorded path loses an edge. */
  lemma ClausesMeaning(paths: seq<seq<nat>>, cnf: seq<seq<EdgeVar>>, chosen: set<EdgeVar>)
    requires |cnf| == |paths| && forall i :: 0 <= i < |paths| ==> cnf[i] == PathClause(paths[i])
    ensures Satisfies(chosen, cnf) <==> forall i :: 0 <= i < |paths| ==> Hits(chosen, paths[i])
  {
    if Satisfies(chosen, cnf) {
      forall i | 0 <= i < |paths|
        ensures Hits(chosen, paths[i])
      {
        var j :| 0 <= j < |cnf[i]| && cnf[i][j] in chosen;
        assert EdgeName(paths[i][j], paths[i][j + 1]) in chosen;
      }
    }
    if forall i :: 0 <= i < |paths| ==> Hits(chosen, paths[i]) {
      forall i | 0 <= i < |cnf|
        ensures ClauseHolds(chosen, cnf[i])
      {
        assert Hits(chosen, paths[i]);
        var j :| 0 <= j < |paths[i]| - 1 && EdgeName(paths[i][j], paths[i][j + 1]) in chosen;
        assert cnf[i][j] in chosen;
      }
    }
  }

  /** Every variable mentioned, in a set. */
  function AllVars(cnf: seq<seq<EdgeVar>>): (c: set<EdgeVar>)
    ensures forall i, j :: 0 <= i < |cnf| && 0 <= j < |cnf[i]| ==> cnf[i][j] in c
  {
    set i, j | 0 <= i < |cnf| && 0 <= j < |cnf[i]| :: cnf[i][j]
  }

  /** The formula has a model exactly when no clause is empty. */
  lemma SatisfiableIffNoEmptyClause(cnf: seq<seq<EdgeVar>>)
    ensures (exists c: set<EdgeVar> :: Satisfies(c, cnf)) <==> forall i :: 0 <= i < |cnf| ==> cnf[i] != []
  {
    if forall i :: 0 <= i < |cnf| ==> cnf[i] != [] {
      var c := AllVars(cnf);
      forall i | 0 <= i < |cnf|
        ensures ClauseHolds(c, cnf[i])
      {
        assert cnf[i][0] in c;
      }
      assert Satisfies(c, cnf);
    }
  }

  /** The clause of a path is empty exactly when the path is a single vertex. */
  lemma EmptyClauseIffSingleVertex(w: seq<nat>)
    requires |w| >= 1
    ensures PathClause(w) == [] <==> |w| == 1
  {
    if |w| > 1 {
      assert |PathClause(w)| == |w| - 1;
    }
  }

  /** a and b are the two ends of an input edge, in either order. */
  predicate Linked(edges: seq<Edge>, a: nat, b: nat)
  {
    (a, b) in edges || (b, a) in edges
  }

  /** w is a simple path from u to d in the undirected graph of the edge list. */
  predicate EdgePath(edges: seq<Edge>, w: seq<nat>, u: nat, d: nat)
  {
    && |w| >= 1 && w[0] == u && w[|w| - 1] == d
    && (forall k :: 0 <= k < |w| - 1 ==> Linked(edges, w[k], w[k + 1]))
    && Distinct(w)
  }

  /** A path with at least one edge visits only endpoints of the edge list. */
  lemma EdgePathVertices(edges: seq<Edge>, w: seq<nat>, u: nat, d: nat)
    requires EdgePath(edges, w, u, d) && |w| >= 2
    ensures forall k :: 0 <= k < |w| ==> w[k] in Endpoints(edges)
  {
    forall k | 0 <= k < |w|
      ensures w[k] in Endpoints(edges)
    {
      var j := if k < |w| - 1 then k else k - 1;
      assert Linked(edges, w[j], w[j + 1]);
      if (w[j], w[j + 1]) in edges {
        var e := (w[j], w[j + 1]);
        assert e.0 in Endpoints(edges) && e.1 in Endpoints(edges);
      } else {
        var e := (w[j + 1], w[j]);
        assert e.0 in Endpoints(edges) && e.1 in Endpoints(edges);
      }
    }
  }

  /** When every recorded path runs from s to t and the one-vertex path is
      recorded whenever s == t, the formula has a model exactly when
      s != t. */
  lemma SatisfiableIffDistinctEnds(paths: seq<seq<nat>>, cnf: seq<seq<EdgeVar>>, s: nat, t: nat)
    requires |cnf| == |paths| && forall i :: 0 <= i < |paths| ==> cnf[i] == PathClause(paths[i])
    requires forall i :: 0 <= i < |paths| ==> |paths[i]| >= 1 && paths[i][0] == s && paths[i][|paths[i]| - 1] == t
    requires s == t ==> [s] in paths
    ensures (exists c: set<EdgeVar> :: Satisfies(c, cnf)) <==> s != t
  {
    SatisfiableIffNoEmptyClause(cnf);
    if s == t {
      var i :| 0 <= i < |paths| && paths[i] == [s];
      EmptyClauseIffSingleVertex(paths[i]);
    } else {
      forall i | 0 <= i < |cnf|
        ensures cnf[i] != []
      {
        EmptyClauseIffSingleVertex(paths[i]);
      }
    }
  }

  /** The tail of `find_minimal`: build `And(all_edges)` from the recorded
      paths, add it to a fresh solver and ask for a model (`solve` stands
      for `s.check()` and `s.model()`).  There is no model exactly when
      s == t; a model's true variables break every recorded path. */
  method SolveCut(paths: seq<seq<nat>>, s: nat, t: nat, solve: seq<seq<EdgeVar>> -> Option<set<EdgeVar>>)
    returns (answer: Option<set<EdgeVar>>)
    requires forall f :: CnfAnswers(f, solve(f))
    requires forall i :: 0 <= i < |paths| ==> |paths[i]| >= 1 && paths[i][0] == s && paths[i][|paths[i]| - 1] == t
    requires s == t ==> [s] in paths
    ensures answer.None? <==> s == t
    ensures answer.Some? ==> forall i :: 0 <= i < |paths| ==> Hits(answer.value, paths[i])
  {
    var cnf := BuildClauses(paths);
    SatisfiableIffDistinctEnds(paths, cnf, s, t);
    answer := solve(cnf);
    if answer.Some? {
      ClausesMeaning(paths, cnf, answer.value);
    }
  }
}
