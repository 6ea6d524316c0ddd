/** The backtracking search for all simple paths shared by the three
    `disconnect` variants (`printAllPathsUtil` and `printAllPaths`).  The
    graph is a list of neighbour lists indexed by vertex; `visited` is a
    Boolean array indexed by vertex.  The search marks a vertex, extends the
    current path, records a copy of the path on reaching the destination,
    recurses into every unvisited neighbour in list order, and then undoes
    both changes.  Python's `IndexError` on an out-of-range index is an error
    outcome; it abandons the search without undoing anything. */
module PathSearch {
  import opened Outcome

  /** The number of unvisited vertices: what a recursive call reduces. */
  function Unvisited(vis: seq<bool>): nat
  {
    if vis == [] then 0 else Unvisited(vis[..|vis| - 1]) + (if vis[|vis| - 1] then 0 else 1)
  }

  /** Marking an unvisited vertex leaves one fewer unvisited vertex. */
  lemma {:induction false} MarkDecreases(vis: seq<bool>, u: nat)
    requires u < |vis| && !vis[u]
    ensures Unvisited(vis[u := true]) == Unvisited(vis) - 1
    decreases |vis|
  {
    var last := |vis| - 1;
    if u == last {
      assert vis[u := true][..last] == vis[..last];
    } else {
      assert vis[u := true][..last] == vis[..last][u := true];
      MarkDecreases(vis[..last], u);
    }
  }

  /** Every path of `ws` with `p` put in front. */
  function Prefixed(p: seq<nat>, ws: seq<seq<nat>>): seq<seq<nat>>
  {
    seq(|ws|, k requires 0 <= k < |ws| => p + ws[k])
  }

  lemma PrefixedAppend(p: seq<nat>, a: seq<seq<nat>>, b: seq<seq<nat>>)
    ensures Prefixed(p, a + b) == Prefixed(p, a) + Prefixed(p, b)
  {
  }

  lemma PrefixedNest(p: seq<nat>, q: seq<nat>, ws: seq<seq<nat>>)
    ensures Prefixed(p, Prefixed(q, ws)) == Prefixed(p + q, ws)
  {
    forall k | 0 <= k < |ws| ensures p + (q + ws[k]) == (p + q) + ws[k] {
    }
  }

  /** The paths the search records from `u` on, each starting with `u`, when
      the vertices marked in `vis` are off limits; or the `IndexError` the
      search runs into first. */
  function Extend(adj: seq<seq<nat>>, vis: seq<bool>, u: nat, d: nat): Result<seq<seq<nat>>>
    requires u < |vis| ==> !vis[u]
    decreases Unvisited(vis), 0, 0
  {
    if u >= |vis| then Err(IndexError)
    else if u == d then Ok([[u]])
    else if u >= |adj| then Err(IndexError)
    else
      MarkDecreases(vis, u);
      match Branches(adj, vis[u := true], adj[u], d)
      case Err(f) => Err(f)
      case Ok(ws) => Ok(Prefixed([u], ws))
  }

  /** The paths recorded by the recursive calls for the neighbours `ns`, in
      order; a neighbour already marked in `vis` is skipped. */
  function Branches(adj: seq<seq<nat>>, vis: seq<bool>, ns: seq<nat>, d: nat): Result<seq<seq<nat>>>
    decreases Unvisited(vis), 1, |ns|
  {
    if ns == [] then Ok([])
    else
      match Branches(adj, vis, ns[..|ns| - 1], d)
      case Err(f) => Err(f)
      case Ok(ws) =>
        var i := ns[|ns| - 1];
        if i >= |vis| then Err(IndexError)
        else if vis[i] then Ok(ws)
        else
          match Extend(adj, vis, i, d)
          case Err(f) => Err(f)
          case Ok(vs) => Ok(ws + vs)
  }

  /** Once a prefix of the neighbour list fails, the whole list fails. */
  lemma {:induction false} BranchesErrPersists(adj: seq<seq<nat>>, vis: seq<bool>, ns: seq<nat>, j: nat, d: nat)
    requires j <= |ns| && Branches(adj, vis, ns[..j], d).Err?
    ensures Branches(adj, vis, ns, d).Err?
    decreases |ns| - j
  {
    if j < |ns| {
      assert ns[..j + 1][..j] == ns[..j];
      BranchesErrPersists(adj, vis, ns, j + 1, d);
    } else {
      assert ns[..j] == ns;
    }
  }

  /** b is a neighbour of a. */
  predicate Adjacent(adj: seq<seq<nat>>, a: nat, b: nat)
  {
    a < |adj| && b in adj[a]
  }

  predicate Distinct(w: seq<nat>)
  {
    forall i, j :: 0 <= i < j < |w| ==> w[i] != w[j]
  }

  /** w is a simple path from u to d: consecutive vertices are neighbours
      and no vertex repeats. */
  predicate IsPath(adj: seq<seq<nat>>, w: seq<nat>, u: nat, d: nat)
  {
    && |w| >= 1 && w[0] == u && w[|w| - 1] == d
    && (forall k :: 0 <= k < |w| - 1 ==> Adjacent(adj, w[k], w[k + 1]))
    && Distinct(w)
  }

  /** Every vertex of w has an unmarked entry in `vis`. */
  predicate Avoids(w: seq<nat>, vis: seq<bool>)
  {
    forall k :: 0 <= k < |w| ==> w[k] < |vis| && !vis[w[k]]
  }

  /** A simple path from u that does not revisit u, seen from its second vertex. */
  lemma PathTail(adj: seq<seq<nat>>, w: seq<nat>, u: nat, d: nat, vis: seq<bool>)
    requires IsPath(adj, w, u, d) && Avoids(w, vis) && |w| >= 2
    ensures IsPath(adj, w[1..], w[1], d) && Avoids(w[1..], vis[u := true])
    ensures Adjacent(adj, u, w[1])
  {
    assert Adjacent(adj, w[0], w[1]);
    forall k | 0 <= k < |w| - 1
      ensures w[1..][k] != u
    {
      assert w[k + 1] != w[0];
    }
  }

  /** A path from u's neighbour, with u put in front, is a path from u. */
  lemma PathCons(adj: seq<seq<nat>>, w: seq<nat>, u: nat, d: nat, vis: seq<bool>)
    requires u < |vis| && !vis[u] && |w| >= 1 && Adjacent(adj, u, w[0])
    requires IsPath(adj, w, w[0], d) && Avoids(w, vis[u := true])
    ensures IsPath(adj, [u] + w, u, d) && Avoids([u] + w, vis)
  {
    var w' := [u] + w;
    forall k | 0 <= k < |w'| - 1
      ensures Adjacent(adj, w'[k], w'[k + 1])
    {
      if k > 0 {
        assert w'[k] == w[k - 1] && w'[k + 1] == w[k];
      }
    }
    forall i, j | 0 <= i < j < |w'|
      ensures w'[i] != w'[j]
    {
      if i > 0 {
        assert w'[i] == w[i - 1] && w'[j] == w[j - 1];
      } else {
        assert w'[j] == w[j - 1];
      }
    }
    forall k | 0 <= k < |w'|
      ensures w'[k] < |vis| && !vis[w'[k]]
    {
      if k > 0 {
        assert w'[k] == w[k - 1];
      }
    }
  }

  /** Every recorded path is a simple path from u to d through unmarked vertices. */
  lemma {:induction false} ExtendSound(adj: seq<seq<nat>>, vis: seq<bool>, u: nat, d: nat, w: seq<nat>)
    requires u < |vis| ==> !vis[u]
    requires Extend(adj, vis, u, d).Ok? && w in Extend(adj, vis, u, d).value
    ensures IsPath(adj, w, u, d) && Avoids(w, vis)
    decreases Unvisited(vis), 0, 0
  {
    if u != d {
      MarkDecreases(vis, u);
      var ws := Branches(adj, vis[u := true], adj[u], d).value;
      var k :| 0 <= k < |ws| && w == [u] + ws[k];
      BranchesSound(adj, vis[u := true], adj[u], d, ws[k]);
      PathCons(adj, ws[k], u, d, vis);
    }
  }

  /** Every path recorded for a neighbour list starts at one of the
      neighbours and is a simple path to d through unmarked vertices. */
  lemma {:induction false} BranchesSound(adj: seq<seq<nat>>, vis: seq<bool>, ns: seq<nat>, d: nat, w: seq<nat>)
    requires Branches(adj, vis, ns, d).Ok? && w in Branches(adj, vis, ns, d).value
    ensures |w| >= 1 && w[0] in ns && IsPath(adj, w, w[0], d) && Avoids(w, vis)
    decreases Unvisited(vis), 1, |ns|
  {
    var init := ns[..|ns| - 1];
    var ws := Branches(adj, vis, init, d).value;
    var i := ns[|ns| - 1];
    if w in ws {
      BranchesSound(adj, vis, init, d, w);
      assert w[0] in init;
    } else {
      ExtendSound(adj, vis, i, d, w);
    }
  }

  /** Every simple path from u to d through unmarked vertices is recorded. */
  lemma {:induction false} ExtendComplete(adj: seq<seq<nat>>, vis: seq<bool>, u: nat, d: nat, w: seq<nat>)
    requires IsPath(adj, w, u, d) && Avoids(w, vis) && Extend(adj, vis, u, d).Ok?
    ensures w in Extend(adj, vis, u, d).value
    decreases Unvisited(vis), 0, 0
  {
    assert w[0] < |vis| && !vis[w[0]];
    if u == d {
      assert w == [u];
    } else {
      PathTail(adj, w, u, d, vis);
      MarkDecreases(vis, u);
      var ws := Branches(adj, vis[u := true], adj[u], d).value;
      BranchesComplete(adj, vis[u := true], adj[u], d, w[1], w[1..]);
      var k :| 0 <= k < |ws| && ws[k] == w[1..];
      assert Prefixed([u], ws)[k] == w;
    }
  }

  /** A path from an unmarked neighbour is among the paths recorded for
      the neighbour list. */
  lemma {:induction false} BranchesComplete(adj: seq<seq<nat>>, vis: seq<bool>, ns: seq<nat>, d: nat, i: nat, w: seq<nat>)
    requires i in ns && IsPath(adj, w, i, d) && Avoids(w, vis) && Branches(adj, vis, ns, d).Ok?
    ensures w in Branches(adj, vis, ns, d).value
    decreases Unvisited(vis), 1, |ns|
  {
    var init := ns[..|ns| - 1];
    assert w[0] < |vis| && !vis[w[0]];
    if i == ns[|ns| - 1] {
      ExtendComplete(adj, vis, i, d, w);
    } else {
      assert i in init;
      BranchesComplete(adj, vis, init, d, i, w);
    }
  }

  /** Every vertex below `size` has a neighbour list and every neighbour
      of such a vertex is below `size`. */
  predicate InRange(adj: seq<seq<nat>>, size: nat)
  {
    size <= |adj| && forall a, b :: 0 <= a < size && b in adj[a] ==> b < size
  }

  /** With all indices in range the search never raises `IndexError`. */
  lemma {:induction false} ExtendTotal(adj: seq<seq<nat>>, vis: seq<bool>, u: nat, d: nat)
    requires InRange(adj, |vis|) && u < |vis| && !vis[u]
    ensures Extend(adj, vis, u, d).Ok?
    decreases Unvisited(vis), 0, 0
  {
    if u != d {
      MarkDecreases(vis, u);
      forall k | 0 <= k < |adj[u]|
        ensures adj[u][k] < |vis|
      {
        assert adj[u][k] in adj[u];
      }
      BranchesTotal(adj, vis[u := true], adj[u], d);
    }
  }

  lemma {:induction false} BranchesTotal(adj: seq<seq<nat>>, vis: seq<bool>, ns: seq<nat>, d: nat)
    requires InRange(adj, |vis|) && forall k :: 0 <= k < |ns| ==> ns[k] < |vis|
    ensures Branches(adj, vis, ns, d).Ok?
    decreases Unvisited(vis), 1, |ns|
  {
    if ns != [] {
      BranchesTotal(adj, vis, ns[..|ns| - 1], d);
      var i := ns[|ns| - 1];
      if !vis[i] {
        ExtendTotal(adj, vis, i, d);
      }
    }
  }

  /** The state of one `printAllPaths` call: the graph, the `visited` list,
      the current `path` and the list `beta` of recorded paths. */
  class Search {
    const adj: seq<seq<nat>>
    const visited: array<bool>
    var path: seq<nat>
    var beta: seq<seq<nat>>

    /** `visited = [False for i in range(size)]`, `path = []`, `beta = []`. */
    constructor (adj_: seq<seq<nat>>, size: nat)
      ensures adj == adj_ && visited.Length == size && fresh(visited)
      ensures forall v :: 0 <= v < size ==> !visited[v]
      ensures path == [] && beta == []
    {
      adj := adj_;
      visited := new bool[size](_ => false);
      path, beta := [], [];
    }

    /** `printAllPathsUtil(u, d, visited, path, beta)`.  On success the
        paths `Extend` describes are appended to `beta`, each behind the
        path on entry, and `visited` and `path` are as they were. */
    method Util(u: nat, d: nat) returns (r: Result<()>)
      requires u < visited.Length ==> !visited[u]
      modifies this, visited
      decreases Unvisited(visited[..])
      ensures r.Ok? <==> Extend(adj, old(visited[..]), u, d).Ok?
      ensures r.Err? ==> r == Err(IndexError)
      ensures r.Ok? ==> visited[..] == old(visited[..]) && path == old(path)
      ensures r.Ok? ==> beta == old(beta) + Prefixed(old(path), Extend(adj, old(visited[..]), u, d).value)
    {
      ghost var vis0 := visited[..];
      if u >= visited.Length {
        return Err(IndexError);
      }
      visited[u] := true;
      path := path + [u];
      if u == d {
        beta := beta + [path];
      } else {
        if u >= |adj| {
          return Err(IndexError);
        }
        MarkDecreases(vis0, u);
        var ns := adj[u];
        ghost var vis := visited[..];
        assert vis == vis0[u := true];
        ghost var found: seq<seq<nat>> := [];
        var idx := 0;
        while idx < |ns|
          invariant idx <= |ns|
          invariant visited[..] == vis && path == old(path) + [u]
          invariant Branches(adj, vis, ns[..idx], d) == Ok(found)
          invariant beta == old(beta) + Prefixed(old(path) + [u], found)
        {
          var i := ns[idx];
          assert ns[..idx + 1][..idx] == ns[..idx];
          if i >= visited.Length {
            BranchesErrPersists(adj, vis, ns, idx + 1, d);
            return Err(IndexError);
          }
          if !visited[i] {
            var res := Util(i, d);
            if res.Err? {
              BranchesErrPersists(adj, vis, ns, idx + 1, d);
              return res;
            }
            PrefixedAppend(old(path) + [u], found, Extend(adj, vis, i, d).value);
            found := found + Extend(adj, vis, i, d).value;
          }
          idx := idx + 1;
        }
        assert ns[..idx] == ns;
        PrefixedNest(old(path), [u], found);
      }
      path := path[..|path| - 1];
      visited[u] := false;
      assert visited[..] == vis0;
      r := Ok(());
    }
  }

  /** The positions below `size` are the whole visited list. */
  lemma AvoidsNothingMarked(w: seq<nat>, size: nat)
    ensures Avoids(w, seq(size, _ => false)) <==> forall k :: 0 <= k < |w| ==> w[k] < size
  {
  }

  /** `printAllPaths(s, d)` with a visited list of `size` entries: on
      success, exactly the simple paths from s to d whose vertices are
      below `size`. */
  method AllPaths(adj: seq<seq<nat>>, size: nat, s: nat, d: nat) returns (r: Result<seq<seq<nat>>>)
    ensures r.Ok? <==> Extend(adj, seq(size, _ => false), s, d).Ok?
    ensures r.Err? ==> r == Err(IndexError)
    ensures r.Ok? ==> s < size
    ensures InRange(adj, size) ==> (r.Ok? <==> s < size)
    ensures r.Ok? ==> forall w :: w in r.value <==>
                        IsPath(adj, w, s, d) && forall k :: 0 <= k < |w| ==> w[k] < size
  {
    var q := new Search(adj, size);
    ghost var none := seq(size, _ => false);
    assert q.visited[..] == none;
    if InRange(adj, size) && s < size {
      ExtendTotal(adj, none, s, d);
    }
    var res := q.Util(s, d);
    if res.Err? {
      return Err(IndexError);
    }
    ghost var found := Extend(adj, none, s, d).value;
    assert forall k :: 0 <= k < |found| ==> [] + found[k] == found[k];
    assert Prefixed([], found) == found;
    r := Ok(q.beta);
    forall w
      ensures w in r.value <==> IsPath(adj, w, s, d) && forall k :: 0 <= k < |w| ==> w[k] < size
    {
      AvoidsNothingMarked(w, size);
      if w in r.value {
        ExtendSound(adj, none, s, d, w);
      }
      if IsPath(adj, w, s, d) && forall k :: 0 <= k < |w| ==> w[k] < size {
        ExtendComplete(adj, none, s, d, w);
      }
    }
  }
}
