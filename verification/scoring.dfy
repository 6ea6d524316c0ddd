/** The meaning of Mastermind feedback for a guess `g` against a secret `s`,
    independent of how any particular scorer computes it. */
module Scoring {

  /** Red: the number of positions where guess and secret agree. */
  function Agree(g: seq<int>, s: seq<int>): nat
    requires |g| == |s|
  {
    if g == [] then 0
    else Agree(g[..|g| - 1], s[..|s| - 1]) + (if g[|g| - 1] == s[|s| - 1] then 1 else 0)
  }

  /** Red plus white: the size of a largest colour matching between the pegs
      of the guess and the pegs of the secret, each peg used at most once;
      that is, the sum over colours c of min(#c in g, #c in s). */
  function Matches(g: seq<int>, s: seq<int>): nat
  {
    |multiset(g) * multiset(s)|
  }

  /** The number of guess positions whose colour occurs somewhere in the secret. */
  function PresentCount(g: seq<int>, s: seq<int>): nat
  {
    if g == [] then 0
    else PresentCount(g[..|g| - 1], s) + (if g[|g| - 1] in s then 1 else 0)
  }

  lemma SubMultisetCard<T>(m: multiset<T>, m': multiset<T>)
    requires m <= m'
    ensures |m| <= |m'|
  {
    assert m' == m + (m' - m);
  }

  /** Adding the same colour to both sides adds exactly one match. */
  lemma IntersectAddBoth(x: multiset<int>, y: multiset<int>, c: int)
    ensures (x + multiset{c}) * (y + multiset{c}) == x * y + multiset{c}
  {
  }

  /** Red pegs are among the matched pegs. */
  lemma {:induction false} AgreeAtMostMatches(g: seq<int>, s: seq<int>)
    requires |g| == |s|
    ensures Agree(g, s) <= Matches(g, s)
    decreases |g|
  {
    if g != [] {
      var g', s' := g[..|g| - 1], s[..|s| - 1];
      var x, y := g[|g| - 1], s[|s| - 1];
      assert g == g' + [x] && s == s' + [y];
      AgreeAtMostMatches(g', s');
      var a, b := multiset(g'), multiset(s');
      assert multiset(g) == a + multiset{x} && multiset(s) == b + multiset{y};
      if x == y {
        IntersectAddBoth(a, b, x);
      } else {
        SubMultisetCard(a * b, (a + multiset{x}) * (b + multiset{y}));
      }
    }
  }

  /** A matched peg of the guess has a colour present in the secret. */
  lemma {:induction false} MatchesAtMostPresent(g: seq<int>, s: seq<int>)
    ensures Matches(g, s) <= PresentCount(g, s)
    decreases |g|
  {
    if g != [] {
      var g', x := g[..|g| - 1], g[|g| - 1];
      assert g == g' + [x];
      MatchesAtMostPresent(g', s);
      var a, m := multiset(g'), multiset(s);
      assert multiset(g) == a + multiset{x};
      if x in s {
        SubMultisetCard((a + multiset{x}) * m, a * m + multiset{x});
      } else {
        assert (a + multiset{x}) * m == a * m;
      }
    }
  }

  lemma {:induction false} PresentAtMostLength(g: seq<int>, s: seq<int>)
    ensures PresentCount(g, s) <= |g|
    decreases |g|
  {
    if g != [] { PresentAtMostLength(g[..|g| - 1], s); }
  }

  /** Red plus white never exceeds the number of pegs. */
  lemma MatchesAtMostLength(g: seq<int>, s: seq<int>)
    ensures Matches(g, s) <= |g|
  {
    MatchesAtMostPresent(g, s);
    PresentAtMostLength(g, s);
  }

  /** All positions agree exactly when the guess is the secret. */
  lemma {:induction false} AgreeAllIffEqual(g: seq<int>, s: seq<int>)
    requires |g| == |s|
    ensures Agree(g, s) == |g| <==> g == s
    decreases |g|
  {
    if g != [] {
      var g', s' := g[..|g| - 1], s[..|s| - 1];
      AgreeAllIffEqual(g', s');
      AgreeAtMostLength(g', s');
      assert g == g' + [g[|g| - 1]] && s == s' + [s[|s| - 1]];
    }
  }

  lemma {:induction false} AgreeAtMostLength(g: seq<int>, s: seq<int>)
    requires |g| == |s|
    ensures Agree(g, s) <= |g|
    decreases |g|
  {
    if g != [] { AgreeAtMostLength(g[..|g| - 1], s[..|s| - 1]); }
  }

  /** The secret itself scores all red and no white. */
  lemma ScoreOfSecret(s: seq<int>)
    ensures Agree(s, s) == |s| && Matches(s, s) == |s|
  {
    AgreeAllIffEqual(s, s);
    assert multiset(s) * multiset(s) == multiset(s);
  }

  /** Greedy matching, one step, in multiset terms: `u` are the pegs still
      unclaimed, `p` the pegs seen so far, and the claims so far (`p * s`)
      together with `u` make up `s`.  A new peg v that finds an unclaimed
      peg of its colour adds one match and removes that peg from `u`. */
  lemma AbsorbFound(u: multiset<int>, u': multiset<int>, p: multiset<int>, s: multiset<int>, v: int)
    requires u + p * s == s && u == u' + multiset{v}
    ensures u' + (p + multiset{v}) * s == s
    ensures |(p + multiset{v}) * s| == |p * s| + 1
  {
    assert s[v] > p[v] by {
      assert s[v] == u[v] + (p * s)[v];
    }
    assert (p + multiset{v}) * s == p * s + multiset{v} by {
      forall x ensures ((p + multiset{v}) * s)[x] == (p * s + multiset{v})[x] {}
    }
  }

  /** ... and a peg v with no unclaimed peg of its colour adds no match. */
  lemma AbsorbMissed(u: multiset<int>, p: multiset<int>, s: multiset<int>, v: int)
    requires u + p * s == s && v !in u
    ensures u + (p + multiset{v}) * s == s
    ensures |(p + multiset{v}) * s| == |p * s|
  {
    assert s[v] <= p[v] by {
      assert s[v] == u[v] + (p * s)[v];
    }
    assert (p + multiset{v}) * s == p * s by {
      forall x ensures ((p + multiset{v}) * s)[x] == (p * s)[x] {}
    }
  }
}
