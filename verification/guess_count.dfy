/** How many different guesses a board of k pegs over n colours admits:
    n^k.  A guess read as a base-n numeral is a number below n^k, and two
    guesses with the same numeral are equal, so a list of distinct guesses
    is no longer than n^k. */
module GuessCount {
  import opened Placement

  /** n to the power k. */
  function Pow(n: nat, k: nat): nat
  {
    if k == 0 then 1 else n * Pow(n, k - 1)
  }

  /** A guess read as a base-n numeral, last peg least significant. */
  function Rank(g: seq<nat>, n: nat): nat
  {
    if g == [] then 0 else Rank(g[..|g| - 1], n) * n + g[|g| - 1]
  }

  /** Multiplying by n keeps the order of a smaller and a larger factor
      at least n apart. */
  lemma {:induction false} MulStep(a: nat, c: nat, n: nat)
    requires a < c
    ensures a * n + n <= c * n
    decreases c
  {
    if a + 1 < c {
      MulStep(a, c - 1, n);
      assert (c - 1) * n + n == c * n;
    } else {
      assert (a + 1) * n == a * n + n;
    }
  }

  /** A numeral of |g| digits below n is below n^|g|. */
  lemma {:induction false} RankBound(g: seq<nat>, n: nat)
    requires forall i :: 0 <= i < |g| ==> g[i] < n
    ensures Rank(g, n) < Pow(n, |g|)
  {
    if g != [] {
      var p := g[..|g| - 1];
      RankBound(p, n);
      MulStep(Rank(p, n), Pow(n, |p|), n);
    }
  }

  /** The last digit and the rest of a numeral are determined by its value. */
  lemma DigitUnique(a: nat, b: nat, c: nat, d: nat, n: nat)
    requires b < n && d < n && a * n + b == c * n + d
    ensures a == c && b == d
  {
    if a < c {
      MulStep(a, c, n);
      assert false;
    } else if c < a {
      MulStep(c, a, n);
      assert false;
    }
  }

  /** Two guesses of the same length with the same numeral are equal. */
  lemma {:induction false} RankInjective(g: seq<nat>, h: seq<nat>, n: nat)
    requires |g| == |h|
    requires forall i :: 0 <= i < |g| ==> g[i] < n
    requires forall i :: 0 <= i < |h| ==> h[i] < n
    requires Rank(g, n) == Rank(h, n)
    ensures g == h
  {
    if g != [] {
      var p, q := g[..|g| - 1], h[..|h| - 1];
      DigitUnique(Rank(p, n), g[|g| - 1], Rank(q, n), h[|h| - 1], n);
      RankInjective(p, q, n);
      assert g == p + [g[|g| - 1]] && h == q + [h[|h| - 1]];
    }
  }

  /** The numbers below m. */
  function Below(m: nat): set<nat>
  {
    if m == 0 then {} else Below(m - 1) + {m - 1}
  }

  lemma {:induction false} BelowMeaning(m: nat)
    ensures |Below(m)| == m
    ensures forall x: nat :: x in Below(m) <==> x < m
  {
    if m > 0 {
      BelowMeaning(m - 1);
    }
  }

  /** The numerals of the first m guesses of a list. */
  function Ranks(gs: seq<seq<nat>>, n: nat, m: nat): set<nat>
    requires m <= |gs|
  {
    if m == 0 then {} else Ranks(gs, n, m - 1) + {Rank(gs[m - 1], n)}
  }

  /** The numerals of the first m guesses are below n^k, and none is the
      numeral of a guess outside them: neither a later guess of the list
      nor `code`. */
  lemma {:induction false} RanksFresh(gs: seq<seq<nat>>, code: seq<nat>, k: nat, n: nat, m: nat)
    requires m <= |gs| && WellFormed(code, k, n)
    requires forall t :: 0 <= t < |gs| ==> WellFormed(gs[t], k, n) && gs[t] != code
    requires forall t, u :: 0 <= t < u < |gs| ==> gs[t] != gs[u]
    ensures forall x :: x in Ranks(gs, n, m) ==> x < Pow(n, k) && x != Rank(code, n)
    ensures forall u :: m <= u < |gs| ==> Rank(gs[u], n) !in Ranks(gs, n, m)
  {
    if m > 0 {
      RanksFresh(gs, code, k, n, m - 1);
      var g := gs[m - 1];
      RankBound(g, n);
      if Rank(g, n) == Rank(code, n) {
        RankInjective(g, code, n);
        assert false;
      }
      forall u | m <= u < |gs|
        ensures Rank(gs[u], n) != Rank(g, n)
      {
        if Rank(gs[u], n) == Rank(g, n) {
          RankInjective(gs[u], g, n);
          assert false;
        }
      }
    }
  }

  /** The numerals of the first m guesses of a list of distinct guesses are
      m different numbers. */
  lemma {:induction false} RanksCount(gs: seq<seq<nat>>, code: seq<nat>, k: nat, n: nat, m: nat)
    requires m <= |gs| && WellFormed(code, k, n)
    requires forall t :: 0 <= t < |gs| ==> WellFormed(gs[t], k, n) && gs[t] != code
    requires forall t, u :: 0 <= t < u < |gs| ==> gs[t] != gs[u]
    ensures |Ranks(gs, n, m)| == m
  {
    if m > 0 {
      RanksCount(gs, code, k, n, m - 1);
      RanksFresh(gs, code, k, n, m - 1);
    }
  }

  /** Distinct guesses of k pegs over n colours, none of them equal to a
      further such guess `code`, number fewer than n^k. */
  lemma DistinctGuessesBound(gs: seq<seq<nat>>, code: seq<nat>, k: nat, n: nat)
    requires WellFormed(code, k, n)
    requires forall t :: 0 <= t < |gs| ==> WellFormed(gs[t], k, n) && gs[t] != code
    requires forall t, u :: 0 <= t < u < |gs| ==> gs[t] != gs[u]
    ensures |gs| < Pow(n, k)
  {
    RanksCount(gs, code, k, n, |gs|);
    RanksFresh(gs, code, k, n, |gs|);
    BelowMeaning(Pow(n, k));
    RankBound(code, n);
    var used := Ranks(gs, n, |gs|) + {Rank(code, n)};
    assert |used| == |gs| + 1;
    assert Below(Pow(n, k)) == used + (Below(Pow(n, k)) - used);
  }
}
