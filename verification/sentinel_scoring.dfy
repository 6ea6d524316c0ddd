/** The scorer of `play_once` in src/test_mastermind_2.py: red and white pegs
    counted on copies of the guess row and of the secret, where a consumed
    guess peg is overwritten with 0 and a consumed secret peg with -1.
    Colours are 1..colors, so neither sentinel ever matches a live peg.
    Also the red half of `generate_constraint`. */
module SentinelScoring {
  import opened Scoring

  /** Every peg holds a colour, that is a value of at least 1. */
  predicate Colours(s: seq<int>)
  {
    forall i :: 0 <= i < |s| ==> s[i] >= 1
  }

  /** The live pegs of a row: those not overwritten by a sentinel. */
  function Live(s: seq<int>): multiset<int>
  {
    if s == [] then multiset{}
    else Live(s[..|s| - 1]) + (if s[|s| - 1] >= 1 then multiset{s[|s| - 1]} else multiset{})
  }

  /** `g` after the red loop: every peg that agrees with `s` replaced by `z`. */
  function Masked(g: seq<int>, s: seq<int>, z: int): seq<int>
    requires |g| == |s|
  {
    seq(|g|, i requires 0 <= i < |g| => if g[i] == s[i] then z else g[i])
  }

  /** The colours at the positions where `g` and `s` agree. */
  function Agreed(g: seq<int>, s: seq<int>): multiset<int>
    requires |g| == |s|
  {
    if g == [] then multiset{}
    else Agreed(g[..|g| - 1], s[..|s| - 1]) + (if g[|g| - 1] == s[|s| - 1] then multiset{g[|g| - 1]} else multiset{})
  }

  lemma LivePrefix(s: seq<int>, i: nat)
    requires i < |s|
    ensures Live(s[..i + 1]) == Live(s[..i]) + (if s[i] >= 1 then multiset{s[i]} else multiset{})
  {
    assert s[..i + 1][..i] == s[..i];
  }

  /** A colour is live in a row iff some peg of the row holds it. */
  lemma {:induction false} LiveHas(s: seq<int>, v: int)
    requires v >= 1
    ensures v in Live(s) <==> exists i :: 0 <= i < |s| && s[i] == v
    decreases |s|
  {
    if s != [] {
      var s' := s[..|s| - 1];
      LiveHas(s', v);
      if v in Live(s') {
        var i :| 0 <= i < |s'| && s'[i] == v;
        assert s[i] == v;
      }
      if exists i :: 0 <= i < |s| && s[i] == v {
        var i :| 0 <= i < |s| && s[i] == v;
        if i < |s'| { assert s'[i] == v; }
      }
    }
  }

  /** Overwriting a live peg with the secret's sentinel -1 removes exactly it. */
  lemma {:induction false} LiveConsume(s: seq<int>, i: nat)
    requires i < |s| && s[i] >= 1
    ensures Live(s[i := -1]) + multiset{s[i]} == Live(s)
    decreases |s|
  {
    var t := s[i := -1];
    var n := |s| - 1;
    assert t[..n] == if i < n then s[..n][i := -1] else s[..n];
    if i < n {
      LiveConsume(s[..n], i);
    }
  }

  /** Masking splits a row of colours into its live unmatched pegs and the
      agreeing pegs. */
  lemma {:induction false} MaskedSplit(g: seq<int>, s: seq<int>, z: int)
    requires |g| == |s| && Colours(g) && z < 1
    ensures multiset(g) == Live(Masked(g, s, z)) + Agreed(g, s)
    decreases |g|
  {
    if g != [] {
      var n := |g| - 1;
      MaskedSplit(g[..n], s[..n], z);
      assert Masked(g, s, z)[..n] == Masked(g[..n], s[..n], z);
      assert g == g[..n] + [g[n]];
    }
  }

  lemma {:induction false} AgreedSymmetric(g: seq<int>, s: seq<int>)
    requires |g| == |s|
    ensures Agreed(g, s) == Agreed(s, g)
    decreases |g|
  {
    if g != [] {
      AgreedSymmetric(g[..|g| - 1], s[..|s| - 1]);
    }
  }

  lemma {:induction false} AgreedCount(g: seq<int>, s: seq<int>)
    requires |g| == |s|
    ensures |Agreed(g, s)| == Agree(g, s)
    decreases |g|
  {
    if g != [] {
      AgreedCount(g[..|g| - 1], s[..|s| - 1]);
    }
  }

  lemma CommonPart(x: multiset<int>, y: multiset<int>, r: multiset<int>)
    ensures (x + r) * (y + r) == x * y + r
  {
    forall c ensures ((x + r) * (y + r))[c] == (x * y + r)[c] {}
  }

  /** After the red loop the guess copy holds colours and 0s, and the
      secret copy holds colours and -1s, never 0. */
  lemma MaskedValues(g: seq<int>, s: seq<int>)
    requires |g| == |s| && Colours(g) && Colours(s)
    ensures forall j :: 0 <= j < |g| ==> Masked(g, s, 0)[j] >= 1 || Masked(g, s, 0)[j] == 0
    ensures forall j :: 0 <= j < |s| ==> Masked(s, g, -1)[j] != 0
  {
  }

  /** After the red loop, the white pegs still to be found are exactly the
      colour matches between the live pegs of the two masked copies. */
  lemma RedPhase(g: seq<int>, s: seq<int>)
    requires |g| == |s| && Colours(g) && Colours(s)
    ensures Matches(g, s) == Agree(g, s) + |Live(Masked(g, s, 0)) * Live(Masked(s, g, -1))|
  {
    MaskedSplit(g, s, 0);
    MaskedSplit(s, g, -1);
    AgreedSymmetric(g, s);
    AgreedCount(g, s);
    CommonPart(Live(Masked(g, s, 0)), Live(Masked(s, g, -1)), Agreed(g, s));
  }

  /** The red loop: count the agreeing positions and overwrite them with the
      sentinels, 0 in the guess copy and -1 in the secret copy. */
  method ConsumeReds(turn: array<int>, sc: array<int>) returns (red: int)
    requires turn != sc && turn.Length == sc.Length
    modifies turn, sc
    ensures red == Agree(old(turn[..]), old(sc[..]))
    ensures turn[..] == Masked(old(turn[..]), old(sc[..]), 0)
    ensures sc[..] == Masked(old(sc[..]), old(turn[..]), -1)
  {
    ghost var g, s := turn[..], sc[..];
    var pegs := turn.Length;
    red := 0;
    var peg := 0;
    while peg < pegs
      invariant 0 <= peg <= pegs
      invariant red == Agree(g[..peg], s[..peg])
      invariant forall j :: 0 <= j < pegs ==> turn[j] == if j < peg then Masked(g, s, 0)[j] else g[j]
      invariant forall j :: 0 <= j < pegs ==> sc[j] == if j < peg then Masked(s, g, -1)[j] else s[j]
    {
      assert g[..peg + 1][..peg] == g[..peg] && s[..peg + 1][..peg] == s[..peg];
      if sc[peg] == turn[peg] {
        red := red + 1;
        turn[peg] := 0;
        sc[peg] := -1;
      }
      peg := peg + 1;
    }
    assert g[..pegs] == g && s[..pegs] == s;
  }

  /** The inner white loop's scan: the first peg of `sc` equal to v, or
      `sc.Length` when there is none. */
  method FirstEqual(sc: array<int>, v: int) returns (sp: int)
    ensures 0 <= sp <= sc.Length
    ensures sp < sc.Length ==> sc[sp] == v
    ensures forall j :: 0 <= j < sp ==> sc[j] != v
  {
    sp := 0;
    while sp < sc.Length && sc[sp] != v
      invariant 0 <= sp <= sc.Length
      invariant forall j :: 0 <= j < sp ==> sc[j] != v
    {
      sp := sp + 1;
    }
  }

  /** The white loop: every guess peg, in order, consumes the first equal
      peg of the secret copy.  Sentinels never match, so the count is the
      number of colour matches between the live pegs of the two copies. */
  method ConsumeWhites(turn: array<int>, sc: array<int>) returns (white: int)
    requires turn != sc && turn.Length == sc.Length
    requires forall j :: 0 <= j < turn.Length ==> turn[j] >= 1 || turn[j] == 0
    requires forall j :: 0 <= j < sc.Length ==> sc[j] != 0
    modifies turn, sc
    ensures white == |Live(old(turn[..])) * Live(old(sc[..]))|
    ensures Live(sc[..]) + Live(old(turn[..])) * Live(old(sc[..])) == Live(old(sc[..]))
  {
    ghost var t0, s0 := turn[..], sc[..];
    var pegs := turn.Length;
    assert Live(sc[..]) + Live(t0[..0]) * Live(s0) == Live(s0);
    white := 0;
    var tp := 0;
    while tp < pegs
      invariant 0 <= tp <= pegs
      invariant forall j :: tp <= j < pegs ==> turn[j] == t0[j]
      invariant forall j :: 0 <= j < pegs ==> sc[j] != 0
      invariant Live(sc[..]) + Live(t0[..tp]) * Live(s0) == Live(s0)
      invariant white == |Live(t0[..tp]) * Live(s0)|
    {
      var sp := FirstEqual(sc, turn[tp]);
      ghost var before := sc[..];
      WhiteStep(before, t0, s0, tp, sp);
      if sp < pegs {
        white := white + 1;
        turn[tp] := 0;
        sc[sp] := -1;
        assert sc[..] == before[sp := -1];
      }
      tp := tp + 1;
    }
    assert t0[..pegs] == t0;
  }

  /** The scoring block of `play_once`: copy the guess row and the secret,
      consume the reds, then the whites.  The inputs are only read. */
  method Score(guess: array<int>, secret: array<int>) returns (red: int, white: int)
    requires guess.Length == secret.Length
    requires Colours(guess[..]) && Colours(secret[..])
    ensures red == Agree(guess[..], secret[..])
    ensures red + white == Matches(guess[..], secret[..])
    ensures 0 <= white && red + white <= guess.Length
  {
    var pegs := guess.Length;
    ghost var g, s := guess[..], secret[..];
    var turn := new int[pegs];
    var sc := new int[pegs];
    forall i | 0 <= i < pegs {
      turn[i] := guess[i];
    }
    forall i | 0 <= i < pegs {
      sc[i] := secret[i];
    }
    assert turn[..] == g && sc[..] == s;
    red := ConsumeReds(turn, sc);
    MaskedValues(g, s);
    white := ConsumeWhites(turn, sc);
    assert guess[..] == g && secret[..] == s;
    RedPhase(g, s);
    AgreeAtMostMatches(g, s);
    MatchesAtMostLength(g, s);
  }

  /** One round of the white loop: the guess peg v = t0[tp] either consumes
      the secret peg sp (one more white) or finds none of its colour. */
  lemma WhiteStep(sc: seq<int>, t0: seq<int>, s0: seq<int>, tp: nat, sp: nat)
    requires tp < |t0| && sp <= |sc|
    requires t0[tp] >= 1 || t0[tp] == 0
    requires forall j :: 0 <= j < |sc| ==> sc[j] != 0
    requires Live(sc) + Live(t0[..tp]) * Live(s0) == Live(s0)
    requires forall j :: 0 <= j < sp ==> sc[j] != t0[tp]
    requires sp < |sc| ==> sc[sp] == t0[tp]
    ensures sp < |sc| ==> Live(sc[sp := -1]) + Live(t0[..tp + 1]) * Live(s0) == Live(s0)
                          && |Live(t0[..tp + 1]) * Live(s0)| == |Live(t0[..tp]) * Live(s0)| + 1
    ensures sp == |sc| ==> Live(sc) + Live(t0[..tp + 1]) * Live(s0) == Live(s0)
                           && |Live(t0[..tp + 1]) * Live(s0)| == |Live(t0[..tp]) * Live(s0)|
  {
    var v := t0[tp];
    LivePrefix(t0, tp);
    if sp < |sc| {
      LiveConsume(sc, sp);
      AbsorbFound(Live(sc), Live(sc[sp := -1]), Live(t0[..tp]), Live(s0), v);
    } else if v >= 1 {
      LiveHas(sc, v);
      AbsorbMissed(Live(sc), Live(t0[..tp]), Live(s0), v);
    }
  }

  /** The turn loop of `play_once` with the solver's move of each turn given
      as `moves`: put the move on the board, score it, record the score, and
      stop at the first all-red score.  The result is `win_turn + 1`, so 0
      means the game was lost. */
  method PlayOnce(secret: array<int>, moves: seq<seq<int>>, turns: nat) returns (outcome: int, scores: seq<(int, int)>)
    requires |moves| == turns && Colours(secret[..])
    requires forall t :: 0 <= t < turns ==> |moves[t]| == secret.Length && Colours(moves[t])
    ensures 0 <= outcome <= turns
    ensures outcome == 0 <==> forall t :: 0 <= t < turns ==> moves[t] != secret[..]
    ensures outcome > 0 ==> moves[outcome - 1] == secret[..]
    ensures forall t :: 0 <= t < outcome - 1 ==> moves[t] != secret[..]
    ensures |scores| == if outcome == 0 then turns else outcome
    ensures forall t :: 0 <= t < |scores| ==>
              scores[t] == (Agree(moves[t], secret[..]), Matches(moves[t], secret[..]) - Agree(moves[t], secret[..]))
  {
    var pegs := secret.Length;
    ghost var sec := secret[..];
    var winTurn := -1;
    scores := [];
    var turn := 0;
    while turn < turns
      invariant 0 <= turn <= turns && |scores| == turn && winTurn == -1 && secret[..] == sec
      invariant forall t :: 0 <= t < turn ==> moves[t] != sec
      invariant forall t :: 0 <= t < turn ==>
                  scores[t] == (Agree(moves[t], sec), Matches(moves[t], sec) - Agree(moves[t], sec))
    {
      var row := new int[pegs];
      forall peg | 0 <= peg < pegs {
        row[peg] := moves[turn][peg];
      }
      assert row[..] == moves[turn] && secret[..] == sec;
      var red, white := Score(row, secret);
      scores := scores + [(red, white)];
      assert scores[turn] == (Agree(moves[turn], sec), Matches(moves[turn], sec) - Agree(moves[turn], sec));
      AgreeAllIffEqual(moves[turn], sec);
      if red == pegs {
        winTurn := turn;
        break;
      }
      turn := turn + 1;
    }
    outcome := winTurn + 1;
  }

  /** One literal of a red combination: position `peg` of the solution
      equals, or differs from, `colour`. */
  datatype PegTest = Same(peg: nat, colour: int) | Differs(peg: nat, colour: int)

  predicate Passes(t: PegTest, sol: seq<int>)
  {
    match t
    case Same(p, c) => p < |sol| && sol[p] == c
    case Differs(p, c) => p < |sol| && sol[p] != c
  }

  predicate AllPass(ts: seq<PegTest>, sol: seq<int>)
  {
    forall i :: 0 <= i < |ts| ==> Passes(ts[i], sol)
  }

  /** `result_red` of `generate_constraint` for one combination of positions
      of the guess `row`: equality at the positions of the combination,
      inequality at every other position. */
  function RedCombination(row: seq<int>, combo: set<nat>): seq<PegTest>
  {
    seq(|row|, peg requires 0 <= peg < |row| => if peg in combo then Same(peg, row[peg]) else Differs(peg, row[peg]))
  }

  /** The positions where the solution agrees with the guess row. */
  function Agreement(sol: seq<int>, row: seq<int>): set<nat>
    requires |sol| == |row|
  {
    set peg: nat | peg < |row| && sol[peg] == row[peg]
  }

  /** Every position of the combination is a position of the row. */
  predicate Within(combo: set<nat>, pegs: nat)
  {
    forall p :: p in combo ==> p < pegs
  }

  /** A red combination holds exactly when it is the set of agreeing
      positions. */
  lemma RedCombinationExact(row: seq<int>, combo: set<nat>, sol: seq<int>)
    requires |sol| == |row| && Within(combo, |row|)
    ensures AllPass(RedCombination(row, combo), sol) <==> Agreement(sol, row) == combo
  {
    var ts := RedCombination(row, combo);
    if AllPass(ts, sol) {
      forall p: nat | p < |row|
        ensures p in Agreement(sol, row) <==> p in combo
      {
        assert Passes(ts[p], sol);
      }
    }
  }

  lemma {:induction false} AgreementPrefix(sol: seq<int>, row: seq<int>, n: nat)
    requires |sol| == |row| && n <= |row|
    ensures |set peg: nat | peg < n && sol[peg] == row[peg]| == Agree(sol[..n], row[..n])
    decreases n
  {
    if n > 0 {
      AgreementPrefix(sol, row, n - 1);
      var a := set peg: nat | peg < n - 1 && sol[peg] == row[peg];
      var b := set peg: nat | peg < n && sol[peg] == row[peg];
      assert b == if sol[n - 1] == row[n - 1] then a + {n - 1} else a;
      assert sol[..n][..n - 1] == sol[..n - 1] && row[..n][..n - 1] == row[..n - 1];
    }
  }

  /** The number of agreeing positions is the red count. */
  lemma AgreementSize(sol: seq<int>, row: seq<int>)
    requires |sol| == |row|
    ensures |Agreement(sol, row)| == Agree(sol, row)
  {
    AgreementPrefix(sol, row, |row|);
    assert sol[..|sol|] == sol && row[..|row|] == row;
  }

  /** Some combination of `red` positions holds iff the solution scores
      exactly `red` reds against the guess row: the disjunction over all
      of `combinations(range(pegs), red)` is the red constraint. */
  lemma RedCombinationsMeaning(row: seq<int>, sol: seq<int>, red: nat)
    requires |sol| == |row|
    ensures (exists combo: set<nat> :: Within(combo, |row|) && |combo| == red
                                       && AllPass(RedCombination(row, combo), sol))
            <==> Agree(sol, row) == red
  {
    AgreementSize(sol, row);
    var ag := Agreement(sol, row);
    if Agree(sol, row) == red {
      RedCombinationExact(row, ag, sol);
    }
    if exists combo: set<nat> :: Within(combo, |row|) && |combo| == red
                                 && AllPass(RedCombination(row, combo), sol) {
      var combo: set<nat> :| Within(combo, |row|) && |combo| == red
                             && AllPass(RedCombination(row, combo), sol);
      RedCombinationExact(row, combo, sol);
    }
  }
}
