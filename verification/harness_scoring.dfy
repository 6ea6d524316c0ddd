/** The automatic first player of src/mastermind-harness.py: the scorer of
    `get_auto_response` and the alternation loop of `play_game`, played
    against the hard-resetting engine. */
module HarnessScoring {
  import opened Outcome
  import opened Formula
  import opened Scoring
  import opened Placement
  import GuessCount
  import HardResetEngine

  /** The pegs of `code` at positions below m that no entry of `matched`
      has claimed yet. */
  ghost function Unmatched(code: seq<int>, matched: seq<nat>, m: nat): multiset<int>
    requires m <= |code|
  {
    if m == 0 then multiset{}
    else Unmatched(code, matched, m - 1) + (if m - 1 in matched then multiset{} else multiset{code[m - 1]})
  }

  lemma {:induction false} UnmatchedNone(code: seq<int>, m: nat)
    requires m <= |code|
    ensures Unmatched(code, [], m) == multiset(code[..m])
    decreases m
  {
    if m > 0 {
      UnmatchedNone(code, m - 1);
      assert code[..m] == code[..m - 1] + [code[m - 1]];
    }
  }

  lemma {:induction false} UnmatchedHas(code: seq<int>, matched: seq<nat>, m: nat, c: int)
    requires m <= |code|
    ensures c in Unmatched(code, matched, m) <==> exists j :: 0 <= j < m && j !in matched && code[j] == c
    decreases m
  {
    if m > 0 {
      UnmatchedHas(code, matched, m - 1, c);
    }
  }

  /** Claiming the unclaimed code peg j removes exactly that peg. */
  lemma {:induction false} UnmatchedClaim(code: seq<int>, matched: seq<nat>, m: nat, j: nat)
    requires m <= |code| && j < |code| && j !in matched
    ensures Unmatched(code, matched, m)
            == Unmatched(code, matched + [j], m) + (if j < m then multiset{code[j]} else multiset{})
    decreases m
  {
    if m > 0 {
      UnmatchedClaim(code, matched, m - 1, j);
      assert j == m - 1 || ((m - 1 in matched + [j]) == (m - 1 in matched));
    }
  }

  /** The unclaimed code pegs and the matches of the move pegs seen so far
      together make up the whole code. */
  ghost predicate Balanced(code: seq<int>, matched: seq<nat>, seen: multiset<int>)
  {
    Unmatched(code, matched, |code|) + seen * multiset(code) == multiset(code)
  }

  /** `matched_idxs` holds distinct indices of code pegs. */
  predicate DistinctClaims(matched: seq<nat>, k: nat)
  {
    (forall t :: 0 <= t < |matched| ==> matched[t] < k)
    && (forall t, u :: 0 <= t < u < |matched| ==> matched[t] != matched[u])
  }

  /** A step of the matching loop in which the move peg c claims the code
      peg j: one more match, and the balance is kept. */
  lemma ClaimFound(code: seq<int>, matched: seq<nat>, p: multiset<int>, c: int, j: nat, p': multiset<int>)
    requires Balanced(code, matched, p) && p' == p + multiset{c}
    requires j < |code| && j !in matched && code[j] == c
    ensures Balanced(code, matched + [j], p')
    ensures |p' * multiset(code)| == |p * multiset(code)| + 1
  {
    UnmatchedClaim(code, matched, |code|, j);
    AbsorbFound(Unmatched(code, matched, |code|), Unmatched(code, matched + [j], |code|), p, multiset(code), c);
  }

  /** A step of the matching loop in which no unclaimed code peg has the
      colour c: no new match, and the balance is kept. */
  lemma ClaimMissed(code: seq<int>, matched: seq<nat>, p: multiset<int>, c: int, p': multiset<int>)
    requires Balanced(code, matched, p) && p' == p + multiset{c}
    requires forall j' :: 0 <= j' < |code| ==> j' in matched || code[j'] != c
    ensures Balanced(code, matched, p')
    ensures |p' * multiset(code)| == |p * multiset(code)|
  {
    UnmatchedHas(code, matched, |code|, c);
    AbsorbMissed(Unmatched(code, matched, |code|), p, multiset(code), c);
  }

  lemma PrefixStep(s: seq<int>, i: nat)
    requires i < |s|
    ensures multiset(s[..i + 1]) == multiset(s[..i]) + multiset{s[i]}
  {
    assert s[..i + 1] == s[..i] + [s[i]];
  }

  /** The first code index at or after j that is not in `matched` and holds
      colour c, or |code| when there is none. */
  function FirstFree(code: seq<int>, matched: seq<nat>, c: int, j: nat): (r: nat)
    requires j <= |code|
    ensures j <= r <= |code|
    ensures r < |code| ==> r !in matched && code[r] == c
    ensures forall j' :: j <= j' < r ==> j' in matched || code[j'] != c
    decreases |code| - j
  {
    if j == |code| then |code|
    else if j !in matched && code[j] == c then j
    else FirstFree(code, matched, c, j + 1)
  }

  /** The indices claimed by the first i move pegs, in claiming order. */
  function Claims(move: seq<int>, code: seq<int>, i: nat): seq<nat>
    requires i <= |move|
  {
    if i == 0 then []
    else
      var m := Claims(move, code, i - 1);
      var j := FirstFree(code, m, move[i - 1], 0);
      if j < |code| then m + [j] else m
  }

  /** No code index is claimed twice. */
  lemma {:induction false} ClaimsDistinct(move: seq<int>, code: seq<int>, i: nat)
    requires i <= |move|
    ensures DistinctClaims(Claims(move, code, i), |code|)
    decreases i
  {
    if i > 0 {
      ClaimsDistinct(move, code, i - 1);
    }
  }

  /** There are exactly as many greedy claims as colour matches between the
      pegs seen so far and the code. */
  lemma {:induction false} ClaimsCount(move: seq<int>, code: seq<int>, i: nat)
    requires i <= |move|
    ensures Balanced(code, Claims(move, code, i), multiset(move[..i]))
    ensures |Claims(move, code, i)| == |multiset(move[..i]) * multiset(code)|
    decreases i
  {
    if i == 0 {
      UnmatchedNone(code, |code|);
      assert code[..|code|] == code;
      assert multiset(move[..0]) * multiset(code) == multiset{};
    } else {
      ClaimsCount(move, code, i - 1);
      ClaimsCountStep(move, code, i);
    }
  }

  lemma ClaimsCountStep(move: seq<int>, code: seq<int>, i: nat)
    requires 0 < i <= |move|
    requires Balanced(code, Claims(move, code, i - 1), multiset(move[..i - 1]))
    requires |Claims(move, code, i - 1)| == |multiset(move[..i - 1]) * multiset(code)|
    ensures Balanced(code, Claims(move, code, i), multiset(move[..i]))
    ensures |Claims(move, code, i)| == |multiset(move[..i]) * multiset(code)|
  {
    var m := Claims(move, code, i - 1);
    var c := move[i - 1];
    var j := FirstFree(code, m, c, 0);
    PrefixStep(move, i - 1);
    if j < |code| {
      ClaimFound(code, m, multiset(move[..i - 1]), c, j, multiset(move[..i]));
      assert Claims(move, code, i) == m + [j];
    } else {
      ClaimMissed(code, m, multiset(move[..i - 1]), c, multiset(move[..i]));
      assert Claims(move, code, i) == m;
    }
  }

  /** The greedy matching finds every colour match: as many claims as
      `Matches`, no code index claimed twice. */
  lemma GreedyIsMaximal(move: seq<int>, code: seq<int>)
    ensures |Claims(move, code, |move|)| == Matches(move, code)
    ensures DistinctClaims(Claims(move, code, |move|), |code|)
  {
    ClaimsDistinct(move, code, |move|);
    ClaimsCount(move, code, |move|);
    assert move[..|move|] == move;
  }

  /** The inner loop of the matching: scan the code indices in order,
      skipping those in `matched_idxs`, and stop at the first peg of colour c. */
  method FirstUnclaimed(code: seq<int>, matched: seq<nat>, c: int) returns (j: nat)
    ensures j == FirstFree(code, matched, c, 0)
  {
    j := 0;
    while j < |code|
      invariant 0 <= j <= |code|
      invariant FirstFree(code, matched, c, j) == FirstFree(code, matched, c, 0)
    {
      if j !in matched && c == code[j] {
        return;
      }
      j := j + 1;
    }
  }

  /** The matching loop of `get_auto_response`: every move peg claims the
      first code index of its colour not yet in `matched_idxs`, and
      `whites_and_reds` counts the claims. */
  method MatchPegs(move: seq<int>, code: seq<int>) returns (whitesAndReds: nat, matched: seq<nat>)
    requires |move| == |code|
    ensures matched == Claims(move, code, |move|) && whitesAndReds == |matched|
  {
    var k := |code|;
    matched := [];
    whitesAndReds := 0;
    var i := 0;
    while i < k
      invariant 0 <= i <= k
      invariant matched == Claims(move, code, i) && whitesAndReds == |matched|
    {
      var c := move[i];
      var j := FirstUnclaimed(code, matched, c);
      if j < k {
        whitesAndReds := whitesAndReds + 1;
        matched := matched + [j];
      }
      i := i + 1;
    }
  }

  /** The scoring part of `get_auto_response(move)` against `code`: `reds`
      counts the agreeing positions; then each move peg claims the first
      unclaimed code peg of its colour (`matched_idxs`, `break`), and
      `whites_and_reds` counts the claims.  A move of the wrong length fails
      the `assert`. */
  method GetAutoResponse(move: seq<int>, code: seq<int>) returns (r: Result<(int, int)>)
    ensures r.Ok? <==> |move| == |code|
    ensures r.Err? ==> r.fault == AssertionError
    ensures r.Ok? ==> r.value.0 == Agree(move, code)
                      && r.value.0 + r.value.1 == Matches(move, code)
                      && r.value.1 >= 0 && r.value.0 + r.value.1 <= |code|
  {
    var k := |code|;
    if |move| != k {
      return Err(AssertionError);
    }
    var reds := 0;
    var i := 0;
    while i < k
      invariant 0 <= i <= k
      invariant reds == Agree(move[..i], code[..i])
    {
      assert move[..i + 1][..i] == move[..i] && code[..i + 1][..i] == code[..i];
      if move[i] == code[i] {
        reds := reds + 1;
      }
      i := i + 1;
    }
    assert move[..k] == move && code[..k] == code;

    var whitesAndReds, matched := MatchPegs(move, code);
    GreedyIsMaximal(move, code);
    AgreeAtMostMatches(move, code);
    MatchesAtMostLength(move, code);
    r := Ok((reds, whitesAndReds - reds));
  }

  /** What the rounds played so far leave behind: one truthful response per
      guess, in order, every guess but possibly the last scored below k reds,
      and no guess proposed twice. */
  ghost predicate Rounds(log: seq<Feedback>, guesses: seq<seq<nat>>, code: seq<nat>, k: nat)
  {
    && |log| == |guesses|
    && (forall t :: 0 <= t < |guesses| ==> log[t].move == guesses[t])
    && Truthful(log, code)
    && (forall t :: 0 <= t < |guesses| - 1 ==> log[t].red < k)
    && (forall t, u :: 0 <= t < u < |guesses| ==> guesses[t] != guesses[u])
  }

  /** A new guess that differs from every earlier one, scored truthfully,
      extends the rounds. */
  lemma RoundsExtend(log: seq<Feedback>, guesses: seq<seq<nat>>, code: seq<nat>, k: nat, m: seq<nat>, red: int, white: int)
    requires Rounds(log, guesses, code, k)
    requires log != [] ==> log[|log| - 1].red < k
    requires forall t :: 0 <= t < |guesses| ==> guesses[t] != m
    requires |m| == |code| && red == Agree(m, code) && white == Matches(m, code) - red
    ensures Rounds(log + [Feedback(m, red, white)], guesses + [m], code, k)
  {
    var log', guesses' := log + [Feedback(m, red, white)], guesses + [m];
    assert forall t :: 0 <= t < |guesses| ==> log'[t] == log[t] && guesses'[t] == guesses[t];
  }

  /** A move that satisfies the accumulated formula of the rounds so far
      is none of their guesses: each of them scored fewer than k reds. */
  lemma ModelMoveIsNew(k: nat, n: nat, log: seq<Feedback>, guesses: seq<seq<nat>>, code: seq<nat>, m: seq<nat>)
    requires LogWellFormed(log, k, n) && WellFormed(m, k, n)
    requires Rounds(log, guesses, code, k)
    requires log != [] ==> log[|log| - 1].red < k
    requires Holds(Accumulated(k, n, log), Encode(m, n))
    ensures forall t :: 0 <= t < |guesses| ==> guesses[t] != m
  {
    forall t | 0 <= t < |guesses|
      ensures guesses[t] != m
    {
      WitnessAvoidsWrongMoves(k, n, log, m, t);
    }
  }

  /** One round of the loop of `play_game`: the engine's move, its score by
      `get_auto_response`, and the response handed back to the engine. */
  method PlayRound(e: HardResetEngine.Engine, code: seq<nat>, solve: seq<Expr> -> Option<Assignment>)
    returns (m: seq<nat>, red: int)
    requires e.Valid() && WellFormed(code, e.k, e.n)
    requires forall f :: Answers(f, solve(f), e.k, e.n)
    requires Rounds(e.log, e.guessList, code, e.k)
    requires e.log != [] ==> e.log[|e.log| - 1].red < e.k
    modifies e
    ensures e.Valid() && e.k == old(e.k) && e.n == old(e.n)
    ensures e.guessList == old(e.guessList) + [m]
    ensures e.log == old(e.log) + [Feedback(m, red, Matches(m, code) - red)]
    ensures red == Agree(m, code)
    ensures Rounds(e.log, e.guessList, code, e.k)
  {
    var k, n := e.k, e.n;
    var answer := solve(e.solver);
    if e.guessList != [] {
      TruthfulPlayKeepsSecret(k, n, e.log, code);
    }
    ghost var log, gl := e.log, e.guessList;
    m := e.GetSecondPlayerMove(answer);
    if gl != [] {
      ModelMoveIsNew(k, n, log, gl, code, m);
    }
    assert e.guessList == gl + [m] && e.log == log;
    var resp := GetAutoResponse(m, code);
    var white;
    red, white := resp.value.0, resp.value.1;
    RoundsExtend(log, gl, code, k, m, red, white);
    e.PutFirstPlayerResponse(red, white);
  }

  /** `play_game()` in self-play: one `get_second_player_move` and one
      `put_first_player_response` per round, each move scored against `code`
      by `get_auto_response`, until a response has k reds.  `solve` is the
      solver: for every assertion list it answers what `s.check()` and
      `s.model()` may answer.  At most `fuel` rounds are played.  Under this
      truthful scoring the engine never resets, never proposes a guess
      twice, and stops exactly at the first guess equal to the code; since
      there are only n^k guesses, n^k rounds are always enough. */
  method PlayGame(n: nat, k: nat, code: seq<nat>, solve: seq<Expr> -> Option<Assignment>, fuel: nat)
    returns (guesses: seq<seq<nat>>, solved: bool)
    requires n > 0 && WellFormed(code, k, n)
    requires forall f :: Answers(f, solve(f), k, n)
    ensures |guesses| <= fuel
    ensures !solved ==> |guesses| == fuel
    ensures forall t :: 0 <= t < |guesses| ==> WellFormed(guesses[t], k, n)
    ensures solved <==> k == 0 || (guesses != [] && guesses[|guesses| - 1] == code)
    ensures forall t :: 0 <= t < |guesses| - 1 ==> guesses[t] != code
    ensures forall t, u :: 0 <= t < u < |guesses| ==> guesses[t] != guesses[u]
    ensures fuel >= GuessCount.Pow(n, k) ==> solved
  {
    var e := new HardResetEngine.Engine.Initialize(n, k);
    guesses := [];
    var red := 0;
    while red < k && |guesses| < fuel
      invariant e.Valid() && e.k == k && e.n == n
      invariant e.guessList == guesses && Rounds(e.log, guesses, code, k)
      invariant guesses == [] ==> red == 0
      invariant guesses != [] ==> red == e.log[|guesses| - 1].red
      invariant k == 0 ==> guesses == []
      invariant |guesses| <= fuel
      decreases fuel - |guesses|
    {
      var m;
      m, red := PlayRound(e, code, solve);
      guesses := guesses + [m];
    }
    solved := red >= k;
    ResultOfPlay(e.log, guesses, code, k, red);
    if !solved {
      GuessCount.DistinctGuessesBound(guesses, code, k, n);
    }
  }

  /** What the rounds say about the game once the loop stops. */
  lemma ResultOfPlay(log: seq<Feedback>, guesses: seq<seq<nat>>, code: seq<nat>, k: nat, red: int)
    requires |code| == k && Rounds(log, guesses, code, k)
    requires guesses == [] ==> red == 0
    requires guesses != [] ==> red == log[|guesses| - 1].red
    requires k == 0 ==> guesses == []
    ensures red >= k <==> k == 0 || (guesses != [] && guesses[|guesses| - 1] == code)
    ensures forall t :: 0 <= t < |guesses| - 1 ==> guesses[t] != code
  {
    if guesses != [] {
      var last := |guesses| - 1;
      AgreeAllIffEqual(guesses[last], code);
      AgreeAtMostLength(guesses[last], code);
      forall t | 0 <= t < last
        ensures guesses[t] != code
      {
        AgreeAllIffEqual(guesses[t], code);
      }
    }
  }
}
