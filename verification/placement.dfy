/** The encoding shared by the guess engines: placement variables e_i_j for a
    k x n matrix, the "exactly one colour per position" base constraint, the
    red and white feedback constraints, and decoding a model into a guess.
    The builders mirror `sum_to_one`, `white_cons`/`white_cond` and the red
    `PbEq` of 190100036_190100044_190100055/mastermind.py; the copies in
    src/mastermind.py, src/mastermind_new.py and src/test_mastermind_1.py are
    textually the same. */
module Placement {
  import opened Formula
  import opened Scoring

  /** The variables of one position: e_i_0, ..., e_i_(n-1). */
  function Row(i: nat, n: nat): seq<Expr>
  {
    seq(n, j requires 0 <= j < n => Var(i, j))
  }

  /** The pairwise clauses "not a or not b" for every pair a, b of `ls`, in
      the order that `itertools.combinations(ls, 2)` yields the pairs. */
  function AtMostOne(ls: seq<Expr>): seq<Expr>
  {
    if ls == [] then []
    else seq(|ls| - 1, j requires 0 <= j < |ls| - 1 => Or([Not(ls[0]), Not(ls[j + 1])]))
         + AtMostOne(ls[1..])
  }

  /** `sum_to_one(ls)`: the disjunction of `ls` and every pairwise clause. */
  function SumToOne(ls: seq<Expr>): Expr
  {
    And([Or(ls), And(AtMostOne(ls))])
  }

  /** One `sum_to_one` per row of the k x n matrix, the base constraint. */
  function BaseConstraints(k: nat, n: nat): seq<Expr>
  {
    seq(k, i requires 0 <= i < k => SumToOne(Row(i, n)))
  }

  /** The red terms e_i_move[i], one per position i < k. */
  function RedTerms(move: seq<nat>, k: nat): seq<Expr>
    requires k <= |move|
  {
    seq(k, i requires 0 <= i < k => Var(i, move[i]))
  }

  /** `PbEq([(vs[i][move[i]], 1) for i in range(k)], red)`. */
  function RedCond(move: seq<nat>, red: int, k: nat): Expr
    requires k <= |move|
  {
    PbEq(RedTerms(move, k), red)
  }

  /** The presence test of colour c built by folding `Or(B, vs[j][c])` over the
      positions j < k, starting from `False`. */
  function Presence(c: nat, k: nat): Expr
  {
    if k == 0 then Lit(false) else Or([Presence(c, k - 1), Var(k - 1, c)])
  }

  /** The presence terms of a guess, one per guess position. */
  function WhiteTerms(ls: seq<nat>, k: nat): seq<Expr>
  {
    seq(|ls|, i requires 0 <= i < |ls| => Presence(ls[i], k))
  }

  /** `white_cons(ls, whites)` / `white_cond(ls, whites)`: at least `whites`
      guess positions have a colour that occurs somewhere in the matrix. */
  function WhiteCond(ls: seq<nat>, whites: int, k: nat): Expr
  {
    PbGe(WhiteTerms(ls, k), whites)
  }

  /** The constraint added for one response: `And(white_cond, red_cond)`. */
  function FeedbackCons(move: seq<nat>, red: int, white: int, k: nat): Expr
    requires k <= |move|
  {
    And([WhiteCond(move, white, k), RedCond(move, red, k)])
  }

  /** The row that holds colour c and nothing else. */
  function OneHot(c: nat, n: nat): seq<bool>
  {
    seq(n, j => j == c)
  }

  /** A row with exactly one true entry. */
  ghost predicate IsOneHot(row: seq<bool>)
  {
    exists c: nat :: c < |row| && row == OneHot(c, |row|)
  }

  /** The assignment a guess stands for: position i holds colour g[i]. */
  function Encode(g: seq<nat>, n: nat): Assignment
  {
    seq(|g|, i requires 0 <= i < |g| => OneHot(g[i], n))
  }

  /** The colour the decoding loop reads from a row: the last j whose entry is
      true, or 0 when there is none. */
  function DecodeRow(row: seq<bool>): nat
  {
    if row == [] then 0
    else if row[|row| - 1] then |row| - 1
    else DecodeRow(row[..|row| - 1])
  }

  /** The guess decoded from a model, one colour per row. */
  function Decoded(a: Assignment): seq<nat>
  {
    seq(|a|, i requires 0 <= i < |a| => DecodeRow(a[i]))
  }

  /** A guess of k colours, each in [0, n). */
  predicate WellFormed(g: seq<nat>, k: nat, n: nat)
  {
    |g| == k && forall i :: 0 <= i < |g| ==> g[i] < n
  }

  /** All-zero guess, `[0] * k`. */
  function Zeros(k: nat): seq<nat>
  {
    seq(k, i => 0)
  }

  /** The decoding loop of `get_a_solution`: for each position i, for each
      colour j in order, `sol[i] = j` whenever the model makes e_i_j true. */
  method Decode(a: Assignment, k: nat, n: nat) returns (sol: seq<nat>)
    requires Shaped(a, k, n)
    ensures sol == Decoded(a)
    ensures n > 0 ==> WellFormed(sol, k, n)
  {
    sol := Zeros(k);
    var i := 0;
    while i < k
      invariant 0 <= i <= k && |sol| == k
      invariant forall i' :: 0 <= i' < i ==> sol[i'] == DecodeRow(a[i'])
      invariant forall i' :: i <= i' < k ==> sol[i'] == 0
    {
      var j := 0;
      while j < n
        invariant 0 <= j <= n && |sol| == k
        invariant sol[i] == DecodeRow(a[i][..j])
        invariant forall i' :: 0 <= i' < i ==> sol[i'] == DecodeRow(a[i'])
        invariant forall i' :: i < i' < k ==> sol[i'] == 0
      {
        assert a[i][..j + 1][..j] == a[i][..j];
        if a[i][j] {
          sol := sol[i := j];
        }
        j := j + 1;
      }
      assert a[i][..n] == a[i];
      i := i + 1;
    }
    if n > 0 { DecodedBound(a, k, n); }
  }

  lemma {:induction false} DecodeRowBound(row: seq<bool>)
    ensures DecodeRow(row) < |row| || (row == [] && DecodeRow(row) == 0)
    decreases |row|
  {
    if row != [] && !row[|row| - 1] { DecodeRowBound(row[..|row| - 1]); }
  }

  /** A decoded model is a well-formed guess. */
  lemma DecodedBound(a: Assignment, k: nat, n: nat)
    requires Shaped(a, k, n) && n > 0
    ensures WellFormed(Decoded(a), k, n)
  {
    forall i | 0 <= i < k ensures Decoded(a)[i] < n {
      DecodeRowBound(a[i]);
    }
  }

  /** Decoding a one-hot row gives back its colour. */
  lemma {:induction false} DecodeOneHot(c: nat, n: nat)
    requires c < n
    ensures DecodeRow(OneHot(c, n)) == c
    decreases n
  {
    var row := OneHot(c, n);
    if c < n - 1 {
      assert row[..n - 1] == OneHot(c, n - 1);
      DecodeOneHot(c, n - 1);
    }
  }

  /** Round trip: decoding the encoding of a well-formed guess gives it back. */
  lemma DecodeEncode(g: seq<nat>, n: nat)
    requires WellFormed(g, |g|, n)
    ensures Decoded(Encode(g, n)) == g
  {
    forall i | 0 <= i < |g| ensures Decoded(Encode(g, n))[i] == g[i] {
      DecodeOneHot(g[i], n);
    }
  }

  /** Round trip: a model with one colour per position is the encoding of the
      guess decoded from it. */
  lemma EncodeDecode(a: Assignment, k: nat, n: nat)
    requires Shaped(a, k, n)
    requires forall i :: 0 <= i < k ==> IsOneHot(a[i])
    ensures Encode(Decoded(a), n) == a
  {
    forall i | 0 <= i < k ensures Encode(Decoded(a), n)[i] == a[i] {
      var c: nat :| c < |a[i]| && a[i] == OneHot(c, |a[i]|);
      DecodeOneHot(c, n);
    }
  }

  /** The number of true entries of a row. */
  function TrueCount(row: seq<bool>): nat
  {
    if row == [] then 0 else TrueCount(row[..|row| - 1]) + (if row[|row| - 1] then 1 else 0)
  }

  lemma {:induction false} RowCount(a: Assignment, i: nat, n: nat)
    requires i < |a| && |a[i]| == n
    ensures Count(Row(i, n), a) == TrueCount(a[i])
    decreases n
  {
    if n > 0 {
      assert Row(i, n)[..n - 1] == Row(i, n - 1);
      assert a[i][..n - 1][..n - 1] == a[i][..n - 1];
      RowCountPrefix(a, i, n - 1);
    }
  }

  lemma {:induction false} RowCountPrefix(a: Assignment, i: nat, m: nat)
    requires i < |a| && m <= |a[i]|
    ensures Count(Row(i, m), a) == TrueCount(a[i][..m])
    decreases m
  {
    if m > 0 {
      assert Row(i, m)[..m - 1] == Row(i, m - 1);
      assert a[i][..m][..m - 1] == a[i][..m - 1];
      RowCountPrefix(a, i, m - 1);
    }
  }

  lemma {:induction false} TrueCountZero(row: seq<bool>)
    ensures TrueCount(row) == 0 <==> forall j :: 0 <= j < |row| ==> !row[j]
    decreases |row|
  {
    if row != [] {
      TrueCountZero(row[..|row| - 1]);
      assert forall j :: 0 <= j < |row| - 1 ==> row[..|row| - 1][j] == row[j];
    }
  }

  /** A row has exactly one true entry iff it is one-hot. */
  lemma {:induction false} TrueCountOne(row: seq<bool>)
    ensures TrueCount(row) == 1 <==> IsOneHot(row)
    decreases |row|
  {
    if row != [] {
      var m := |row| - 1;
      var p := row[..m];
      TrueCountOne(p);
      TrueCountZero(p);
      if TrueCount(row) == 1 {
        if row[m] {
          assert row == OneHot(m, |row|);
        } else {
          var c: nat :| c < |p| && p == OneHot(c, |p|);
          assert row == OneHot(c, |row|);
        }
      }
      if IsOneHot(row) {
        var c: nat :| c < |row| && row == OneHot(c, |row|);
        if c == m {
          assert p == seq(m, j => false);
        } else {
          assert p == OneHot(c, m);
        }
      }
    }
  }

  /** The pairwise clauses hold iff at most one member of `ls` is true. */
  lemma {:induction false} AtMostOneMeaning(ls: seq<Expr>, a: Assignment)
    ensures Eval(And(AtMostOne(ls)), a) <==> Count(ls, a) <= 1
    decreases |ls|
  {
    if ls != [] {
      var rest := ls[1..];
      var heads := seq(|ls| - 1, j requires 0 <= j < |ls| - 1 => Or([Not(ls[0]), Not(ls[j + 1])]));
      AndAppend(heads, AtMostOne(rest), a);
      AtMostOneMeaning(rest, a);
      CountFront(ls, a);
      CountZeroIffNone(rest, a);
      assert Eval(And(heads), a) <==> (Eval(ls[0], a) ==> forall j :: 0 <= j < |rest| ==> !Eval(rest[j], a)) by {
        forall j | 0 <= j < |rest|
          ensures Eval(heads[j], a) <==> !(Eval(ls[0], a) && Eval(rest[j], a))
        {
          var clause := [Not(ls[0]), Not(ls[j + 1])];
          assert heads[j] == Or(clause) && rest[j] == ls[j + 1];
          if !Eval(ls[0], a) { assert Eval(clause[0], a); }
          if !Eval(rest[j], a) { assert Eval(clause[1], a); }
        }
      }
    }
  }

  /** `sum_to_one(ls)` holds iff exactly one member of `ls` is true. */
  lemma SumToOneMeaning(ls: seq<Expr>, a: Assignment)
    ensures Eval(SumToOne(ls), a) <==> Count(ls, a) == 1
  {
    AtMostOneMeaning(ls, a);
    OrIffCountPositive(ls, a);
    var parts := [Or(ls), And(AtMostOne(ls))];
    assert Eval(SumToOne(ls), a) <==> Eval(parts[0], a) && Eval(parts[1], a);
  }

  /** Under a k x n assignment the base constraint holds iff every position
      holds exactly one colour. */
  lemma BaseMeaning(a: Assignment, k: nat, n: nat)
    requires Shaped(a, k, n)
    ensures Eval(And(BaseConstraints(k, n)), a) <==> forall i :: 0 <= i < k ==> IsOneHot(a[i])
  {
    forall i | 0 <= i < k
      ensures Eval(BaseConstraints(k, n)[i], a) <==> IsOneHot(a[i])
    {
      SumToOneMeaning(Row(i, n), a);
      RowCount(a, i, n);
      TrueCountOne(a[i]);
    }
  }

  /** The encoding of a well-formed guess satisfies the base constraint. */
  lemma EncodeSatisfiesBase(g: seq<nat>, k: nat, n: nat)
    requires WellFormed(g, k, n)
    ensures Shaped(Encode(g, n), k, n)
    ensures Eval(And(BaseConstraints(k, n)), Encode(g, n))
  {
    BaseMeaning(Encode(g, n), k, n);
  }

  /** Red terms count the positions where the guess and the encoded secret agree. */
  lemma {:induction false} RedCount(move: seq<nat>, s: seq<nat>, a: Assignment, m: nat, n: nat)
    requires m <= |move| == |s| <= |a|
    requires WellFormed(move, |move|, n) && WellFormed(s, |s|, n)
    requires forall i :: 0 <= i < |s| ==> a[i] == OneHot(s[i], n)
    ensures Count(RedTerms(move, m), a) == Agree(move[..m], s[..m])
    decreases m
  {
    if m > 0 {
      assert RedTerms(move, m)[..m - 1] == RedTerms(move, m - 1);
      assert move[..m][..m - 1] == move[..m - 1] && s[..m][..m - 1] == s[..m - 1];
      RedCount(move, s, a, m - 1, n);
    }
  }

  /** Under the encoding of a secret, the red constraint holds iff exactly
      `red` positions of the move hold the secret's colour. */
  lemma RedCondExact(move: seq<nat>, s: seq<nat>, red: int, k: nat, n: nat)
    requires WellFormed(move, k, n) && WellFormed(s, k, n)
    ensures Eval(RedCond(move, red, k), Encode(s, n)) <==> Agree(move, s) == red
  {
    RedCount(move, s, Encode(s, n), k, n);
    assert move[..k] == move && s[..k] == s;
  }

  /** The presence test of c holds iff some position j < k holds c. */
  lemma {:induction false} PresenceMeaning(c: nat, k: nat, a: Assignment)
    ensures Eval(Presence(c, k), a) <==> exists j :: 0 <= j < k && Eval(Var(j, c), a)
    decreases k
  {
    if k > 0 {
      PresenceMeaning(c, k - 1, a);
      var parts := [Presence(c, k - 1), Var(k - 1, c)];
      assert Presence(c, k) == Or(parts);
      if exists j :: 0 <= j < k && Eval(Var(j, c), a) {
        var j :| 0 <= j < k && Eval(Var(j, c), a);
        if j == k - 1 { assert Eval(parts[1], a); } else { assert Eval(parts[0], a); }
      }
    }
  }

  lemma PresenceEncoded(c: nat, s: seq<nat>, n: nat)
    requires WellFormed(s, |s|, n)
    ensures Eval(Presence(c, |s|), Encode(s, n)) <==> c in s
  {
    PresenceMeaning(c, |s|, Encode(s, n));
    if c in s {
      var j :| 0 <= j < |s| && s[j] == c;
      assert Eval(Var(j, c), Encode(s, n));
    }
  }

  lemma {:induction false} WhiteCount(ls: seq<nat>, s: seq<nat>, n: nat)
    requires WellFormed(s, |s|, n)
    ensures Count(WhiteTerms(ls, |s|), Encode(s, n)) == PresentCount(ls, s)
    decreases |ls|
  {
    if ls != [] {
      var p := ls[..|ls| - 1];
      assert WhiteTerms(ls, |s|)[..|ls| - 1] == WhiteTerms(p, |s|);
      WhiteCount(p, s, n);
      PresenceEncoded(ls[|ls| - 1], s, n);
    }
  }

  /** Under the encoding of a secret, the white constraint holds iff at least
      `whites` guess positions have a colour that occurs in the secret; it
      does not set aside the red matches and has no upper bound. */
  lemma WhiteCondExact(ls: seq<nat>, s: seq<nat>, whites: int, n: nat)
    requires WellFormed(s, |s|, n)
    ensures Eval(WhiteCond(ls, whites, |s|), Encode(s, n)) <==> PresentCount(ls, s) >= whites
  {
    WhiteCount(ls, s, n);
  }

  /** Assignment b makes true at least what a makes true. */
  ghost predicate MoreTrue(a: Assignment, b: Assignment)
  {
    |a| == |b| && forall i, j :: 0 <= i < |a| && 0 <= j < |a[i]| && a[i][j] ==> j < |b[i]| && b[i][j]
  }

  lemma {:induction false} WhiteCountMonotone(ts: seq<nat>, k: nat, a: Assignment, b: Assignment)
    requires MoreTrue(a, b)
    ensures Count(WhiteTerms(ts, k), a) <= Count(WhiteTerms(ts, k), b)
    decreases |ts|
  {
    if ts != [] {
      var p := ts[..|ts| - 1];
      assert WhiteTerms(ts, k)[..|ts| - 1] == WhiteTerms(p, k);
      WhiteCountMonotone(p, k, a, b);
      var c := ts[|ts| - 1];
      PresenceMeaning(c, k, a);
      PresenceMeaning(c, k, b);
      if Eval(Presence(c, k), a) {
        var j :| 0 <= j < k && Eval(Var(j, c), a);
        assert Eval(Var(j, c), b);
      }
    }
  }

  /** Making more colours present never falsifies a white constraint. */
  lemma WhiteMonotone(ls: seq<nat>, whites: int, k: nat, a: Assignment, b: Assignment)
    requires MoreTrue(a, b)
    requires Eval(WhiteCond(ls, whites, k), a)
    ensures Eval(WhiteCond(ls, whites, k), b)
  {
    WhiteCountMonotone(ls, k, a, b);
  }

  /** A white constraint with `whites <= 0` holds under every assignment. */
  lemma WhiteTrivial(ls: seq<nat>, whites: int, k: nat, a: Assignment)
    requires whites <= 0
    ensures Eval(WhiteCond(ls, whites, k), a)
  {
  }

  /** Truthful feedback never excludes the secret: the constraint added for
      the true red and white counts of a move holds under the secret's encoding. */
  lemma TruthfulFeedbackKeepsSecret(move: seq<nat>, s: seq<nat>, k: nat, n: nat)
    requires WellFormed(move, k, n) && WellFormed(s, k, n)
    ensures Eval(FeedbackCons(move, Agree(move, s), Matches(move, s) - Agree(move, s), k), Encode(s, n))
  {
    var red := Agree(move, s);
    var white := Matches(move, s) - red;
    RedCondExact(move, s, red, k, n);
    WhiteCondExact(move, s, white, n);
    AgreeAtMostMatches(move, s);
    MatchesAtMostPresent(move, s);
  }

  /** One response as the engine records it: the move it answered and the
      red and white counts. */
  datatype Feedback = Feedback(move: seq<nat>, red: int, white: int)

  /** Every recorded move is a well-formed guess. */
  predicate LogWellFormed(log: seq<Feedback>, k: nat, n: nat)
  {
    forall t :: 0 <= t < |log| ==> WellFormed(log[t].move, k, n)
  }

  /** The assertion list after the base constraint and one feedback
      constraint per recorded response, in arrival order. */
  function Accumulated(k: nat, n: nat, log: seq<Feedback>): seq<Expr>
    requires LogWellFormed(log, k, n)
  {
    [And(BaseConstraints(k, n))]
      + seq(|log|, t requires 0 <= t < |log| => FeedbackCons(log[t].move, log[t].red, log[t].white, k))
  }

  /** Every response of the log is the true score of its move against `s`. */
  predicate Truthful(log: seq<Feedback>, s: seq<nat>)
  {
    forall t :: 0 <= t < |log| ==>
      |log[t].move| == |s| &&
      log[t].red == Agree(log[t].move, s) &&
      log[t].white == Matches(log[t].move, s) - Agree(log[t].move, s)
  }

  /** Every model of the accumulated formula gives each position exactly one
      colour, so it is the encoding of the guess decoded from it: the decoded
      guess is itself a witness of the formula. */
  lemma DecodedIsWitness(k: nat, n: nat, log: seq<Feedback>, a: Assignment)
    requires LogWellFormed(log, k, n)
    requires Shaped(a, k, n) && Holds(Accumulated(k, n, log), a)
    ensures Encode(Decoded(a), n) == a
    ensures Holds(Accumulated(k, n, log), Encode(Decoded(a), n))
  {
    assert Eval(Accumulated(k, n, log)[0], a);
    BaseMeaning(a, k, n);
    EncodeDecode(a, k, n);
  }

  /** The secret satisfies the accumulated formula as long as every response
      was truthful; so under truthful play the formula is never unsatisfiable. */
  lemma TruthfulPlayKeepsSecret(k: nat, n: nat, log: seq<Feedback>, s: seq<nat>)
    requires LogWellFormed(log, k, n) && WellFormed(s, k, n)
    requires Truthful(log, s)
    ensures Holds(Accumulated(k, n, log), Encode(s, n))
    ensures Satisfiable(Accumulated(k, n, log), k, n)
  {
    var f := Accumulated(k, n, log);
    EncodeSatisfiesBase(s, k, n);
    forall i | 0 <= i < |f| ensures Eval(f[i], Encode(s, n)) {
      if i > 0 {
        var e := log[i - 1];
        assert f[i] == FeedbackCons(e.move, e.red, e.white, k);
        TruthfulFeedbackKeepsSecret(e.move, s, k, n);
      }
    }
  }

  /** A guess satisfying the accumulated formula differs from every recorded
      move whose red count was below k: a guess already known to be wrong is
      never proposed again. */
  lemma WitnessAvoidsWrongMoves(k: nat, n: nat, log: seq<Feedback>, g: seq<nat>, t: nat)
    requires LogWellFormed(log, k, n) && WellFormed(g, k, n)
    requires Holds(Accumulated(k, n, log), Encode(g, n))
    requires t < |log| && log[t].red < k
    ensures g != log[t].move
  {
    var f := Accumulated(k, n, log);
    assert Eval(f[t + 1], Encode(g, n));
    var parts := [WhiteCond(log[t].move, log[t].white, k), RedCond(log[t].move, log[t].red, k)];
    assert Eval(parts[1], Encode(g, n));
    RedCondExact(log[t].move, g, log[t].red, k, n);
    AgreeAllIffEqual(log[t].move, g);
  }
}
