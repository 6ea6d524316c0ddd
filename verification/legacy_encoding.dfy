/** The fixed-size guesser of src/test_mastermind_1.py: n = 8 colours, k = 4
    positions, red feedback encoded by one hand-written formula per red count
    (`correct_pos_0` .. `correct_pos_4`) over the four literals
    a, b, c, d = e_0_ls[0], e_1_ls[1], e_2_ls[2], e_3_ls[3]. */
module LegacyEncoding {
  import opened Outcome
  import opened Formula
  import opened Scoring
  import opened Placement

  const Colors: nat := 8
  const Pegs: nat := 4

  /** The literal e_i_ls[i]. */
  function Lit4(ls: seq<nat>, i: nat): Expr
    requires i < |ls|
  {
    Var(i, ls[i])
  }

  /** The number of positions i < 4 whose literal e_i_ls[i] is true. */
  function Hits(ls: seq<nat>, a: Assignment): nat
    requires |ls| == Pegs
  {
    Count(RedTerms(ls, Pegs), a)
  }

  lemma HitsUnfold(ls: seq<nat>, a: Assignment)
    requires |ls| == Pegs
    ensures Hits(ls, a) == (if Eval(Lit4(ls, 0), a) then 1 else 0) + (if Eval(Lit4(ls, 1), a) then 1 else 0)
                         + (if Eval(Lit4(ls, 2), a) then 1 else 0) + (if Eval(Lit4(ls, 3), a) then 1 else 0)
  {
    var t := RedTerms(ls, 4);
    assert t == [Lit4(ls, 0), Lit4(ls, 1), Lit4(ls, 2), Lit4(ls, 3)];
    assert t[..3][..2][..1][..0] == [];
    assert Count(t[..1], a) == (if Eval(Lit4(ls, 0), a) then 1 else 0);
    assert Count(t[..2], a) == Count(t[..1], a) + (if Eval(Lit4(ls, 1), a) then 1 else 0) by {
      assert t[..2][..1] == t[..1];
    }
    assert Count(t[..3], a) == Count(t[..2], a) + (if Eval(Lit4(ls, 2), a) then 1 else 0) by {
      assert t[..3][..2] == t[..2];
    }
    assert t[..4] == t;
  }

  /** `correct_pos_0(ls)`: `A = True` folded with `And(A, Not(vs[i][ls[i]]))`. */
  function CorrectPos0(ls: seq<nat>, m: nat): Expr
    requires m <= |ls|
  {
    if m == 0 then Lit(true) else And([CorrectPos0(ls, m - 1), Not(Var(m - 1, ls[m - 1]))])
  }

  /** `correct_pos_4(ls)`: `A = True` folded with `And(A, vs[i][ls[i]])`. */
  function CorrectPos4(ls: seq<nat>, m: nat): Expr
    requires m <= |ls|
  {
    if m == 0 then Lit(true) else And([CorrectPos4(ls, m - 1), Var(m - 1, ls[m - 1])])
  }

  /** `correct_pos_1(ls)` as written: the four "exactly this one" terms and two
      extra terms `And(a, Not(b))` and `And(b, Not(a))`. */
  function CorrectPos1(ls: seq<nat>): Expr
    requires |ls| == Pegs
  {
    var a, b, c, d := Lit4(ls, 0), Lit4(ls, 1), Lit4(ls, 2), Lit4(ls, 3);
    Or([And([a, Not(b), Not(c), Not(d)]),
        And([b, Not(a), Not(c), Not(d)]),
        And([c, Not(b), Not(a), Not(d)]),
        And([d, Not(b), Not(c), Not(a)]),
        And([a, Not(b)]),
        And([b, Not(a)])])
  }

  /** `correct_pos_1` without the two extra terms: exactly one literal true. */
  function CorrectPos1Exact(ls: seq<nat>): Expr
    requires |ls| == Pegs
  {
    var a, b, c, d := Lit4(ls, 0), Lit4(ls, 1), Lit4(ls, 2), Lit4(ls, 3);
    Or([And([a, Not(b), Not(c), Not(d)]),
        And([b, Not(a), Not(c), Not(d)]),
        And([c, Not(b), Not(a), Not(d)]),
        And([d, Not(b), Not(c), Not(a)])])
  }

  /** `correct_pos_2(ls)`: one term per pair of true literals. */
  function CorrectPos2(ls: seq<nat>): Expr
    requires |ls| == Pegs
  {
    var a, b, c, d := Lit4(ls, 0), Lit4(ls, 1), Lit4(ls, 2), Lit4(ls, 3);
    Or([And([a, b, Not(c), Not(d)]),
        And([a, c, Not(b), Not(d)]),
        And([c, b, Not(a), Not(d)]),
        And([a, d, Not(b), Not(c)]),
        And([d, b, Not(c), Not(a)]),
        And([c, d, Not(b), Not(a)])])
  }

  /** `correct_pos_3(ls)`: one term per false literal. */
  function CorrectPos3(ls: seq<nat>): Expr
    requires |ls| == Pegs
  {
    var a, b, c, d := Lit4(ls, 0), Lit4(ls, 1), Lit4(ls, 2), Lit4(ls, 3);
    Or([And([a, b, c, Not(d)]),
        And([a, b, d, Not(c)]),
        And([a, d, c, Not(b)]),
        And([d, b, c, Not(a)])])
  }

  lemma And2(x: Expr, y: Expr, a: Assignment)
    ensures Eval(And([x, y]), a) <==> Eval(x, a) && Eval(y, a)
  {
    var l := [x, y];
    if Eval(And(l), a) {
      assert Eval(l[0], a) && Eval(l[1], a);
    }
  }

  lemma And4(x: Expr, y: Expr, z: Expr, w: Expr, a: Assignment)
    ensures Eval(And([x, y, z, w]), a) <==> Eval(x, a) && Eval(y, a) && Eval(z, a) && Eval(w, a)
  {
    var l := [x, y, z, w];
    if Eval(And(l), a) {
      assert Eval(l[0], a) && Eval(l[1], a) && Eval(l[2], a) && Eval(l[3], a);
    }
  }

  lemma Or4(l: seq<Expr>, a: Assignment)
    requires |l| == 4
    ensures Eval(Or(l), a) <==> Eval(l[0], a) || Eval(l[1], a) || Eval(l[2], a) || Eval(l[3], a)
  {
  }

  lemma Or6(l: seq<Expr>, a: Assignment)
    requires |l| == 6
    ensures Eval(Or(l), a) <==> (Eval(l[0], a) || Eval(l[1], a) || Eval(l[2], a)
                                 || Eval(l[3], a) || Eval(l[4], a) || Eval(l[5], a))
  {
  }

  /** The folds of `correct_pos_0` and `correct_pos_4` over the first m positions. */
  lemma {:induction false} FoldsMeaning(ls: seq<nat>, m: nat, a: Assignment)
    requires m <= |ls|
    ensures Eval(CorrectPos0(ls, m), a) <==> forall i :: 0 <= i < m ==> !Eval(Var(i, ls[i]), a)
    ensures Eval(CorrectPos4(ls, m), a) <==> forall i :: 0 <= i < m ==> Eval(Var(i, ls[i]), a)
    decreases m
  {
    if m > 0 {
      FoldsMeaning(ls, m - 1, a);
      And2(CorrectPos0(ls, m - 1), Not(Var(m - 1, ls[m - 1])), a);
      And2(CorrectPos4(ls, m - 1), Var(m - 1, ls[m - 1]), a);
    }
  }

  /** `correct_pos_0` holds iff no position is red; `correct_pos_4` iff all are. */
  lemma CorrectPos0And4Exact(ls: seq<nat>, a: Assignment)
    requires |ls| == Pegs
    ensures Eval(CorrectPos0(ls, Pegs), a) <==> Hits(ls, a) == 0
    ensures Eval(CorrectPos4(ls, Pegs), a) <==> Hits(ls, a) == 4
  {
    FoldsMeaning(ls, Pegs, a);
    HitsUnfold(ls, a);
    assert forall i :: 0 <= i < 4 ==> Var(i, ls[i]) == Lit4(ls, i);
  }

  /** `correct_pos_2` holds iff exactly two positions are red. */
  lemma CorrectPos2Exact(ls: seq<nat>, a: Assignment)
    requires |ls| == Pegs
    ensures Eval(CorrectPos2(ls), a) <==> Hits(ls, a) == 2
  {
    HitsUnfold(ls, a);
    var x, y, z, w := Lit4(ls, 0), Lit4(ls, 1), Lit4(ls, 2), Lit4(ls, 3);
    var l := [And([x, y, Not(z), Not(w)]), And([x, z, Not(y), Not(w)]), And([z, y, Not(x), Not(w)]),
              And([x, w, Not(y), Not(z)]), And([w, y, Not(z), Not(x)]), And([z, w, Not(y), Not(x)])];
    assert CorrectPos2(ls) == Or(l);
    Or6(l, a);
    And4(x, y, Not(z), Not(w), a);
    And4(x, z, Not(y), Not(w), a);
    And4(z, y, Not(x), Not(w), a);
    And4(x, w, Not(y), Not(z), a);
    And4(w, y, Not(z), Not(x), a);
    And4(z, w, Not(y), Not(x), a);
  }

  /** `correct_pos_3` holds iff exactly three positions are red. */
  lemma CorrectPos3Exact(ls: seq<nat>, a: Assignment)
    requires |ls| == Pegs
    ensures Eval(CorrectPos3(ls), a) <==> Hits(ls, a) == 3
  {
    HitsUnfold(ls, a);
    var x, y, z, w := Lit4(ls, 0), Lit4(ls, 1), Lit4(ls, 2), Lit4(ls, 3);
    var l := [And([x, y, z, Not(w)]), And([x, y, w, Not(z)]), And([x, w, z, Not(y)]), And([w, y, z, Not(x)])];
    assert CorrectPos3(ls) == Or(l);
    Or4(l, a);
    And4(x, y, z, Not(w), a);
    And4(x, y, w, Not(z), a);
    And4(x, w, z, Not(y), a);
    And4(w, y, z, Not(x), a);
  }

  /** The first four terms of `correct_pos_1`: exactly one position is red. */
  lemma CorrectPos1ExactMeaning(ls: seq<nat>, a: Assignment)
    requires |ls| == Pegs
    ensures Eval(CorrectPos1Exact(ls), a) <==> Hits(ls, a) == 1
  {
    HitsUnfold(ls, a);
    var x, y, z, w := Lit4(ls, 0), Lit4(ls, 1), Lit4(ls, 2), Lit4(ls, 3);
    var l := [And([x, Not(y), Not(z), Not(w)]), And([y, Not(x), Not(z), Not(w)]),
              And([z, Not(y), Not(x), Not(w)]), And([w, Not(y), Not(z), Not(x)])];
    assert CorrectPos1Exact(ls) == Or(l);
    Or4(l, a);
    And4(x, Not(y), Not(z), Not(w), a);
    And4(y, Not(x), Not(z), Not(w), a);
    And4(z, Not(y), Not(x), Not(w), a);
    And4(w, Not(y), Not(z), Not(x), a);
  }

  /** `correct_pos_1` as written accepts every "exactly one red" model ... */
  lemma CorrectPos1AsWrittenImplied(ls: seq<nat>, a: Assignment)
    requires |ls| == Pegs
    requires Hits(ls, a) == 1
    ensures Eval(CorrectPos1(ls), a)
  {
    CorrectPos1ExactMeaning(ls, a);
    var l := CorrectPos1(ls).es;
    assert CorrectPos1Exact(ls) == Or(l[..4]);
    var i :| 0 <= i < 4 && Eval(l[..4][i], a);
    assert Eval(l[i], a);
  }

  /** ... but also the guess [0, 1, 2, 3] against the secret [0, 5, 2, 3]:
      a true, b false, c and d true, three reds, accepted through the extra
      term `And(a, Not(b))`. */
  lemma CorrectPos1AsWrittenAdmitsThreeReds()
    ensures Hits([0, 1, 2, 3], Encode([0, 5, 2, 3], Colors)) == 3
    ensures Eval(CorrectPos1([0, 1, 2, 3]), Encode([0, 5, 2, 3], Colors))
  {
    var ls: seq<nat> := [0, 1, 2, 3];
    var e := Encode([0, 5, 2, 3], Colors);
    HitsUnfold(ls, e);
    assert Eval(Lit4(ls, 0), e) && !Eval(Lit4(ls, 1), e) && Eval(Lit4(ls, 2), e) && Eval(Lit4(ls, 3), e);
    var l := CorrectPos1(ls).es;
    And2(Lit4(ls, 0), Not(Lit4(ls, 1)), e);
    assert Eval(l[4], e);
  }

  /** The red constraint chosen by the `if reds == 0 ... elif reds == 4`
      chain of `add_a_guess_solution`, with `correct_pos_1` as written; no
      constraint (the local `cons` stays unbound) for other counts. */
  function RedCons(guess: seq<nat>, reds: int): Option<Expr>
    requires |guess| == Pegs
  {
    if reds == 0 then Some(CorrectPos0(guess, Pegs))
    else if reds == 1 then Some(CorrectPos1(guess))
    else if reds == 2 then Some(CorrectPos2(guess))
    else if reds == 3 then Some(CorrectPos3(guess))
    else if reds == 4 then Some(CorrectPos4(guess, Pegs))
    else None
  }

  /** The same chain with `correct_pos_1` in its intended form. */
  function RedConsIntended(guess: seq<nat>, reds: int): Option<Expr>
    requires |guess| == Pegs
  {
    if reds == 1 then Some(CorrectPos1Exact(guess)) else RedCons(guess, reds)
  }

  /** As written, the chain means what the general engines' `PbEq` means
      (exactly `reds` positions are red) for 0, 2, 3 and 4 reds; for one red
      it is only implied by it, and CorrectPos1AsWrittenAdmitsThreeReds shows
      it is strictly weaker. */
  lemma RedConsAsWritten(guess: seq<nat>, reds: int, a: Assignment)
    requires |guess| == Pegs
    ensures RedCons(guess, reds).Some? <==> 0 <= reds <= 4
    ensures RedCons(guess, reds).Some? && reds != 1 ==>
              (Eval(RedCons(guess, reds).value, a) <==> Eval(RedCond(guess, reds, Pegs), a))
    ensures reds == 1 && Eval(RedCond(guess, reds, Pegs), a) ==> Eval(RedCons(guess, reds).value, a)
  {
    CorrectPos0And4Exact(guess, a);
    CorrectPos2Exact(guess, a);
    CorrectPos3Exact(guess, a);
    if reds == 1 && Hits(guess, a) == 1 {
      CorrectPos1AsWrittenImplied(guess, a);
    }
  }

  /** With the intended `correct_pos_1` the chain means exactly the `PbEq`
      for every red count it accepts. */
  lemma RedConsIntendedExact(guess: seq<nat>, reds: int, a: Assignment)
    requires |guess| == Pegs
    ensures RedConsIntended(guess, reds).Some? <==> 0 <= reds <= 4
    ensures RedConsIntended(guess, reds).Some? ==>
              (Eval(RedConsIntended(guess, reds).value, a) <==> Eval(RedCond(guess, reds, Pegs), a))
  {
    CorrectPos0And4Exact(guess, a);
    CorrectPos1ExactMeaning(guess, a);
    CorrectPos2Exact(guess, a);
    CorrectPos3Exact(guess, a);
  }

  /** The bug in play: after the guess [0, 1, 2, 3] is answered with one red
      and no white (a response `get_response` accepts), the constraint
      `add_a_guess_solution` adds still holds at [0, 5, 2, 3], which scores
      three reds against that guess, so the solver may propose it next. */
  lemma AsWrittenGameAdmitsThreeReds()
    ensures GetResponse(1, 0) == Ok((1, 0))
    ensures RedCons([0, 1, 2, 3], 1).Some?
    ensures Eval(And([WhiteCond([0, 1, 2, 3], 0, Pegs), RedCons([0, 1, 2, 3], 1).value]), Encode([0, 5, 2, 3], Colors))
    ensures Agree([0, 1, 2, 3], [0, 5, 2, 3]) == 3
  {
    var e := Encode([0, 5, 2, 3], Colors);
    CorrectPos1AsWrittenAdmitsThreeReds();
    WhiteTrivial([0, 1, 2, 3], 0, Pegs, e);
    And2(WhiteCond([0, 1, 2, 3], 0, Pegs), RedCons([0, 1, 2, 3], 1).value, e);
    var g: seq<int>, s: seq<int> := [0, 1, 2, 3], [0, 5, 2, 3];
    assert g[..3] == [0, 1, 2] && s[..3] == [0, 5, 2];
    assert g[..3][..2] == [0, 1] && s[..3][..2] == [0, 5];
    assert g[..3][..2][..1] == [0] && s[..3][..2][..1] == [0];
    assert Agree([0], [0]) == 1;
    assert Agree([0, 1], [0, 5]) == 1;
    assert Agree([0, 1, 2], [0, 5, 2]) == 2;
  }

  /** `get_response()` once the two counts are read: reject red + white > k. */
  function GetResponse(red: int, white: int): Result<(int, int)>
  {
    if white + red > Pegs then Err(BadInput) else Ok((red, white))
  }

  /** A truthful scorer's response always passes the check. */
  lemma TruthfulResponseAccepted(g: seq<int>, s: seq<int>)
    requires |g| == |s| == Pegs
    ensures GetResponse(Agree(g, s), Matches(g, s) - Agree(g, s)) == Ok((Agree(g, s), Matches(g, s) - Agree(g, s)))
  {
    MatchesAtMostLength(g, s);
  }

  /** The module-level solver `s` of the script. */
  class Game {
    var solver: seq<Expr>

    /** The solver starts with the base constraint, and later additions only
        append to it. */
    predicate Valid()
      reads this
    {
      |solver| > 0 && solver[0] == And(BaseConstraints(Pegs, Colors))
    }

    /** The module-level set-up: one `sum_to_one` per row of the 4 x 8 matrix. */
    constructor ()
      ensures Valid()
      ensures solver == [And(BaseConstraints(Pegs, Colors))]
    {
      solver := [And(BaseConstraints(Pegs, Colors))];
    }

    /** `add_a_guess_solution(guess, reds, whites)`: add
        `And(white_cond(guess, whites), cons)`, or fail with
        `UnboundLocalError` when `reds` is outside 0..4. */
    method AddAGuessSolution(guess: seq<nat>, reds: int, whites: int) returns (r: Result<()>)
      requires Valid() && WellFormed(guess, Pegs, Colors)
      modifies this
      ensures Valid()
      ensures r.Ok? <==> 0 <= reds <= 4
      ensures r.Ok? ==> solver == old(solver) + [And([WhiteCond(guess, whites, Pegs), RedCons(guess, reds).value])]
      ensures r.Err? ==> r == Err(UnboundLocalError) && solver == old(solver)
    {
      var cons := RedCons(guess, reds);
      var guessCons := WhiteCond(guess, whites, Pegs);
      if cons.None? {
        return Err(UnboundLocalError);
      }
      solver := solver + [And([guessCons, cons.value])];
      r := Ok(());
    }

    /** `get_a_solution()`, with the outcome of `s.check()`/`s.model()` given
        as `answer`: the last true colour of every row, or `Failed`. */
    method GetASolution(answer: Option<Assignment>) returns (r: Result<seq<nat>>)
      requires Valid() && Answers(solver, answer, Pegs, Colors)
      ensures answer.None? <==> r == Err(Failed)
      ensures r.Ok? ==> r.value == Decoded(answer.value)
      ensures r.Ok? ==> WellFormed(r.value, Pegs, Colors) && Holds(solver, Encode(r.value, Colors))
    {
      match answer {
        case Some(a) =>
          var sol := Decode(a, Pegs, Colors);
          BaseMeaning(a, Pegs, Colors);
          EncodeDecode(a, Pegs, Colors);
          r := Ok(sol);
        case None =>
          r := Err(Failed);
      }
    }
  }
}
