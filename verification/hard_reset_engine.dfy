/** The guess engine of 190100036_190100044_190100055/mastermind.py.  Its
    module globals (`k`, `n`, `move`, `guess_list`, `response_list`,
    `base_cons` and the solver `s`) are the fields of `Engine`; the solver is
    the list of assertions added to it.  When the accumulated formula is
    unsatisfiable the engine resets itself to the base constraint and starts
    again from the all-zero guess. */
module HardResetEngine {
  import opened Outcome
  import opened Formula
  import opened Scoring
  import opened Placement

  class Engine {
    var k: nat
    var n: nat
    var move: seq<nat>
    var guessList: seq<seq<nat>>
    var responseList: seq<(int, int)>
    var baseCons: seq<Expr>
    var solver: seq<Expr>
    /** The moves and responses behind the feedback constraints in `solver`. */
    ghost var log: seq<Feedback>

    ghost predicate Valid()
      reads this
    {
      && n > 0
      && baseCons == BaseConstraints(k, n)
      && LogWellFormed(log, k, n)
      && solver == Accumulated(k, n, log)
      && |responseList| == |log|
      && (forall t :: 0 <= t < |log| ==> responseList[t] == (log[t].red, log[t].white))
      && (forall t :: 0 <= t < |guessList| ==> WellFormed(guessList[t], k, n))
      && (guessList != [] ==> move == guessList[|guessList| - 1])
    }

    /** `initialize(n, k)` on a freshly loaded module: a k x n matrix and a
        solver holding one `sum_to_one` per row. */
    constructor Initialize(n_: nat, k_: nat)
      requires n_ > 0
      ensures Valid()
      ensures k == k_ && n == n_
      ensures solver == [And(BaseConstraints(k_, n_))]
      ensures guessList == [] && responseList == [] && move == [] && log == []
    {
      k, n := k_, n_;
      move, guessList, responseList := [], [], [];
      baseCons := BaseConstraints(k_, n_);
      solver := [And(baseCons)];
      log := [];
    }

    /** `put_first_player_response(red, white)`: record the response and add
        the red and white constraints for the current move. */
    method PutFirstPlayerResponse(red: int, white: int)
      requires Valid() && WellFormed(move, k, n)
      modifies this
      ensures Valid()
      ensures k == old(k) && n == old(n) && move == old(move) && guessList == old(guessList)
      ensures baseCons == old(baseCons)
      ensures responseList == old(responseList) + [(red, white)]
      ensures solver == old(solver) + [FeedbackCons(move, red, white, k)]
      ensures log == old(log) + [Feedback(move, red, white)]
    {
      responseList := responseList + [(red, white)];
      log := log + [Feedback(move, red, white)];
      solver := solver + [FeedbackCons(move, red, white, k)];
      assert solver == Accumulated(k, n, log);
    }

    /** `get_a_solution()`, with the outcome of `s.check()`/`s.model()` given
        as `answer`.  On a model, the decoded guess; otherwise the solver is
        reset to the base constraint, both lists are emptied and the all-zero
        guess is returned. */
    method GetASolution(answer: Option<Assignment>) returns (sol: seq<nat>)
      requires Valid() && Answers(solver, answer, k, n)
      modifies this
      ensures Valid()
      ensures WellFormed(sol, k, n)
      ensures k == old(k) && n == old(n) && move == old(move) && baseCons == old(baseCons)
      ensures answer.Some? ==> sol == Decoded(answer.value) && Holds(solver, Encode(sol, n))
      ensures answer.Some? ==> solver == old(solver) && guessList == old(guessList)
                               && responseList == old(responseList) && log == old(log)
      ensures answer.None? ==> sol == Zeros(k) && solver == [And(baseCons)]
                               && guessList == [] && responseList == [] && log == []
    {
      match answer {
        case Some(a) =>
          sol := Decode(a, k, n);
          DecodedIsWitness(k, n, log, a);
        case None =>
          solver := [And(baseCons)];
          guessList := [];
          responseList := [];
          log := [];
          sol := Zeros(k);
      }
    }

    /** `get_second_player_move()`: the all-zero guess first, a solver witness
        afterwards; every move is appended to `guess_list`. */
    method GetSecondPlayerMove(answer: Option<Assignment>) returns (m: seq<nat>)
      requires Valid()
      requires guessList != [] ==> Answers(solver, answer, k, n)
      modifies this
      ensures Valid()
      ensures WellFormed(m, k, n) && move == m
      ensures k == old(k) && n == old(n) && baseCons == old(baseCons)
      ensures old(guessList) == [] ==> m == Zeros(k) && guessList == [m]
                                       && solver == old(solver) && responseList == old(responseList) && log == old(log)
      ensures old(guessList) != [] && answer.Some? ==>
                m == Decoded(answer.value) && Holds(solver, Encode(m, n))
                && guessList == old(guessList) + [m]
                && solver == old(solver) && responseList == old(responseList) && log == old(log)
      ensures old(guessList) != [] && answer.None? ==>
                m == Zeros(k) && guessList == [Zeros(k)]
                && solver == [And(BaseConstraints(k, n))] && responseList == [] && log == []
    {
      if guessList == [] {
        m := Zeros(k);
      } else {
        m := GetASolution(answer);
      }
      move := m;
      guessList := guessList + [m];
    }
  }
}
