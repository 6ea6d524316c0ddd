/** The guess engine of src/mastermind.py.  A response is turned into
    constraints by `add_a_guess_solution`; an unsatisfiable formula makes
    `get_a_solution` raise `Exception('Failed!')`, with no recovery.  This
    variant never appends to `response_list`, so that list is not a field. */
module RaisingEngine {
  import opened Outcome
  import opened Formula
  import opened Placement

  class Engine {
    var k: nat
    var n: nat
    var move: seq<nat>
    var guessList: seq<seq<nat>>
    var solver: seq<Expr>
    /** The guesses and responses behind the feedback constraints in `solver`. */
    ghost var log: seq<Feedback>

    ghost predicate Valid()
      reads this
    {
      && n > 0
      && LogWellFormed(log, k, n)
      && solver == Accumulated(k, n, log)
      && (forall t :: 0 <= t < |guessList| ==> WellFormed(guessList[t], k, n))
    }

    /** `initialize(n, k)` on a freshly loaded module. */
    constructor Initialize(n_: nat, k_: nat)
      requires n_ > 0
      ensures Valid()
      ensures k == k_ && n == n_
      ensures solver == [And(BaseConstraints(k_, n_))]
      ensures guessList == [] && move == [] && log == []
    {
      k, n := k_, n_;
      move, guessList := [], [];
      solver := [And(BaseConstraints(k_, n_))];
      log := [];
    }

    /** `add_a_guess_solution(guess, reds, whites)`: conjoin the red `PbEq`
        and the white `PbGe` for `guess`. */
    method AddAGuessSolution(guess: seq<nat>, reds: int, whites: int)
      requires Valid() && WellFormed(guess, k, n)
      modifies this`solver, this`log
      ensures Valid()
      ensures solver == old(solver) + [FeedbackCons(guess, reds, whites, k)]
      ensures log == old(log) + [Feedback(guess, reds, whites)]
    {
      log := log + [Feedback(guess, reds, whites)];
      solver := solver + [FeedbackCons(guess, reds, whites, k)];
      assert solver == Accumulated(k, n, log);
    }

    /** `put_first_player_response(red, white)` is `add_a_guess_solution`
        applied to the current move. */
    method PutFirstPlayerResponse(red: int, white: int)
      requires Valid() && WellFormed(move, k, n)
      modifies this`solver, this`log
      ensures Valid()
      ensures solver == old(solver) + [FeedbackCons(move, red, white, k)]
      ensures log == old(log) + [Feedback(move, red, white)]
    {
      AddAGuessSolution(move, red, white);
    }

    /** `get_a_solution()`, with the outcome of `s.check()`/`s.model()` given
        as `answer`: the decoded witness, which also becomes `move`, or the
        exception `Failed` with nothing changed. */
    method GetASolution(answer: Option<Assignment>) returns (r: Result<seq<nat>>)
      requires Valid() && Answers(solver, answer, k, n)
      modifies this`move
      ensures Valid()
      ensures answer.Some? ==> r == Ok(Decoded(answer.value)) && move == r.value
                               && WellFormed(r.value, k, n) && Holds(solver, Encode(r.value, n))
      ensures answer.None? ==> r == Err(Failed) && move == old(move)
    {
      match answer {
        case Some(a) =>
          var sol := Decode(a, k, n);
          DecodedIsWitness(k, n, log, a);
          move := sol;
          r := Ok(sol);
        case None =>
          r := Err(Failed);
      }
    }

    /** `get_second_player_move()`: the all-zero guess first, a solver witness
        afterwards, appended to `guess_list`; `Failed` propagates. */
    method GetSecondPlayerMove(answer: Option<Assignment>) returns (r: Result<seq<nat>>)
      requires Valid()
      requires guessList != [] ==> Answers(solver, answer, k, n)
      modifies this`move, this`guessList
      ensures Valid()
      ensures r.Ok? ==> WellFormed(r.value, k, n) && move == r.value
                        && guessList == old(guessList) + [r.value]
      ensures r.Err? ==> r == Err(Failed) && move == old(move) && guessList == old(guessList)
      ensures old(guessList) == [] ==> r == Ok(Zeros(k))
      ensures old(guessList) != [] && answer.Some? ==>
                r == Ok(Decoded(answer.value)) && Holds(solver, Encode(r.value, n))
      ensures old(guessList) != [] && answer.None? ==> r == Err(Failed)
    {
      var m: seq<nat>;
      if guessList == [] {
        m := Zeros(k);
      } else {
        r := GetASolution(answer);
        if r.Err? {
          return;
        }
        m := r.value;
      }
      move := m;
      guessList := guessList + [m];
      r := Ok(m);
    }
  }
}
