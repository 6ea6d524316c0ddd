/** The guess engine of src/mastermind_new.py.  Besides the solver it keeps
    `list_cons`, the list of every constraint ever added.  Its recovery path
    rebuilds the solver from `list_cons` and drops the last guess and the last
    response, but `list_cons` itself keeps the contradicting constraint, and
    the branch then raises `UnboundLocalError` at `inc += 1` (`inc` is not
    declared global there), so no guess is produced. */
module RollbackEngine {
  import opened Outcome
  import opened Formula
  import opened Placement

  class Engine {
    var k: nat
    var n: nat
    var move: seq<nat>
    var guessList: seq<seq<nat>>
    var responseList: seq<(int, int)>
    var listCons: seq<Expr>
    var solver: seq<Expr>
    /** The moves and responses behind the feedback constraints of `listCons`. */
    ghost var log: seq<Feedback>

    ghost predicate Valid()
      reads this
    {
      && n > 0
      && LogWellFormed(log, k, n)
      && listCons == Accumulated(k, n, log)
      && solver == listCons
      && (forall t :: 0 <= t < |guessList| ==> WellFormed(guessList[t], k, n))
    }

    /** `initialize(n, k)` on a freshly loaded module: `list_cons` and the
        solver both hold the conjunction of the per-row `sum_to_one`s. */
    constructor Initialize(n_: nat, k_: nat)
      requires n_ > 0
      ensures Valid()
      ensures k == k_ && n == n_
      ensures listCons == [And(BaseConstraints(k_, n_))] && solver == listCons
      ensures guessList == [] && responseList == [] && move == [] && log == []
    {
      k, n := k_, n_;
      move, guessList, responseList := [], [], [];
      listCons := [And(BaseConstraints(k_, n_))];
      solver := listCons;
      log := [];
    }

    /** `put_first_player_response(red, white)`: one new response, one new
        entry of `list_cons`, the same constraint added to the solver. */
    method PutFirstPlayerResponse(red: int, white: int)
      requires Valid() && WellFormed(move, k, n)
      modifies this
      ensures Valid()
      ensures k == old(k) && n == old(n) && move == old(move) && guessList == old(guessList)
      ensures responseList == old(responseList) + [(red, white)]
      ensures listCons == old(listCons) + [FeedbackCons(move, red, white, k)]
      ensures solver == listCons
      ensures log == old(log) + [Feedback(move, red, white)]
    {
      responseList := responseList + [(red, white)];
      log := log + [Feedback(move, red, white)];
      listCons := listCons + [FeedbackCons(move, red, white, k)];
      solver := solver + [FeedbackCons(move, red, white, k)];
      assert listCons == Accumulated(k, n, log);
    }

    /** The replay loop of the recovery branch: `s.reset()` and then
        `s.add(list_cons[i])` for every i in order. */
    method Replay()
      requires Valid()
      modifies this`solver
      ensures Valid()
      ensures solver == listCons
    {
      solver := [];
      var i := 0;
      while i < |listCons|
        invariant 0 <= i <= |listCons|
        invariant solver == listCons[..i]
      {
        solver := solver + [listCons[i]];
        i := i + 1;
      }
    }

    /** `get_a_solution()`, with the outcome of `s.check()`/`s.model()` given
        as `answer`.  On a model, the decoded guess and no change of state.
        Without one, the solver is rebuilt from `list_cons` (the same, still
        unsatisfiable formula), the last guess and the last response are
        popped, and the call fails: with `IndexError` when a list to pop is
        empty, otherwise with `UnboundLocalError` at `inc += 1`. */
    method GetASolution(answer: Option<Assignment>) returns (r: Result<seq<nat>>)
      requires Valid() && Answers(solver, answer, k, n)
      modifies this
      ensures Valid()
      ensures k == old(k) && n == old(n) && move == old(move)
      ensures listCons == old(listCons) && solver == old(solver) && log == old(log)
      ensures answer.Some? ==> r == Ok(Decoded(answer.value)) && WellFormed(r.value, k, n)
                               && Holds(solver, Encode(r.value, n))
                               && guessList == old(guessList) && responseList == old(responseList)
      ensures answer.None? ==> r.Err? && !Satisfiable(solver, k, n)
      ensures answer.None? && old(guessList) == [] ==>
                r == Err(IndexError) && guessList == [] && responseList == old(responseList)
      ensures answer.None? && old(guessList) != [] ==>
                guessList == old(guessList)[..|old(guessList)| - 1]
      ensures answer.None? && old(guessList) != [] && old(responseList) == [] ==>
                r == Err(IndexError) && responseList == []
      ensures answer.None? && old(guessList) != [] && old(responseList) != [] ==>
                r == Err(UnboundLocalError)
                && responseList == old(responseList)[..|old(responseList)| - 1]
    {
      match answer {
        case Some(a) =>
          var sol := Decode(a, k, n);
          DecodedIsWitness(k, n, log, a);
          r := Ok(sol);
        case None =>
          Replay();
          if guessList == [] {
            return Err(IndexError);
          }
          guessList := guessList[..|guessList| - 1];
          if responseList == [] {
            return Err(IndexError);
          }
          responseList := responseList[..|responseList| - 1];
          r := Err(UnboundLocalError);
      }
    }

    /** `get_second_player_move()`: the all-zero guess first, a solver witness
        afterwards, appended to `guess_list`; a failure of `get_a_solution`
        propagates, after it has popped the last guess and the last response,
        and leaves `move` unchanged. */
    method GetSecondPlayerMove(answer: Option<Assignment>) returns (r: Result<seq<nat>>)
      requires Valid()
      requires guessList != [] ==> Answers(solver, answer, k, n)
      modifies this
      ensures Valid()
      ensures k == old(k) && n == old(n)
      ensures listCons == old(listCons) && solver == old(solver) && log == old(log)
      ensures r.Ok? ==> WellFormed(r.value, k, n) && move == r.value
                        && guessList == old(guessList) + [r.value]
                        && responseList == old(responseList)
      ensures old(guessList) == [] ==> r == Ok(Zeros(k))
      ensures old(guessList) != [] && answer.Some? ==>
                r == Ok(Decoded(answer.value)) && Holds(solver, Encode(r.value, n))
      ensures old(guessList) != [] && answer.None? ==>
                r.Err? && move == old(move) && !Satisfiable(solver, k, n)
                && guessList == old(guessList)[..|old(guessList)| - 1]
      ensures old(guessList) != [] && answer.None? && old(responseList) == [] ==>
                r == Err(IndexError) && responseList == []
      ensures old(guessList) != [] && answer.None? && old(responseList) != [] ==>
                r == Err(UnboundLocalError)
                && responseList == old(responseList)[..|old(responseList)| - 1]
    {
      var m: seq<nat>;
      if guessList == [] {
        m := Zeros(k);
      } else {
        r := GetASolution(answer);
        if r.Err? {
          return;
        }
        m := r.value;
      }
      move := m;
      guessList := guessList + [m];
      r := Ok(m);
    }
  }
}
