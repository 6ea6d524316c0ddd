/** Boolean and pseudo-Boolean formulas over the placement matrix, as the
    solver sees them, with their meaning under an assignment.  An assertion
    list is what a solver holds: the conjunction of everything added to it. */
module Formula {
  import opened Outcome

  /** A formula built with the solver's constructors.  `Var(i, j)` is the
      placement variable e_i_j ("position i holds colour j"); `PbEq` and
      `PbGe` are pseudo-Boolean constraints with all weights equal to 1. */
  datatype Expr =
    | Lit(b: bool)
    | Var(pos: nat, color: nat)
    | Not(e: Expr)
    | And(es: seq<Expr>)
    | Or(es: seq<Expr>)
    | PbEq(terms: seq<Expr>, target: int)
    | PbGe(terms: seq<Expr>, target: int)

  /** A truth value for every placement variable: row i, column j is e_i_j. */
  type Assignment = seq<seq<bool>>

  /** The assignment gives a value to exactly the variables of a k x n matrix. */
  ghost predicate Shaped(a: Assignment, k: nat, n: nat)
  {
    |a| == k && forall i :: 0 <= i < k ==> |a[i]| == n
  }

  /** Truth of a formula under an assignment. */
  predicate Eval(e: Expr, a: Assignment)
    decreases e, 1
  {
    match e
    case Lit(b) => b
    case Var(i, j) => i < |a| && j < |a[i]| && a[i][j]
    case Not(x) => !Eval(x, a)
    case And(es) => forall i :: 0 <= i < |es| ==> Eval(es[i], a)
    case Or(es) => exists i :: 0 <= i < |es| && Eval(es[i], a)
    case PbEq(ts, t) => Count(ts, a) == t
    case PbGe(ts, t) => Count(ts, a) >= t
  }

  /** The number of formulas of `ts` that are true under `a`. */
  function Count(ts: seq<Expr>, a: Assignment): nat
    decreases ts, 0
  {
    if ts == [] then 0
    else Count(ts[..|ts| - 1], a) + (if Eval(ts[|ts| - 1], a) then 1 else 0)
  }

  /** Every assertion of the list holds. */
  predicate Holds(f: seq<Expr>, a: Assignment)
  {
    forall i :: 0 <= i < |f| ==> Eval(f[i], a)
  }

  /** Some assignment to the k x n matrix satisfies the assertion list. */
  ghost predicate Satisfiable(f: seq<Expr>, k: nat, n: nat)
  {
    exists a :: Shaped(a, k, n) && Holds(f, a)
  }

  /** What a call of the solver's `check` (followed by `model` on success) may
      answer for the assertion list `f`: a satisfying assignment of the k x n
      matrix, or nothing when there is none.  Which model is returned is the
      solver's choice. */
  ghost predicate Answers(f: seq<Expr>, answer: Option<Assignment>, k: nat, n: nat)
  {
    match answer
    case Some(a) => Shaped(a, k, n) && Holds(f, a)
    case None => !Satisfiable(f, k, n)
  }

  /** Count splits over concatenation. */
  lemma {:induction false} CountAppend(x: seq<Expr>, y: seq<Expr>, a: Assignment)
    ensures Count(x + y, a) == Count(x, a) + Count(y, a)
    decreases |y|
  {
    if y == [] {
      assert x + y == x;
    } else {
      var y' := y[..|y| - 1];
      assert (x + y)[..|x + y| - 1] == x + y';
      assert (x + y)[|x + y| - 1] == y[|y| - 1];
      CountAppend(x, y', a);
    }
  }

  /** Count peeled from the front of the list. */
  lemma CountFront(ts: seq<Expr>, a: Assignment)
    requires ts != []
    ensures Count(ts, a) == (if Eval(ts[0], a) then 1 else 0) + Count(ts[1..], a)
  {
    assert ts == [ts[0]] + ts[1..];
    CountAppend([ts[0]], ts[1..], a);
    assert [ts[0]][..0] == [];
  }

  /** A conjunction of two lists holds iff both conjunctions hold. */
  lemma AndAppend(x: seq<Expr>, y: seq<Expr>, a: Assignment)
    ensures Eval(And(x + y), a) <==> Eval(And(x), a) && Eval(And(y), a)
  {
    if Eval(And(x), a) && Eval(And(y), a) {
      forall i | 0 <= i < |x + y| ensures Eval((x + y)[i], a) {
        if i >= |x| { assert (x + y)[i] == y[i - |x|]; }
      }
    }
    if Eval(And(x + y), a) {
      forall i | 0 <= i < |x| ensures Eval(x[i], a) {
        assert (x + y)[i] == x[i];
      }
      forall i | 0 <= i < |y| ensures Eval(y[i], a) {
        assert (x + y)[|x| + i] == y[i];
      }
    }
  }

  /** A disjunction holds iff at least one of its members is true. */
  lemma {:induction false} OrIffCountPositive(ts: seq<Expr>, a: Assignment)
    ensures Eval(Or(ts), a) <==> Count(ts, a) >= 1
    decreases |ts|
  {
    if ts != [] {
      var p := ts[..|ts| - 1];
      OrIffCountPositive(p, a);
      if Eval(Or(p), a) {
        var i :| 0 <= i < |p| && Eval(p[i], a);
        assert ts[i] == p[i];
      }
      if Eval(Or(ts), a) && !Eval(ts[|ts| - 1], a) {
        var i :| 0 <= i < |ts| && Eval(ts[i], a);
        assert p[i] == ts[i];
      }
    }
  }

  /** No member of the list is true iff the count is zero. */
  lemma {:induction false} CountZeroIffNone(ts: seq<Expr>, a: Assignment)
    ensures Count(ts, a) == 0 <==> forall i :: 0 <= i < |ts| ==> !Eval(ts[i], a)
    decreases |ts|
  {
    OrIffCountPositive(ts, a);
  }
}
