/** The solver, seen from its clients: a total oracle about the assignments that satisfy a
    conjunction of constraints. */
module Solvers {
  import opened Exprs
  import opened Constraints

  datatype Validity = True | False | Unknown

  /** Answers to the four kinds of query. */
  datatype Solver = Solver(
    evaluate: (seq<Expr>, Expr) -> Validity,
    mayBeTrue: (seq<Expr>, Expr) -> bool,
    mustBeTrue: (seq<Expr>, Expr) -> bool,
    getValue: (seq<Expr>, Expr) -> nat)

  ghost predicate Possible(cs: seq<Expr>, e: Expr) {
    exists a :: Satisfies(cs, a) && Holds(e, a)
  }

  ghost predicate Certain(cs: seq<Expr>, e: Expr) {
    forall a :: Satisfies(cs, a) ==> Holds(e, a)
  }

  ghost predicate PossibleValue(cs: seq<Expr>, e: Expr, v: nat) {
    exists a :: Satisfies(cs, a) && Eval(e, a) == v
  }

  /** A condition may be settled one way or the other, or open. */
  ghost function Truth(cs: seq<Expr>, e: Expr): (v: Validity) {
    if Certain(cs, e) then True else if Possible(cs, e) then Unknown else False
  }

  /** Every query about satisfiable constraints gets the true answer. */
  ghost predicate Exact(s: Solver) {
    forall cs, e :: Satisfiable(cs) ==>
      && s.evaluate(cs, e) == Truth(cs, e)
      && s.mayBeTrue(cs, e) == Possible(cs, e)
      && s.mustBeTrue(cs, e) == Certain(cs, e)
      && PossibleValue(cs, e, s.getValue(cs, e))
  }
}
