/** The path condition of a state: a conjunction that is simplified when a constraint is
    added and rewritten in place when the constraint is an equality with a constant. */
module Constraints {
  import opened Exprs
  import opened Booleans
  import opened Visitors

  // --- Conjunctions ---------------------------------------------------------------------

  predicate AllBool(cs: seq<Expr>) {
    forall i :: 0 <= i < |cs| ==> IsBool(cs[i])
  }

  /** The assignment satisfies every constraint. */
  predicate Satisfies(cs: seq<Expr>, a: Assignment) {
    forall i :: 0 <= i < |cs| ==> Holds(cs[i], a)
  }

  ghost predicate Satisfiable(cs: seq<Expr>) {
    exists a :: Satisfies(cs, a)
  }

  function TotalWeight(cs: seq<Expr>): (n: nat) {
    if cs == [] then 0 else TotalWeight(cs[..|cs| - 1]) + Weight(cs[|cs| - 1])
  }

  lemma {:induction false} TotalWeightPush(cs: seq<Expr>, e: Expr)
    ensures TotalWeight(cs + [e]) == TotalWeight(cs) + Weight(e)
  {
    assert (cs + [e])[..|cs|] == cs;
  }

  lemma {:induction false} TotalWeightPrefix(cs: seq<Expr>, i: nat)
    requires i <= |cs|
    ensures TotalWeight(cs[..i]) <= TotalWeight(cs)
    decreases |cs| - i
  {
    if i < |cs| {
      TotalWeightPrefix(cs, i + 1);
      assert cs[..i + 1][..i] == cs[..i];
    } else {
      assert cs[..i] == cs;
    }
  }

  lemma {:induction false} SatisfiesPush(cs: seq<Expr>, e: Expr, a: Assignment)
    ensures Satisfies(cs + [e], a) <==> Satisfies(cs, a) && Holds(e, a)
  {
    if Satisfies(cs + [e], a) {
      assert forall i :: 0 <= i < |cs| ==> cs[i] == (cs + [e])[i];
      assert (cs + [e])[|cs|] == e;
    }
  }

  /** `after` means what `before` and one more constraint mean. */
  ghost predicate Extends(after: seq<Expr>, before: seq<Expr>, e: Expr) {
    forall a :: Satisfies(after, a) <==> Satisfies(before, a) && Holds(e, a)
  }

  lemma {:induction false} PushExtends(cs: seq<Expr>, e: Expr)
    ensures Extends(cs + [e], cs, e) && TotalWeight(cs + [e]) == TotalWeight(cs) + Weight(e)
  {
    TotalWeightPush(cs, e);
    forall a ensures Satisfies(cs + [e], a) <==> Satisfies(cs, a) && Holds(e, a) {
      SatisfiesPush(cs, e, a);
    }
  }

  lemma {:induction false} SatisfiesPrefix(cs: seq<Expr>, i: nat, a: Assignment)
    requires i <= |cs| && Satisfies(cs, a)
    ensures Satisfies(cs[..i], a)
  {
  }

  /** The two conjunctions agree wherever the visitor's equalities hold. */
  ghost predicate SameUnder(v: Visitor, xs: seq<Expr>, ys: seq<Expr>) {
    forall a :: v.Agrees(a) ==> (Satisfies(xs, a) <==> Satisfies(ys, a))
  }

  lemma {:induction false} SameUnderPush(v: Visitor, xs: seq<Expr>, ys: seq<Expr>, c: Expr, xs': seq<Expr>)
    requires v.Valid() && IsBool(c) && SameUnder(v, xs, ys) && Extends(xs', xs, Visit(v, c))
    ensures SameUnder(v, xs', ys + [c])
  {
    forall a | v.Agrees(a) ensures Satisfies(xs', a) <==> Satisfies(ys + [c], a) {
      VisitValue(v, c, a);
      SatisfiesPush(ys, c, a);
    }
  }

  /** No assignment satisfies both the conjunction and the constraint. */
  ghost predicate Contradicts(cs: seq<Expr>, e: Expr) {
    forall a :: !(Satisfies(cs, a) && Holds(e, a))
  }

  /** Nothing that agrees with the visitor satisfies the conjunction. */
  ghost predicate Hopeless(v: Visitor, cs: seq<Expr>) {
    forall a :: v.Agrees(a) ==> !Satisfies(cs, a)
  }

  lemma {:induction false} ConflictFound(v: Visitor, xs: seq<Expr>, ys: seq<Expr>, c: Expr)
    requires v.Valid() && IsBool(c) && SameUnder(v, xs, ys) && Contradicts(xs, Visit(v, c))
    ensures Hopeless(v, ys + [c])
  {
    forall a | v.Agrees(a) ensures !Satisfies(ys + [c], a) {
      VisitValue(v, c, a);
      SatisfiesPush(ys, c, a);
    }
  }

  lemma {:induction false} HopelessPrefix(v: Visitor, cs: seq<Expr>, i: nat)
    requires i <= |cs| && Hopeless(v, cs[..i])
    ensures Hopeless(v, cs)
  {
    forall a | v.Agrees(a) ensures !Satisfies(cs, a) {
      if Satisfies(cs, a) {
        SatisfiesPrefix(cs, i, a);
      }
    }
  }

  // --- Known equalities -------------------------------------------------------------------

  /** What a constraint says about one term: `constant == term`, or that it is true. */
  function EqualityOf(c: Expr): (p: (Expr, Expr)) {
    if c.Binary? && c.op.Eq? && c.left.Constant? then (c.right, c.left) else (c, Bool(true))
  }

  /** The equalities of all constraints; an earlier one for the same term wins. */
  function Equalities(cs: seq<Expr>): (m: map<Expr, Expr>) {
    if cs == [] then map[]
    else
      var before := Equalities(cs[..|cs| - 1]);
      var (term, value) := EqualityOf(cs[|cs| - 1]);
      if term in before then before else before[term := value]
  }

  lemma {:induction false} EqualitiesSound(cs: seq<Expr>)
    requires AllBool(cs)
    ensures ReplaceMany(Equalities(cs)).Valid()
    ensures forall a :: Satisfies(cs, a) ==> ReplaceMany(Equalities(cs)).Agrees(a)
  {
    if cs != [] {
      var front, last := cs[..|cs| - 1], cs[|cs| - 1];
      EqualitiesSound(front);
      assert front + [last] == cs;
      forall a | Satisfies(cs, a) ensures ReplaceMany(Equalities(cs)).Agrees(a) {
        SatisfiesPush(front, last, a);
        EqualityHolds(last, a);
      }
    }
  }

  predicate IsKnownTerm(x: Expr, c: Expr) {
    if c.Binary? && c.op.Eq? && c.left.Constant? then x == c.right else x == c
  }

  lemma {:induction false} KnownTermOf(c: Expr, x: Expr)
    ensures IsKnownTerm(x, c) <==> EqualityOf(c).0 == x
  {
  }

  /** What is known: the right-hand sides of the equalities with constants, and every other
      constraint to be true. */
  lemma {:induction false} KnownTerms(cs: seq<Expr>, x: Expr)
    ensures x in Equalities(cs) <==> exists i :: 0 <= i < |cs| && IsKnownTerm(x, cs[i])
  {
    hide IsKnownTerm, EqualityOf;
    if cs != [] {
      var n := |cs| - 1;
      KnownTermOf(cs[n], x);
      KnownTerms(cs[..n], x);
      OneMoreKnown(cs[..n], cs[n], x);
      assert cs[..n] + [cs[n]] == cs;
    }
  }

  lemma {:induction false} OneMoreKnown(cs: seq<Expr>, c: Expr, x: Expr)
    ensures (exists i :: 0 <= i < |cs + [c]| && IsKnownTerm(x, (cs + [c])[i])) <==>
              IsKnownTerm(x, c) || exists i :: 0 <= i < |cs| && IsKnownTerm(x, cs[i])
  {
    hide IsKnownTerm;
    if i :| 0 <= i < |cs| && IsKnownTerm(x, cs[i]) {
      assert IsKnownTerm(x, (cs + [c])[i]);
    }
    assert (cs + [c])[|cs|] == c;
  }

  /** The first constraint about a term decides what is known of it. */
  lemma {:induction false} KnownValue(cs: seq<Expr>, x: Expr, i: nat)
    requires i < |cs| && IsKnownTerm(x, cs[i]) && forall j :: 0 <= j < i ==> !IsKnownTerm(x, cs[j])
    ensures x in Equalities(cs)
    ensures var c := cs[i];
            Equalities(cs)[x] == if c.Binary? && c.op.Eq? && c.left.Constant? then c.left else Bool(true)
  {
    var n := |cs| - 1;
    if i < n {
      KnownValue(cs[..n], x, i);
    } else {
      KnownTerms(cs[..n], x);
    }
  }

  lemma {:induction false} EqualityHolds(c: Expr, a: Assignment)
    requires IsBool(c) && Holds(c, a)
    ensures Eval(EqualityOf(c).0, a) == Eval(EqualityOf(c).1, a)
  {
    if c.Binary? && c.op.Eq? {
      EvalBound(c.left, a);
      EvalBound(c.right, a);
    }
  }

  // --- The manager ---------------------------------------------------------------------------

  /** Conjunctions are split up and constants dropped. */
  predicate Apart(cs: seq<Expr>) {
    forall i :: 0 <= i < |cs| ==> !cs[i].Constant? && !(cs[i].Binary? && cs[i].op.And?)
  }

  lemma {:induction false} ApartAt(cs: seq<Expr>, i: nat)
    requires i < |cs|
    ensures Apart(cs) ==> Apart([cs[i]])
  {
  }

  lemma {:induction false} NothingYet(v: Visitor)
    ensures SameUnder(v, [], []) && Apart([]) && !Rewritable(v, [])
  {
  }

  lemma {:induction false} ApartPush(cs: seq<Expr>, e: Expr)
    requires Apart([e])
    ensures Apart(cs) ==> Apart(cs + [e])
  {
    assert [e][0] == e;
  }

  /** Some constraint has a term in it that the visitor knows. */
  ghost predicate Rewritable(v: Visitor, cs: seq<Expr>) {
    exists i :: 0 <= i < |cs| && !Settled(v, cs[i])
  }

  lemma {:induction false} RewritablePush(v: Visitor, cs: seq<Expr>, c: Expr)
    ensures Rewritable(v, cs + [c]) <==> Rewritable(v, cs) || !Settled(v, c)
  {
    if i :| 0 <= i < |cs| && !Settled(v, cs[i]) {
      assert (cs + [c])[i] == cs[i];
    }
    assert (cs + [c])[|cs|] == c;
  }

  class ConstraintManager {
    var constraints: seq<Expr>
    const rewriteEqualities: bool

    ghost predicate Valid()
      reads this
    {
      AllBool(constraints)
    }

    constructor (assumptions: seq<Expr>, rewriteEqualities: bool)
      requires AllBool(assumptions)
      ensures Valid() && constraints == assumptions && this.rewriteEqualities == rewriteEqualities
    {
      this.constraints := assumptions;
      this.rewriteEqualities := rewriteEqualities;
    }

    /** Replaces every known term; the result means the same on every assignment that
        satisfies the constraints, and nothing replaceable is left in it. */
    method SimplifyExpr(e: Expr) returns (r: Expr)
      requires Valid() && WellTyped(e)
      ensures WellTyped(r) && Width(r) == Width(e)
      ensures forall a :: Satisfies(constraints, a) ==> Eval(r, a) == Eval(e, a)
      ensures r == e || Weight(r) < Weight(e)
      ensures Settled(ReplaceMany(Equalities(constraints)), r)
    {
      if e.Constant? {
        return e;
      }
      var equalities: map<Expr, Expr> := map[];
      assert constraints[..0] == [];
      for i := 0 to |constraints|
        invariant equalities == Equalities(constraints[..i])
      {
        assert constraints[..i + 1][..i] == constraints[..i];
        var c := constraints[i];
        var key, value := c, Bool(true);
        if c.Binary? && c.op.Eq? && c.left.Constant? {
          key, value := c.right, c.left;
        }
        if key !in equalities {
          equalities := equalities[key := value];
        }
      }
      assert constraints[..|constraints|] == constraints;
      EqualitiesSound(constraints);
      var v := ReplaceMany(equalities);
      r := Visit(v, e);
      forall a | Satisfies(constraints, a) ensures Eval(r, a) == Eval(e, a) {
        VisitValue(v, e, a);
      }
      VisitSettles(v, e);
    }

    /** Rewrites every constraint, adding the changed ones anew. `ok` is false when a
        constraint turned out false, which aborts the program. */
    method RewriteConstraints(v: Visitor) returns (changed: bool, ok: bool)
      requires Valid() && v.Valid()
      modifies this
      ensures Valid() && TotalWeight(constraints) <= TotalWeight(old(constraints))
      ensures ok ==> SameUnder(v, constraints, old(constraints))
      ensures !ok ==> Hopeless(v, old(constraints))
      ensures !changed && ok ==> constraints == old(constraints)
      ensures ok ==> (changed <==> Rewritable(v, old(constraints)))
      ensures ok && changed ==> TotalWeight(constraints) < TotalWeight(old(constraints))
      ensures ok && Apart(old(constraints)) ==> Apart(constraints)
      decreases TotalWeight(constraints), 1
    {
      hide SameUnder, Hopeless, Apart, Rewritable, Settled, Visit;
      var earlier := constraints;
      constraints := [];
      NothingYet(v);
      changed := false;
      ok := true;
      assert earlier[..0] == [];
      for i := 0 to |earlier|
        invariant AllBool(constraints) && AllBool(earlier) && ok
        invariant TotalWeight(constraints) <= TotalWeight(earlier[..i])
        invariant SameUnder(v, constraints, earlier[..i])
        invariant !changed ==> constraints == earlier[..i]
        invariant changed <==> Rewritable(v, earlier[..i])
        invariant changed ==> TotalWeight(constraints) < TotalWeight(earlier[..i])
        invariant Apart(earlier) ==> Apart(constraints)
      {
        assert earlier[..i + 1] == earlier[..i] + [earlier[i]];
        TotalWeightPush(earlier[..i], earlier[i]);
        TotalWeightPrefix(earlier, i + 1);
        RewritablePush(v, earlier[..i], earlier[i]);
        ApartAt(earlier, i);
        var different;
        different, ok := RewriteOne(v, earlier[i], earlier[..i]);
        changed := changed || different;
        if !ok {
          HopelessPrefix(v, earlier, i + 1);
          return;
        }
      }
      assert earlier[..|earlier|] == earlier;
    }

    /** One round of the rewriting loop, after the constraints in `before` were done. */
    method RewriteOne(v: Visitor, c: Expr, ghost before: seq<Expr>) returns (different: bool, ok: bool)
      requires Valid() && v.Valid() && IsBool(c)
      requires SameUnder(v, constraints, before) && TotalWeight(constraints) <= TotalWeight(before)
      modifies this
      ensures Valid() && TotalWeight(constraints) <= TotalWeight(before) + Weight(c)
      ensures ok ==> SameUnder(v, constraints, before + [c])
      ensures !ok ==> Hopeless(v, before + [c])
      ensures !different ==> ok && constraints == old(constraints) + [c]
      ensures different <==> !Settled(v, c)
      ensures different ==> TotalWeight(constraints) < TotalWeight(old(constraints)) + Weight(c)
      ensures TotalWeight(constraints) <= TotalWeight(old(constraints)) + Weight(c)
      ensures ok && Apart(old(constraints)) && Apart([c]) ==> Apart(constraints)
      decreases TotalWeight(before) + Weight(c), 0
    {
      ghost var cs := constraints;
      var e := Visit(v, c);
      different := e != c;
      UnchangedSettled(v, c);
      assert e == c || Weight(e) < Weight(c);
      if different {
        ok := AddConstraintInternal(e);
        if !ok {
          ConflictFound(v, cs, before, c);
          return;
        }
      } else {
        ok := true;
        constraints := constraints + [c];
        PushExtends(cs, c);
      }
      SameUnderPush(v, cs, before, c, constraints);
    }

    /** Splits conjunctions and rewrites the other constraints with a new equality. */
    method AddConstraintInternal(e: Expr) returns (ok: bool)
      requires Valid() && IsBool(e)
      modifies this
      ensures Valid() && TotalWeight(constraints) <= TotalWeight(old(constraints)) + Weight(e)
      ensures ok ==> Extends(constraints, old(constraints), e)
      ensures !ok ==> Contradicts(old(constraints), e)
      ensures ok && Apart(old(constraints)) ==> Apart(constraints)
      decreases TotalWeight(constraints) + Weight(e), 1
    {
      if e.Constant? {
        ok := e == Bool(true);
        forall a ensures Holds(e, a) <==> ok {
          BoolValue(e, a);
        }
      } else if e.Binary? && e.op.And? {
        forall a ensures Holds(e, a) <==> Holds(e.left, a) && Holds(e.right, a) {
          EvalBound(e.left, a);
          EvalBound(e.right, a);
          TwoBits(e.left, e.right, a);
        }
        ok := AddConstraintInternal(e.left);
        if ok {
          ok := AddConstraintInternal(e.right);
        }
      } else {
        ok := Insert(e);
      }
    }

    /** One conjunct: an equality with a constant first rewrites the other constraints. */
    method Insert(e: Expr) returns (ok: bool)
      requires Valid() && IsBool(e) && Apart([e])
      modifies this
      ensures Valid() && TotalWeight(constraints) <= TotalWeight(old(constraints)) + Weight(e)
      ensures ok ==> Extends(constraints, old(constraints), e)
      ensures !ok ==> Contradicts(old(constraints), e)
      ensures ok && Apart(old(constraints)) ==> Apart(constraints)
      ensures ok && rewriteEqualities && e.Binary? && e.op.Eq? && e.left.Constant?
              && Rewritable(ReplaceOne(e.right, e.left), old(constraints)) ==>
                TotalWeight(constraints) < TotalWeight(old(constraints)) + Weight(e)
      decreases TotalWeight(constraints) + Weight(e), 0
    {
      hide Apart, Rewritable;
      ok := true;
      if e.Binary? && e.op.Eq? && rewriteEqualities && e.left.Constant? {
        var v := ReplaceOne(e.right, e.left);
        var changed;
        changed, ok := RewriteConstraints(v);
        forall a | Holds(e, a) ensures v.Agrees(a) {
          EqualityHolds(e, a);
        }
      }
      if ok {
        ghost var rewritten := constraints;
        constraints := constraints + [e];
        PushExtends(rewritten, e);
        ApartPush(rewritten, e);
      }
    }

    /** The new conjunction is the old one and the constraint, under every assignment; when
        that is satisfiable the constraint is never found false. */
    method AddConstraint(e: Expr) returns (ok: bool)
      requires Valid() && IsBool(e)
      modifies this
      ensures Valid() && TotalWeight(constraints) <= TotalWeight(old(constraints)) + Weight(e)
      ensures ok ==> Extends(constraints, old(constraints), e)
      ensures Satisfiable(old(constraints) + [e]) ==> ok
      ensures !Settled(ReplaceMany(Equalities(old(constraints))), e) ==>
                TotalWeight(constraints) < TotalWeight(old(constraints)) + Weight(e)
      ensures ok && Apart(old(constraints)) ==> Apart(constraints)
    {
      ghost var before := constraints;
      var simplified := SimplifyExpr(e);
      ok := AddConstraintInternal(simplified);
      if Satisfiable(before + [e]) {
        var a :| Satisfies(before + [e], a);
        SatisfiesPush(before, e, a);
      }
    }
  }
}
