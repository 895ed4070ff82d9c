/** The conditions a switch on a symbolic value is forked among: one per target block, with
    the values of all cases that lead to it. */
module Switches {
  import Bits
  import opened Exprs
  import opened Booleans
  import opened Constraints
  import opened Exploration
  import opened Partitions
  import opened Solvers

  /** A case value and the block it leads to. */
  datatype Case = Case(value: nat, block: nat)

  predicate IsSwitch(cond: Expr, cases: seq<Case>) {
    && WellTyped(cond) && 0 < Width(cond)
    && (forall i :: 0 <= i < |cases| ==> cases[i].value < Bits.Pow2(Width(cond)))
    && (forall i, j :: 0 <= i < j < |cases| ==> cases[i].value != cases[j].value)
  }

  function Match(cond: Expr, c: Case): (e: Expr)
    requires WellTyped(cond) && 0 < Width(cond) && c.value < Bits.Pow2(Width(cond))
    ensures IsBool(e)
  {
    EqCreate(cond, Constant(c.value, Width(cond)))
  }

  /** One of the cases has this value and leads to this block. */
  ghost predicate CaseTo(v: nat, cases: seq<Case>, b: nat) {
    exists j :: 0 <= j < |cases| && cases[j].value == v && cases[j].block == b
  }

  ghost predicate NoCase(v: nat, cases: seq<Case>) {
    forall j :: 0 <= j < |cases| ==> cases[j].value != v
  }

  /** Some input of the path has a case that leads to the block. */
  ghost predicate Feasible(cs: seq<Expr>, cond: Expr, cases: seq<Case>, b: nat) {
    exists a :: Satisfies(cs, a) && CaseTo(Eval(cond, a), cases, b)
  }

  ghost predicate DefaultFeasible(cs: seq<Expr>, cond: Expr, cases: seq<Case>) {
    exists a :: Satisfies(cs, a) && NoCase(Eval(cond, a), cases)
  }

  /** An input goes to the default block by an explicit case and another one by default. */
  ghost predicate DefaultShadowed(cs: seq<Expr>, cond: Expr, cases: seq<Case>, default: nat) {
    Feasible(cs, cond, cases, default) && DefaultFeasible(cs, cond, cases)
  }

  // --- One more case -------------------------------------------------------------------------

  lemma {:induction false} OneMoreCase(v: nat, cases: seq<Case>, c: Case, b: nat)
    ensures CaseTo(v, cases + [c], b) <==> CaseTo(v, cases, b) || (c.value == v && c.block == b)
    ensures NoCase(v, cases + [c]) <==> NoCase(v, cases) && c.value != v
  {
    var more := cases + [c];
    assert more[|cases|] == c;
    assert forall j :: 0 <= j < |cases| ==> more[j] == cases[j];
  }

  lemma {:induction false} MatchValue(cond: Expr, c: Case, a: Assignment)
    requires WellTyped(cond) && 0 < Width(cond) && c.value < Bits.Pow2(Width(cond))
    ensures Holds(Match(cond, c), a) <==> Eval(cond, a) == c.value
  {
    EqValue(cond, Constant(c.value, Width(cond)), a);
  }

  lemma {:induction false} EitherHolds(e: Expr, f: Expr, a: Assignment)
    requires IsBool(e) && IsBool(f)
    ensures Holds(OrCreate(e, f), a) <==> Holds(e, a) || Holds(f, a)
    ensures Holds(AndCreate(e, IsZero(f)), a) <==> Holds(e, a) && !Holds(f, a)
  {
    BoolValue(e, a);
    BoolValue(f, a);
    IsZeroValue(f, a);
    BoolValue(IsZero(f), a);
    Connectives(e, f, a);
    Connectives(e, IsZero(f), a);
  }

  /** What the table of targets says about an input of the path. */
  ghost predicate Targets(cs: seq<Expr>, cond: Expr, cases: seq<Case>, targets: map<nat, Expr>) {
    forall b :: b in targets ==>
      IsBool(targets[b]) && forall a :: Satisfies(cs, a) ==> (Holds(targets[b], a) <==> CaseTo(Eval(cond, a), cases, b))
  }

  /** The condition that is left for the default. */
  ghost predicate Leftover(cond: Expr, cases: seq<Case>, e: Expr) {
    IsBool(e) && forall a :: Holds(e, a) <==> NoCase(Eval(cond, a), cases)
  }

  lemma {:induction false} LeftoverMore(cond: Expr, cases: seq<Case>, c: Case, e: Expr)
    requires WellTyped(cond) && 0 < Width(cond) && c.value < Bits.Pow2(Width(cond)) && Leftover(cond, cases, e)
    ensures Leftover(cond, cases + [c], AndCreate(e, IsZero(Match(cond, c))))
  {
    forall a ensures Holds(AndCreate(e, IsZero(Match(cond, c))), a) <==> NoCase(Eval(cond, a), cases + [c]) {
      EitherHolds(e, Match(cond, c), a);
      MatchValue(cond, c, a);
      OneMoreCase(Eval(cond, a), cases, c, 0);
    }
  }

  /** The condition of a block so far. */
  function SoFar(targets: map<nat, Expr>, b: nat): (e: Expr) {
    if b in targets then targets[b] else Bool(false)
  }

  lemma {:induction false} SoFarValue(cs: seq<Expr>, cond: Expr, cases: seq<Case>, targets: map<nat, Expr>, b: nat)
    requires Targets(cs, cond, cases, targets) && forall b :: b in targets <==> Feasible(cs, cond, cases, b)
    ensures IsBool(SoFar(targets, b))
    ensures forall a :: Satisfies(cs, a) ==> (Holds(SoFar(targets, b), a) <==> CaseTo(Eval(cond, a), cases, b))
  {
  }

  /** A feasible case joins the condition of its block. */
  lemma {:induction false} TargetsMore(cs: seq<Expr>, cond: Expr, cases: seq<Case>, c: Case, targets: map<nat, Expr>)
    requires WellTyped(cond) && 0 < Width(cond) && c.value < Bits.Pow2(Width(cond)) && Targets(cs, cond, cases, targets)
    requires forall b :: b in targets <==> Feasible(cs, cond, cases, b)
    ensures IsBool(SoFar(targets, c.block))
    ensures Targets(cs, cond, cases + [c], targets[c.block := OrCreate(Match(cond, c), SoFar(targets, c.block))])
  {
    hide Feasible, CaseTo, OrCreate, Match, SoFar, WellTyped, Eval, Width, Satisfies;
    var e := SoFar(targets, c.block);
    SoFarValue(cs, cond, cases, targets, c.block);
    var more := targets[c.block := OrCreate(Match(cond, c), e)];
    forall b, a | b in more && Satisfies(cs, a) ensures Holds(more[b], a) <==> CaseTo(Eval(cond, a), cases + [c], b) {
      EitherHolds(Match(cond, c), e, a);
      MatchValue(cond, c, a);
      OneMoreCase(Eval(cond, a), cases, c, b);
    }
  }

  /** A case the path cannot take leaves the table as it is. */
  lemma {:induction false} TargetsSame(cs: seq<Expr>, cond: Expr, cases: seq<Case>, c: Case, targets: map<nat, Expr>)
    requires WellTyped(cond) && 0 < Width(cond) && c.value < Bits.Pow2(Width(cond)) && Targets(cs, cond, cases, targets)
    requires !Possible(cs, Match(cond, c))
    ensures Targets(cs, cond, cases + [c], targets)
    ensures forall b :: Feasible(cs, cond, cases + [c], b) <==> Feasible(cs, cond, cases, b)
  {
    forall b, a | Satisfies(cs, a) ensures CaseTo(Eval(cond, a), cases + [c], b) <==> CaseTo(Eval(cond, a), cases, b) {
      MatchValue(cond, c, a);
      OneMoreCase(Eval(cond, a), cases, c, b);
    }
  }

  lemma {:induction false} FeasibleMore(cs: seq<Expr>, cond: Expr, cases: seq<Case>, c: Case)
    requires WellTyped(cond) && 0 < Width(cond) && c.value < Bits.Pow2(Width(cond)) && Possible(cs, Match(cond, c))
    ensures forall b :: Feasible(cs, cond, cases + [c], b) <==> Feasible(cs, cond, cases, b) || b == c.block
  {
    forall b ensures Feasible(cs, cond, cases + [c], b) <==> Feasible(cs, cond, cases, b) || b == c.block {
      forall a ensures CaseTo(Eval(cond, a), cases + [c], b)
                  <==> CaseTo(Eval(cond, a), cases, b) || (Holds(Match(cond, c), a) && c.block == b) {
        MatchValue(cond, c, a);
        OneMoreCase(Eval(cond, a), cases, c, b);
      }
    }
  }

  // --- All cases ---------------------------------------------------------------------------------

  /** The table after some cases: exactly the feasible blocks, in the order they were met. */
  ghost predicate Table(cs: seq<Expr>, cond: Expr, cases: seq<Case>, order: seq<nat>, targets: map<nat, Expr>) {
    && Targets(cs, cond, cases, targets)
    && (forall b :: b in targets <==> Feasible(cs, cond, cases, b))
    && (forall b :: b in order <==> b in targets)
    && (forall i, j :: 0 <= i < j < |order| ==> order[i] != order[j])
  }

  method AddCase(cs: seq<Expr>, solver: Solver, cond: Expr, ghost cases: seq<Case>, c: Case, order: seq<nat>,
                 targets: map<nat, Expr>)
    returns (longer: seq<nat>, more: map<nat, Expr>)
    requires Satisfiable(cs) && Exact(solver) && WellTyped(cond) && 0 < Width(cond) && c.value < Bits.Pow2(Width(cond))
    requires Table(cs, cond, cases, order, targets)
    ensures Table(cs, cond, cases + [c], longer, more)
  {
    hide Targets, Feasible, Possible, Certain, Truth, OrCreate, Match;
    longer, more := order, targets;
    if solver.mayBeTrue(cs, Match(cond, c)) {
      TargetsMore(cs, cond, cases, c, targets);
      FeasibleMore(cs, cond, cases, c);
      if c.block !in targets {
        longer := order + [c.block];
      }
      more := targets[c.block := OrCreate(Match(cond, c), SoFar(targets, c.block))];
    } else {
      TargetsSame(cs, cond, cases, c, targets);
    }
  }

  /** Every case, and the condition that is left for the default. */
  method CollectTargets(cs: seq<Expr>, solver: Solver, cond: Expr, cases: seq<Case>)
    returns (order: seq<nat>, targets: map<nat, Expr>, leftover: Expr)
    requires Satisfiable(cs) && Exact(solver) && IsSwitch(cond, cases)
    ensures Table(cs, cond, cases, order, targets) && Leftover(cond, cases, leftover)
  {
    order, targets, leftover := [], map[], Bool(true);
    assert cases[..0] == [];
    for i := 0 to |cases|
      invariant Table(cs, cond, cases[..i], order, targets) && Leftover(cond, cases[..i], leftover)
    {
      assert cases[..i + 1] == cases[..i] + [cases[i]];
      LeftoverMore(cond, cases[..i], cases[i], leftover);
      leftover := AndCreate(leftover, IsZero(Match(cond, cases[i])));
      order, targets := AddCase(cs, solver, cond, cases[..i], cases[i], order, targets);
    }
    assert cases[..|cases|] == cases;
  }

  // --- The default -----------------------------------------------------------------------------

  /** Where the switch sends a value. */
  ghost function Target(v: nat, cases: seq<Case>, default: nat): (b: nat) {
    if cases == [] then default
    else if cases[|cases| - 1].value == v then cases[|cases| - 1].block
    else Target(v, cases[..|cases| - 1], default)
  }

  lemma {:induction false} TargetCases(v: nat, cases: seq<Case>, default: nat, b: nat)
    requires forall i, j :: 0 <= i < j < |cases| ==> cases[i].value != cases[j].value
    ensures Target(v, cases, default) == b <==> CaseTo(v, cases, b) || (NoCase(v, cases) && b == default)
  {
    if cases != [] {
      var rest, c := cases[..|cases| - 1], cases[|cases| - 1];
      assert cases == rest + [c];
      TargetCases(v, rest, default, b);
      OneMoreCase(v, rest, c, b);
    }
  }

  /** Every condition holds on exactly the inputs the switch sends to its block. */
  ghost predicate Faithful(cs: seq<Expr>, cond: Expr, cases: seq<Case>, default: nat, order: seq<nat>,
                           conditions: seq<Expr>) {
    && |order| == |conditions| && AllBool(conditions)
    && forall k, a :: 0 <= k < |order| && Satisfies(cs, a) ==>
         (Holds(conditions[k], a) <==> Target(Eval(cond, a), cases, default) == order[k])
  }

  /** Faithful conditions for all blocks that can be reached, each block once, are alternatives. */
  lemma {:induction false} FaithfulAlternatives(cs: seq<Expr>, cond: Expr, cases: seq<Case>, default: nat,
                                                order: seq<nat>, conditions: seq<Expr>)
    requires Faithful(cs, cond, cases, default, order, conditions)
    requires forall i, j :: 0 <= i < j < |order| ==> order[i] != order[j]
    requires forall a :: Satisfies(cs, a) ==> Target(Eval(cond, a), cases, default) in order
    requires forall k :: 0 <= k < |order| ==> Possible(cs, conditions[k])
    ensures Alternatives(cs, conditions)
  {
    hide Target, Eval, Holds, Satisfies;
    var pieces := Pieces(cs, conditions);
    forall k | 0 <= k < |pieces| ensures pieces[k] != iset{} {
      NonEmpty(cs, conditions[k]);
    }
    forall a ensures a in Models(cs) <==> Covered(pieces, a) {
      if a in Models(cs) {
        var k :| 0 <= k < |order| && order[k] == Target(Eval(cond, a), cases, default);
        assert a in pieces[k];
      }
    }
    forall j, k | 0 <= j < k < |pieces| ensures pieces[j] !! pieces[k] {
      forall a | a in pieces[j] ensures a !in pieces[k] {
        assert order[j] != order[k];
      }
    }
  }

  /** The conditions in the order of their blocks. */
  function InOrderOf(order: seq<nat>, targets: map<nat, Expr>): (conditions: seq<Expr>)
    requires forall b :: b in order ==> b in targets
  {
    seq(|order|, k requires 0 <= k < |order| => targets[order[k]])
  }

  lemma {:induction false} LeftoverMeaning(cs: seq<Expr>, cond: Expr, cases: seq<Case>, e: Expr)
    requires Leftover(cond, cases, e)
    ensures Possible(cs, e) <==> DefaultFeasible(cs, cond, cases)
  {
  }

  lemma {:induction false} TablePossible(cs: seq<Expr>, cond: Expr, cases: seq<Case>, order: seq<nat>,
                                         targets: map<nat, Expr>)
    requires Table(cs, cond, cases, order, targets)
    ensures forall b :: b in order ==> b in targets && IsBool(targets[b]) && Possible(cs, targets[b])
  {
    forall b | b in order ensures Possible(cs, targets[b]) {
      assert Feasible(cs, cond, cases, b);
      var a :| Satisfies(cs, a) && CaseTo(Eval(cond, a), cases, b);
      assert Holds(targets[b], a);
    }
  }

  /** A value with a case goes to a block of the table. */
  lemma {:induction false} CaseInOrder(cs: seq<Expr>, cond: Expr, cases: seq<Case>, order: seq<nat>,
                                       targets: map<nat, Expr>,
                                       default: nat, a: Assignment)
    requires IsSwitch(cond, cases) && Table(cs, cond, cases, order, targets) && Satisfies(cs, a)
    requires !NoCase(Eval(cond, a), cases)
    ensures Target(Eval(cond, a), cases, default) in order
  {
    hide IsBool, Eval, Satisfies, Holds;
    var j :| 0 <= j < |cases| && cases[j].value == Eval(cond, a);
    var b := cases[j].block;
    assert CaseTo(Eval(cond, a), cases, b);
    assert Feasible(cs, cond, cases, b);
    TargetCases(Eval(cond, a), cases, default, b);
  }

  lemma {:induction false} ByDefault(cs: seq<Expr>, cond: Expr, cases: seq<Case>, a: Assignment)
    requires Satisfies(cs, a)
    ensures NoCase(Eval(cond, a), cases) ==> DefaultFeasible(cs, cond, cases)
  {
  }

  /** Without inputs for the default the table is all there is. */
  lemma {:induction false} WithoutDefault(cs: seq<Expr>, cond: Expr, cases: seq<Case>, default: nat, order: seq<nat>,
                                          targets: map<nat, Expr>)
    requires IsSwitch(cond, cases) && Table(cs, cond, cases, order, targets) && !DefaultFeasible(cs, cond, cases)
    requires forall b :: b in order ==> b in targets
    ensures Alternatives(cs, InOrderOf(order, targets))
    ensures Faithful(cs, cond, cases, default, order, InOrderOf(order, targets))
  {
    hide IsBool, Eval, Satisfies, Holds, Alternatives, NoCase, CaseTo, Possible, Feasible, DefaultFeasible;
    var conditions := InOrderOf(order, targets);
    TablePossible(cs, cond, cases, order, targets);
    forall k, a | 0 <= k < |order| && Satisfies(cs, a)
      ensures Holds(conditions[k], a) <==> Target(Eval(cond, a), cases, default) == order[k]
    {
      TargetCases(Eval(cond, a), cases, default, order[k]);
      ByDefault(cs, cond, cases, a);
      assert order[k] in order;
    }
    forall a | Satisfies(cs, a) ensures Target(Eval(cond, a), cases, default) in order {
      ByDefault(cs, cond, cases, a);
      CaseInOrder(cs, cond, cases, order, targets, default, a);
    }
    assert forall k :: 0 <= k < |order| ==> order[k] in order;
    FaithfulAlternatives(cs, cond, cases, default, order, conditions);
  }

  /** A default that no case shares gets the condition that is left. */
  lemma {:induction false} WithDefault(cs: seq<Expr>, cond: Expr, cases: seq<Case>, default: nat, order: seq<nat>,
                                       targets: map<nat, Expr>, e: Expr)
    requires IsSwitch(cond, cases) && Table(cs, cond, cases, order, targets) && Leftover(cond, cases, e)
    requires DefaultFeasible(cs, cond, cases) && default !in targets
    requires forall b :: b in order ==> b in targets
    ensures Alternatives(cs, InOrderOf(order + [default], targets[default := e]))
    ensures Faithful(cs, cond, cases, default, order + [default], InOrderOf(order + [default], targets[default := e]))
  {
    hide IsBool, Eval, Satisfies, Holds, Alternatives, NoCase, CaseTo, Possible, Feasible, DefaultFeasible;
    var longer := order + [default];
    var conditions := InOrderOf(longer, targets[default := e]);
    TablePossible(cs, cond, cases, order, targets);
    LeftoverMeaning(cs, cond, cases, e);
    forall k, a | 0 <= k < |longer| && Satisfies(cs, a)
      ensures Holds(conditions[k], a) <==> Target(Eval(cond, a), cases, default) == longer[k]
    {
      TargetCases(Eval(cond, a), cases, default, longer[k]);
      NotByCase(cs, cond, cases, default, a);
    }
    forall a | Satisfies(cs, a) ensures Target(Eval(cond, a), cases, default) in longer {
      if NoCase(Eval(cond, a), cases) {
        TargetCases(Eval(cond, a), cases, default, default);
        assert longer[|order|] == default;
      } else {
        CaseInOrder(cs, cond, cases, order, targets, default, a);
      }
    }
    assert forall k :: 0 <= k < |order| ==> order[k] in order;
    FaithfulAlternatives(cs, cond, cases, default, longer, conditions);
  }

  /** A block the path cannot reach by a case is not reached by one. */
  lemma {:induction false} NotByCase(cs: seq<Expr>, cond: Expr, cases: seq<Case>, b: nat, a: Assignment)
    requires Satisfies(cs, a)
    ensures CaseTo(Eval(cond, a), cases, b) ==> Feasible(cs, cond, cases, b)
    ensures CaseTo(Eval(cond, a), cases, b) ==> !NoCase(Eval(cond, a), cases)
  {
  }

  /** The inputs that go to the default block by default, if some go there by a case. */
  ghost function Hidden(cs: seq<Expr>, cond: Expr, cases: seq<Case>, default: nat): (m: iset<Assignment>) {
    iset a | DefaultShadowed(cs, cond, cases, default) && Satisfies(cs, a) && NoCase(Eval(cond, a), cases)
  }

  /** The inputs of a path that the switch sends to a block and does not lose. */
  ghost function Sent(cs: seq<Expr>, cond: Expr, cases: seq<Case>, default: nat, b: nat): (m: iset<Assignment>) {
    (iset a | Satisfies(cs, a) && Target(Eval(cond, a), cases, default) == b) - Hidden(cs, cond, cases, default)
  }

  /** Each condition selects exactly the inputs sent to its block, and the blocks are exactly
      those that some input is sent to, each once. */
  ghost predicate Sends(cs: seq<Expr>, cond: Expr, cases: seq<Case>, default: nat, order: seq<nat>,
                        conditions: seq<Expr>) {
    && |order| == |conditions| && (forall i, j :: 0 <= i < j < |order| ==> order[i] != order[j])
    && (forall k :: 0 <= k < |order| ==> Narrowed(cs, conditions[k]) == Sent(cs, cond, cases, default, order[k]))
    && forall b :: b in order <==> Sent(cs, cond, cases, default, b) != iset{}
  }

  lemma {:induction false} SentOnce(cs: seq<Expr>, cond: Expr, cases: seq<Case>, default: nat, b: nat, c: nat,
                                    a: Assignment)
    requires a in Sent(cs, cond, cases, default, b) && a in Sent(cs, cond, cases, default, c)
    ensures b == c
  {
  }

  /** Choices that miss just what is hidden, with the right inputs for each block, send. */
  lemma {:induction false} SendsAll(cs: seq<Expr>, cond: Expr, cases: seq<Case>, default: nat, order: seq<nat>,
                                    conditions: seq<Expr>)
    requires Choices(cs, conditions) && Missed(cs, conditions) == Hidden(cs, cond, cases, default)
    requires |order| == |conditions| && forall i, j :: 0 <= i < j < |order| ==> order[i] != order[j]
    requires forall k :: 0 <= k < |order| ==> Narrowed(cs, conditions[k]) == Sent(cs, cond, cases, default, order[k])
    ensures Sends(cs, cond, cases, default, order, conditions)
  {
    hide Target, Eval, Holds, Satisfies, Hidden;
    var pieces := Pieces(cs, conditions);
    forall b ensures b in order <==> Sent(cs, cond, cases, default, b) != iset{} {
      if b in order {
        var k :| 0 <= k < |order| && order[k] == b;
        assert pieces[k] == Narrowed(cs, conditions[k]) != iset{};
      }
      if Sent(cs, cond, cases, default, b) != iset{} {
        var a :| a in Sent(cs, cond, cases, default, b);
        assert a in Models(cs) && a !in Missed(cs, conditions);
        var k :| 0 <= k < |pieces| && a in pieces[k];
        SentOnce(cs, cond, cases, default, order[k], b, a);
      }
    }
  }

  lemma {:induction false} SomethingHidden(cs: seq<Expr>, cond: Expr, cases: seq<Case>, default: nat)
    ensures Hidden(cs, cond, cases, default) != iset{} <==> DefaultShadowed(cs, cond, cases, default)
  {
    if DefaultShadowed(cs, cond, cases, default) {
      var a :| Satisfies(cs, a) && NoCase(Eval(cond, a), cases);
      assert a in Hidden(cs, cond, cases, default);
    }
  }

  /** An input meets the condition of a block of the table exactly when a case leads it there. */
  lemma {:induction false} InPiece(cs: seq<Expr>, cond: Expr, cases: seq<Case>, order: seq<nat>,
                                   targets: map<nat, Expr>,
                                   default: nat, k: nat, a: Assignment)
    requires IsSwitch(cond, cases) && Table(cs, cond, cases, order, targets) && k < |order|
    requires forall b :: b in order ==> b in targets
    ensures a in Pieces(cs, InOrderOf(order, targets))[k]
       <==> Satisfies(cs, a) && !NoCase(Eval(cond, a), cases) && Target(Eval(cond, a), cases, default) == order[k]
  {
    assert order[k] in order;
    assert InOrderOf(order, targets)[k] == targets[order[k]];
    TargetCases(Eval(cond, a), cases, default, order[k]);
  }

  /** When a case shares the default's block, the conditions are choices that miss exactly the
      default's inputs, and so no alternatives. */
  lemma {:induction false} Shadowed(cs: seq<Expr>, cond: Expr, cases: seq<Case>, default: nat, order: seq<nat>,
                                    targets: map<nat, Expr>)
    requires IsSwitch(cond, cases) && Table(cs, cond, cases, order, targets)
    requires DefaultShadowed(cs, cond, cases, default) && forall b :: b in order ==> b in targets
    ensures Choices(cs, InOrderOf(order, targets)) && !Alternatives(cs, InOrderOf(order, targets))
    ensures Missed(cs, InOrderOf(order, targets)) == Hidden(cs, cond, cases, default)
    ensures Sends(cs, cond, cases, default, order, InOrderOf(order, targets))
  {
    hide Target, CaseTo, NoCase, Eval, Satisfies, Holds, DefaultFeasible, Feasible, Targets, IsBool;
    var conditions := InOrderOf(order, targets);
    var pieces := Pieces(cs, conditions);
    TablePossible(cs, cond, cases, order, targets);
    forall k | 0 <= k < |pieces| ensures pieces[k] != iset{} && IsBool(conditions[k]) {
      assert order[k] in order;
      NonEmpty(cs, conditions[k]);
    }
    forall j, k | 0 <= j < k < |pieces| ensures pieces[j] !! pieces[k] {
      forall a | a in pieces[j] ensures a !in pieces[k] {
        InPiece(cs, cond, cases, order, targets, default, j, a);
        InPiece(cs, cond, cases, order, targets, default, k, a);
      }
    }
    forall a ensures a in Missed(cs, conditions) <==> a in Hidden(cs, cond, cases, default) {
      MissedByTable(cs, cond, cases, default, order, targets, a);
    }
    SomethingHidden(cs, cond, cases, default);
    AlternativesMissNothing(cs, conditions);
    forall k | 0 <= k < |order| ensures Narrowed(cs, conditions[k]) == Sent(cs, cond, cases, default, order[k]) {
      SentByTable(cs, cond, cases, default, order, targets, k);
    }
    SendsAll(cs, cond, cases, default, order, conditions);
  }

  lemma {:induction false} SentByTable(cs: seq<Expr>, cond: Expr, cases: seq<Case>, default: nat, order: seq<nat>,
                                       targets: map<nat, Expr>, k: nat)
    requires IsSwitch(cond, cases) && Table(cs, cond, cases, order, targets) && k < |order|
    requires DefaultShadowed(cs, cond, cases, default) && forall b :: b in order ==> b in targets
    ensures Narrowed(cs, InOrderOf(order, targets)[k]) == Sent(cs, cond, cases, default, order[k])
  {
    hide Target, CaseTo, NoCase, Eval, Holds, DefaultFeasible, Feasible, Targets, IsBool, DefaultShadowed;
    var conditions := InOrderOf(order, targets);
    assert Pieces(cs, conditions)[k] == Narrowed(cs, conditions[k]);
    forall a ensures a in Narrowed(cs, conditions[k]) <==> a in Sent(cs, cond, cases, default, order[k]) {
      InPiece(cs, cond, cases, order, targets, default, k, a);
    }
  }

  lemma {:induction false} MissedByTable(cs: seq<Expr>, cond: Expr, cases: seq<Case>, default: nat, order: seq<nat>,
                                         targets: map<nat, Expr>, a: Assignment)
    requires IsSwitch(cond, cases) && Table(cs, cond, cases, order, targets)
    requires DefaultShadowed(cs, cond, cases, default) && forall b :: b in order ==> b in targets
    ensures a in Missed(cs, InOrderOf(order, targets)) <==> a in Hidden(cs, cond, cases, default)
  {
    hide Target, CaseTo, NoCase, Eval, Satisfies, Holds, DefaultFeasible, Feasible, Targets, IsBool, DefaultShadowed;
    var pieces := Pieces(cs, InOrderOf(order, targets));
    if Covered(pieces, a) {
      var k :| 0 <= k < |pieces| && a in pieces[k];
      InPiece(cs, cond, cases, order, targets, default, k, a);
    } else if Satisfies(cs, a) && !NoCase(Eval(cond, a), cases) {
      CaseInOrder(cs, cond, cases, order, targets, default, a);
      var k :| 0 <= k < |order| && order[k] == Target(Eval(cond, a), cases, default);
      InPiece(cs, cond, cases, order, targets, default, k, a);
      assert false;
    }
  }

  /** Faithful conditions send every input to its block. */
  lemma {:induction false} FaithfulSends(cs: seq<Expr>, cond: Expr, cases: seq<Case>, default: nat, order: seq<nat>,
                                         conditions: seq<Expr>)
    requires Faithful(cs, cond, cases, default, order, conditions) && Alternatives(cs, conditions)
    requires !DefaultShadowed(cs, cond, cases, default)
    ensures Sends(cs, cond, cases, default, order, conditions)
  {
    hide Target, NoCase, Eval, Holds, Satisfies, DefaultShadowed, Alternatives, Choices, AllBool;
    AlternativesMissNothing(cs, conditions);
    assert Hidden(cs, cond, cases, default) == iset{};
    forall k | 0 <= k < |order| ensures Narrowed(cs, conditions[k]) == Sent(cs, cond, cases, default, order[k]) {
      forall a ensures a in Narrowed(cs, conditions[k]) <==> a in Sent(cs, cond, cases, default, order[k]) {}
    }
    forall i, j | 0 <= i < j < |order| ensures order[i] != order[j] {
      EachPossible(cs, conditions);
      SameBlock(cs, cond, cases, default, order, conditions, i, j);
    }
    SendsAll(cs, cond, cases, default, order, conditions);
  }

  lemma {:induction false} SameBlock(cs: seq<Expr>, cond: Expr, cases: seq<Case>, default: nat, order: seq<nat>,
                                     conditions: seq<Expr>, i: nat, j: nat)
    requires Faithful(cs, cond, cases, default, order, conditions) && Choices(cs, conditions) && i < j < |order|
    ensures order[i] != order[j]
  {
    hide Target, Eval;
    EachPossible(cs, conditions);
    assert Possible(cs, conditions[i]);
    var a :| Satisfies(cs, a) && Holds(conditions[i], a);
    var pieces := Pieces(cs, conditions);
    assert a in pieces[i] && pieces[i] !! pieces[j];
  }

  lemma {:induction false} SomeAlternative(cs: seq<Expr>, conditions: seq<Expr>)
    requires Satisfiable(cs) && Alternatives(cs, conditions)
    ensures 0 < |conditions|
  {
    var a :| Satisfies(cs, a);
    assert a in Models(cs);
  }

  /** The conditions a switch is forked among. They are faithful and alternatives exactly
      when no block is reached both by an explicit case and by default: the default's inputs,
      and no others, are otherwise lost. */
  method SwitchConditions(cs: seq<Expr>, solver: Solver, cond: Expr, cases: seq<Case>, default: nat)
    returns (order: seq<nat>, conditions: seq<Expr>)
    requires AllBool(cs) && Satisfiable(cs) && Exact(solver) && IsSwitch(cond, cases)
    ensures 0 < |order| == |conditions|
    ensures Sends(cs, cond, cases, default, order, conditions)
    ensures Choices(cs, conditions) && Missed(cs, conditions) == Hidden(cs, cond, cases, default)
    ensures Alternatives(cs, conditions) <==> !DefaultShadowed(cs, cond, cases, default)
    ensures !DefaultShadowed(cs, cond, cases, default) ==> Faithful(cs, cond, cases, default, order, conditions)
  {
    hide Alternatives, Choices, Missed, Hidden, Sends, Targets, Leftover, Faithful, Possible, Certain, Truth, Feasible,
         DefaultFeasible;
    var targets, leftover;
    order, targets, leftover := CollectTargets(cs, solver, cond, cases);
    LeftoverMeaning(cs, cond, cases, leftover);
    if !solver.mayBeTrue(cs, leftover) {
      WithoutDefault(cs, cond, cases, default, order, targets);
      SomeAlternative(cs, InOrderOf(order, targets));
    } else if default in targets {
      Shadowed(cs, cond, cases, default, order, targets);
    } else {
      WithDefault(cs, cond, cases, default, order, targets, leftover);
      order, targets := order + [default], targets[default := leftover];
    }
    conditions := InOrderOf(order, targets);
    SomethingHidden(cs, cond, cases, default);
    AlternativesMissNothing(cs, conditions);
    if Alternatives(cs, conditions) {
      FaithfulSends(cs, cond, cases, default, order, conditions);
    }
  }

  /** A switch over one input byte with the single case zero, which leads to the default's
      block: zero goes there by the case, one by default. */
  lemma {:induction false} DefaultCanBeHidden() returns (cond: Expr, hidden: Assignment)
    ensures IsSwitch(cond, [Case(0, 7)]) && DefaultShadowed([], cond, [Case(0, 7)], 7)
    ensures hidden in Hidden([], cond, [Case(0, 7)], 7)
  {
    Bits.Pow2Widths();
    var root := Array(0, 1, 8, 8, []);
    cond := Read(root, NoUpdate, Constant(0, 8));
    var zero, one := Assignment(map[]), Assignment(map[root := [1]]);
    Bits.TruncWhole(1, 8);
    assert Eval(cond, zero) == ReadValue(root, NoUpdate, 0, zero) == 0;
    assert Eval(cond, one) == ReadValue(root, NoUpdate, 0, one) == 1;
    assert [Case(0, 7)][0] == Case(0, 7);
    assert CaseTo(Eval(cond, zero), [Case(0, 7)], 7) && NoCase(Eval(cond, one), [Case(0, 7)]);
    assert Satisfies([], zero) && Satisfies([], one);
    hidden := one;
  }
}
