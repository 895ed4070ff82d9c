/** Exploration of all paths: forks, branches and terminations share out the inputs and the
    weights of the states without loss or overlap. */
module Exploration {
  import opened Exprs
  import opened Booleans
  import opened Constraints
  import opened Partitions
  import opened ProcessTrees
  import opened Solvers

  // --- Path conditions as sets of inputs --------------------------------------------------------

  ghost function Models(cs: seq<Expr>): (m: iset<Assignment>) {
    iset a | Satisfies(cs, a)
  }

  /** The inputs of a path that meet a further condition. */
  ghost function Narrowed(cs: seq<Expr>, e: Expr): (m: iset<Assignment>) {
    iset a | Satisfies(cs, a) && Holds(e, a)
  }

  ghost function Pieces(cs: seq<Expr>, conditions: seq<Expr>): (ms: seq<iset<Assignment>>) {
    seq(|conditions|, k requires 0 <= k < |conditions| => Narrowed(cs, conditions[k]))
  }

  /** On the inputs of the path exactly one of the conditions holds, and each can hold. */
  ghost predicate Alternatives(cs: seq<Expr>, conditions: seq<Expr>) {
    AllBool(conditions) && Partition(Models(cs), Pieces(cs, conditions))
  }

  /** Each condition can hold and no two hold together; some inputs may meet none. */
  ghost predicate Choices(cs: seq<Expr>, conditions: seq<Expr>) {
    AllBool(conditions) && Partition(Chosen(cs, conditions), Pieces(cs, conditions))
  }

  ghost function Chosen(cs: seq<Expr>, conditions: seq<Expr>): (m: iset<Assignment>) {
    iset a | Covered(Pieces(cs, conditions), a)
  }

  /** The inputs of the path that meet none of the conditions. */
  ghost function Missed(cs: seq<Expr>, conditions: seq<Expr>): (m: iset<Assignment>) {
    Models(cs) - Chosen(cs, conditions)
  }

  /** Alternatives are choices that miss no input. */
  lemma {:induction false} AlternativesMissNothing(cs: seq<Expr>, conditions: seq<Expr>)
    ensures Alternatives(cs, conditions) <==> Choices(cs, conditions) && Missed(cs, conditions) == iset{}
    ensures Chosen(cs, conditions) <= Models(cs)
  {
    var pieces := Pieces(cs, conditions);
    forall a | Covered(pieces, a) ensures a in Models(cs) {
      var k :| 0 <= k < |pieces| && a in pieces[k];
    }
    if Choices(cs, conditions) && Missed(cs, conditions) == iset{} {
      forall a ensures a in Models(cs) <==> Covered(pieces, a) {
        assert a !in Missed(cs, conditions);
      }
    }
  }

  lemma {:induction false} OneChoice(cs: seq<Expr>, conditions: seq<Expr>, next: nat)
    requires next < |conditions| && Choices(cs, conditions)
    ensures Choices(cs, [conditions[next]])
    ensures Missed(cs, [conditions[next]]) == Models(cs) - Narrowed(cs, conditions[next])
  {
    var pieces, piece := Pieces(cs, conditions), Pieces(cs, [conditions[next]]);
    assert piece == [Narrowed(cs, conditions[next])] && pieces[next] == Narrowed(cs, conditions[next]);
    forall a ensures a in Narrowed(cs, conditions[next]) <==> Covered(piece, a) {
      assert a in piece[0] <==> a in Narrowed(cs, conditions[next]);
    }
  }

  lemma {:induction false} NonEmpty(cs: seq<Expr>, e: Expr)
    ensures Satisfiable(cs) <==> Models(cs) != iset{}
    ensures Possible(cs, e) <==> Narrowed(cs, e) != iset{}
  {
    if Satisfiable(cs) {
      var a :| Satisfies(cs, a);
      assert a in Models(cs);
    }
    if Possible(cs, e) {
      var a :| Satisfies(cs, a) && Holds(e, a);
      assert a in Narrowed(cs, e);
    }
  }

  /** A condition that is open and its negation are alternatives. */
  lemma {:induction false} TwoAlternatives(cs: seq<Expr>, e: Expr)
    requires AllBool(cs) && IsBool(e) && Possible(cs, e) && !Certain(cs, e)
    ensures Alternatives(cs, [e, IsZero(e)]) && Alternatives(cs, [IsZero(e), e]) && Possible(cs, IsZero(e))
  {
    forall a ensures Holds(IsZero(e), a) <==> !Holds(e, a) {
      BoolValue(e, a);
      IsZeroValue(e, a);
    }
    NonEmpty(cs, e);
    NonEmpty(cs, IsZero(e));
    var a :| Satisfies(cs, a) && !Holds(e, a);
    assert a in Narrowed(cs, IsZero(e));
    TwoParts(Models(cs), Narrowed(cs, e), Narrowed(cs, IsZero(e)));
    assert Pieces(cs, [e, IsZero(e)]) == [Narrowed(cs, e), Narrowed(cs, IsZero(e))];
    assert Pieces(cs, [IsZero(e), e]) == [Narrowed(cs, IsZero(e)), Narrowed(cs, e)];
  }

  lemma {:induction false} EachPossible(cs: seq<Expr>, conditions: seq<Expr>)
    requires Choices(cs, conditions)
    ensures AllBool(conditions)
    ensures forall k :: 0 <= k < |conditions| ==> Possible(cs, conditions[k])
  {
    forall k | 0 <= k < |conditions| ensures Possible(cs, conditions[k]) {
      assert Pieces(cs, conditions)[k] == Narrowed(cs, conditions[k]);
      NonEmpty(cs, conditions[k]);
    }
  }

  // --- Weights ---------------------------------------------------------------------------------------

  /** 2 to the power of -depth. */
  ghost function Half(depth: nat): (r: real) {
    if depth == 0 then 1.0 else Half(depth - 1) / 2.0
  }

  ghost function Total(ws: seq<real>): (r: real) {
    if ws == [] then 0.0 else Total(ws[..|ws| - 1]) + ws[|ws| - 1]
  }

  /** Moving part of a weight to a new entry keeps the total. */
  lemma {:induction false} TotalShift(ws: seq<real>, i: nat, w: real)
    requires i < |ws|
    ensures Total(ws[i := w]) == Total(ws) - ws[i] + w
    ensures Total(ws[i := w] + [ws[i] - w]) == Total(ws)
  {
    var n := |ws| - 1;
    assert (ws[i := w] + [ws[i] - w])[..|ws|] == ws[i := w];
    if i == n {
      assert ws[i := w][..n] == ws[..n];
    } else {
      assert ws[i := w][..n] == ws[..n][i := w];
      TotalShift(ws[..n], i, w);
    }
  }

  // --- States ------------------------------------------------------------------------------------------

  class ExecutionState {
    var depth: nat
    var weight: real
    var constraints: seq<Expr>
    var ptreeNode: PTreeNode?<ExecutionState>

    constructor Initial(assumptions: seq<Expr>)
      ensures depth == 0 && weight == 1.0 && constraints == assumptions && ptreeNode == null
    {
      depth, weight, constraints, ptreeNode := 0, 1.0, assumptions, null;
    }

    constructor Copy(s: ExecutionState)
      ensures depth == s.depth && weight == s.weight && constraints == s.constraints && ptreeNode == s.ptreeNode
    {
      depth, weight, constraints, ptreeNode := s.depth, s.weight, s.constraints, s.ptreeNode;
    }

    /** Each of the two states gets half of the weight. */
    method Branch() returns (falseState: ExecutionState)
      modifies this`depth, this`weight
      ensures fresh(falseState) && depth == falseState.depth == old(depth) + 1
      ensures weight == falseState.weight == old(weight) / 2.0
      ensures falseState.constraints == constraints && falseState.ptreeNode == ptreeNode
    {
      depth := depth + 1;
      falseState := new ExecutionState.Copy(this);
      weight := weight * 0.5;
      falseState.weight := falseState.weight - weight;
    }

    /** The path condition with one more conjunct. */
    method AddConstraint(e: Expr, rewriteEqualities: bool)
      requires AllBool(constraints) && IsBool(e) && Possible(constraints, e)
      modifies this`constraints
      ensures AllBool(constraints) && Models(constraints) == Narrowed(old(constraints), e)
    {
      var before := constraints;
      if e.Constant? {
        var a :| Satisfies(before, a) && Holds(e, a);
        assert Models(before) == Narrowed(before, e);
        return;
      }
      var manager := new ConstraintManager(constraints, rewriteEqualities);
      assert Satisfiable(before + [e]) by {
        var a :| Satisfies(before, a) && Holds(e, a);
        SatisfiesPush(before, e, a);
      }
      var ok := manager.AddConstraint(e);
      constraints := manager.constraints;
      assert Models(constraints) == Narrowed(before, e);
    }
  }

  ghost function Parts(all: seq<ExecutionState>): (ms: seq<iset<Assignment>>)
    reads all
  {
    seq(|all|, i requires 0 <= i < |all| reads all => Models(all[i].constraints))
  }

  ghost function Weights(all: seq<ExecutionState>): (ws: seq<real>)
    reads all
  {
    seq(|all|, i requires 0 <= i < |all| reads all => all[i].weight)
  }

  ghost function Depths(all: seq<ExecutionState>): (ds: seq<nat>)
    reads all
  {
    seq(|all|, i requires 0 <= i < |all| reads all => all[i].depth)
  }

  /** Every weight is 2^-depth and together they are one. */
  ghost predicate Even(ws: seq<real>, ds: seq<nat>) {
    |ws| == |ds| && Total(ws) == 1.0 && forall k :: 0 <= k < |ws| ==> ws[k] == Half(ds[k])
  }

  /** Halving one weight for the sake of a new state is fair. */
  lemma {:induction false} EvenAfter(ws: seq<real>, ds: seq<nat>, i: nat)
    requires Even(ws, ds) && i < |ws|
    ensures Even(ws[i := ws[i] / 2.0] + [ws[i] / 2.0], ds[i := ds[i] + 1] + [ds[i] + 1])
  {
    TotalShift(ws, i, ws[i] / 2.0);
    assert ws[i] - ws[i] / 2.0 == ws[i] / 2.0;
  }

  ghost predicate Fair(all: seq<ExecutionState>)
    reads all
  {
    Even(Weights(all), Depths(all))
  }

  /** The path conditions of these states share out the inputs. */
  ghost predicate Shared(inputs: iset<Assignment>, all: seq<ExecutionState>)
    reads all
  {
    Partition(inputs, Parts(all)) && forall s :: s in all ==> AllBool(s.constraints)
  }

  ghost predicate NoDuplicates(ss: seq<ExecutionState>) {
    forall i, j :: 0 <= i < j < |ss| ==> ss[i] != ss[j]
  }

  /** The lists of states agree with each other. */
  ghost predicate Agree(states: set<ExecutionState>, added: seq<ExecutionState>, removed: seq<ExecutionState>,
                        all: seq<ExecutionState>)
  {
    && NoDuplicates(all) && NoDuplicates(added) && NoDuplicates(removed)
    && (forall s :: s in added ==> s in all && s !in states)
    && (forall s :: s in states ==> s in all)
    && (forall s :: s in removed ==> s in states)
  }

  lemma {:induction false} AgreeAdded(states: set<ExecutionState>, added: seq<ExecutionState>,
                                      removed: seq<ExecutionState>, all: seq<ExecutionState>, ns: ExecutionState)
    requires Agree(states, added, removed, all) && ns !in all
    ensures Agree(states, added + [ns], removed, all + [ns])
  {
  }

  lemma {:induction false} AgreeDropped(states: set<ExecutionState>, added: seq<ExecutionState>,
                                        removed: seq<ExecutionState>, all: seq<ExecutionState>, i: nat)
    requires Agree(states, added, removed, all) && i < |added|
    ensures Agree(states, added[..i] + added[i + 1..], removed, all) && added[i] !in states
    ensures forall s :: s in added[..i] + added[i + 1..] <==> s in added && s != added[i]
  {
  }

  lemma {:induction false} AgreeRemoved(states: set<ExecutionState>, added: seq<ExecutionState>,
                                        removed: seq<ExecutionState>, all: seq<ExecutionState>, s: ExecutionState)
    requires Agree(states, added, removed, all) && s in states && s !in removed
    ensures Agree(states, added, removed + [s], all)
  {
  }

  lemma {:induction false} AgreeTaken(states: set<ExecutionState>, added: seq<ExecutionState>,
                                      removed: seq<ExecutionState>, all: seq<ExecutionState>)
    requires Agree(states, added, removed, all)
    ensures Agree(states + set s | s in added, [], removed, all)
  {
  }

  lemma {:induction false} AgreeErased(states: set<ExecutionState>, removed: seq<ExecutionState>,
                                       all: seq<ExecutionState>)
    requires Agree(states, [], removed, all) && removed != []
    ensures removed[0] in states && Agree(states - {removed[0]}, [], removed[1..], all)
  {
  }

  lemma {:induction false} Alone(s: ExecutionState)
    ensures NoDuplicates([s])
  {
  }

  lemma {:induction false} OneMoreState(ss: seq<ExecutionState>, s: ExecutionState)
    requires NoDuplicates(ss) && s !in ss
    ensures NoDuplicates(ss + [s])
  {
  }

  /** A path and the alternatives it is divided among. */
  datatype Cut = Cut(es: ExecutionState, conditions: seq<Expr>)

  class Executor {
    const solver: Solver
    const rewriteEqualities: bool
    const maxDepth: nat
    ghost const initial: seq<Expr>
    var states: set<ExecutionState>
    var addedStates: seq<ExecutionState>
    var removedStates: seq<ExecutionState>
    var processTree: PTree<ExecutionState>
    ghost var all: seq<ExecutionState>
    ghost var covered: iset<Assignment>

    ghost function Live(): (live: set<ExecutionState>)
      reads this
    {
      states + set s | s in addedStates
    }

    /** The live states that are not about to be removed. */
    ghost function Running(): (running: set<ExecutionState>)
      reads this
    {
      Live() - set s | s in removedStates
    }

    /** The process tree carries exactly these states. */
    ghost predicate InTree(live: set<ExecutionState>)
      reads *
    {
      && processTree.Valid() && processTree.leaves.Keys == live
      && forall s :: s in live ==> s.ptreeNode == processTree.leaves[s]
    }

    ghost predicate Books()
      reads this
    {
      Agree(states, addedStates, removedStates, all)
    }

    ghost predicate Valid()
      reads *
    {
      Exact(solver) && Books() && InTree(Live()) && Fair(all) && Shared(covered, all) && covered <= Models(initial)
    }

    constructor (solver: Solver, assumptions: seq<Expr>, rewriteEqualities: bool, maxDepth: nat)
      requires Exact(solver) && AllBool(assumptions) && Satisfiable(assumptions)
      ensures Valid() && addedStates == [] && removedStates == []
      ensures initial == assumptions && covered == Models(assumptions)
    {
      var s := new ExecutionState.Initial(assumptions);
      this.solver, this.rewriteEqualities, this.maxDepth := solver, rewriteEqualities, maxDepth;
      initial, covered := assumptions, Models(assumptions);
      states, addedStates, removedStates, all := {s}, [], [], [s];
      processTree := new PTree(s);
      new;
      s.ptreeNode := processTree.root;
      NonEmpty(assumptions, Bool(true));
      assert Parts(all) == [Models(assumptions)];
      assert Parts(all)[0] == Models(assumptions);
      assert Weights(all) == [1.0];
    }

    /** The node of a state becomes an inner node above the state and a new one. */
    method DivideTree(ghost live: set<ExecutionState>, es: ExecutionState, ns: ExecutionState, newOnLeft: bool)
      requires InTree(live) && es in live && ns !in live
      modifies processTree`nodes, processTree`leaves, processTree.nodes, es`ptreeNode, ns`ptreeNode
      ensures InTree(live + {ns}) && fresh(processTree.nodes - old(processTree.nodes))
    {
      processTree.LeafOf(es);
      var n := es.ptreeNode;
      hide PTree.Valid, PTree.Linked, PTree.LabelledBut;
      var l, r := processTree.Divide(n, if newOnLeft then ns else es, if newOnLeft then es else ns);
      es.ptreeNode, ns.ptreeNode := if newOnLeft then r else l, if newOnLeft then l else r;
    }

    /** Splits a state and its node; path conditions are not touched. */
    method Divide(es: ExecutionState, newOnLeft: bool) returns (ns: ExecutionState)
      requires Books() && InTree(Live()) && Fair(all) && es in Live()
      modifies this`addedStates, this`all, es, processTree`nodes, processTree`leaves, processTree.nodes
      ensures Books() && InTree(Live()) && Fair(all)
      ensures fresh(ns) && all == old(all) + [ns] && addedStates == old(addedStates) + [ns]
      ensures es.constraints == old(es.constraints) == ns.constraints && es.depth == ns.depth == old(es.depth) + 1
      ensures fresh(processTree.nodes - old(processTree.nodes))
    {
      hide Executor.InTree, NoDuplicates, Even;
      ns := es.Branch();
      ghost var live := Live();
      AgreeAdded(states, addedStates, removedStates, all, ns);
      addedStates := addedStates + [ns];
      all := all + [ns];
      assert Live() == live + {ns};
      TreeSteady(live);
      DivideTree(live, es, ns, newOnLeft);
      DivideWeights(es);
    }

    twostate lemma {:induction false} DivideWeights(es: ExecutionState)
      requires old(Fair(all)) && es in old(all) && |all| == |old(all)| + 1
      requires forall k :: 0 <= k < |old(all)| ==> all[k] == old(all)[k]
      requires NoDuplicates(old(all))
      requires forall s :: s in old(all) && s != es ==> s.weight == old(s.weight) && s.depth == old(s.depth)
      requires es.depth == all[|old(all)|].depth == old(es.depth) + 1
      requires es.weight == all[|old(all)|].weight == old(es.weight) / 2.0
      ensures Fair(all)
    {
      var i :| 0 <= i < |old(all)| && old(all)[i] == es;
      var ws, ds := old(Weights(all)), old(Depths(all));
      EvenAfter(ws, ds, i);
      var n := |old(all)|;
      forall k | 0 <= k < |all|
        ensures all[k].weight == (ws[i := ws[i] / 2.0] + [ws[i] / 2.0])[k]
        ensures all[k].depth == (ds[i := ds[i] + 1] + [ds[i] + 1])[k]
      {
        if k < n {
          assert all[k] == old(all)[k] && ws[k] == old(all[k].weight) && ds[k] == old(all[k].depth);
        }
      }
      assert Weights(all) == ws[i := ws[i] / 2.0] + [ws[i] / 2.0];
      assert Depths(all) == ds[i := ds[i] + 1] + [ds[i] + 1];
    }

    /** Nothing about the tree changed. */
    twostate lemma {:induction false} TreeSteady(live: set<ExecutionState>)
      requires old(InTree(live)) && processTree == old(processTree)
      requires unchanged(old(processTree)) && unchanged(old(processTree.nodes))
      requires forall s :: s in live ==> s.ptreeNode == old(s.ptreeNode)
      ensures InTree(live)
    {
    }

    /** Path conditions aside, nothing changed. */
    twostate lemma {:induction false} Steady(live: set<ExecutionState>)
      requires old(InTree(live)) && old(Fair(all)) && all == old(all) && processTree == old(processTree)
      requires unchanged(old(processTree)) && unchanged(old(processTree.nodes))
      requires forall s :: s in live ==> s.ptreeNode == old(s.ptreeNode)
      requires forall s :: s in all ==> s.weight == old(s.weight) && s.depth == old(s.depth)
      ensures InTree(live) && Fair(all)
    {
      assert Weights(all) == old(Weights(all));
      assert Depths(all) == old(Depths(all));
    }

    /** Adds a constraint to one state. */
    method Constrain(s: ExecutionState, e: Expr)
      requires InTree(Live()) && Fair(all) && AllBool(s.constraints) && IsBool(e) && Possible(s.constraints, e)
      modifies s`constraints
      ensures InTree(Live()) && Fair(all)
      ensures AllBool(s.constraints) && Models(s.constraints) == Narrowed(old(s.constraints), e)
    {
      hide PTree.Valid, Even, Models, Narrowed;
      s.AddConstraint(e, rewriteEqualities);
      Steady(Live());
    }

    /** Dividing one path among choices shares it out, except for what they miss. */
    twostate lemma {:induction false} StillShared(cut: Cut)
      requires old(Shared(covered, all)) && NoDuplicates(old(all)) && cut.es in old(all)
      requires 0 < |cut.conditions| && |all| == |old(all)| + |cut.conditions| - 1
      requires forall k :: 0 <= k < |old(all)| ==> all[k] == old(all)[k]
      requires forall s :: s in old(all) && s != cut.es ==> s.constraints == old(s.constraints)
      requires AllBool(cut.es.constraints)
      requires Choices(old(cut.es.constraints), cut.conditions)
      requires Models(cut.es.constraints) == Narrowed(old(cut.es.constraints), cut.conditions[0])
      requires forall j :: |old(all)| <= j < |all| ==>
                 && AllBool(all[j].constraints)
                 && Models(all[j].constraints) == Narrowed(old(cut.es.constraints), cut.conditions[j - |old(all)| + 1])
      ensures Shared(old(covered) - Missed(old(cut.es.constraints), cut.conditions), all)
    {
      hide Models, Narrowed, Partition, AllBool, Chosen;
      var i :| 0 <= i < |old(all)| && old(all)[i] == cut.es;
      var parts, pieces := old(Parts(all)), Pieces(old(cut.es.constraints), cut.conditions);
      AlternativesMissNothing(old(cut.es.constraints), cut.conditions);
      DivideSome(old(covered), parts, i, pieces, Chosen(old(cut.es.constraints), cut.conditions));
      var n := |old(all)|;
      forall k | 0 <= k < |all|
        ensures AllBool(all[k].constraints) && Models(all[k].constraints) == Replaced(parts, i, pieces)[k]
      {
        if k < n {
          assert all[k] == old(all)[k] && parts[k] == Models(old(all[k].constraints));
        } else {
          assert Models(all[k].constraints) == pieces[k - n + 1];
        }
      }
      assert Parts(all) == Replaced(parts, i, pieces);
    }

    /** Alternatives miss nothing. */
    twostate lemma {:induction false} StillSharedOut(cut: Cut)
      requires old(Shared(covered, all)) && NoDuplicates(old(all)) && cut.es in old(all)
      requires 0 < |cut.conditions| && |all| == |old(all)| + |cut.conditions| - 1
      requires forall k :: 0 <= k < |old(all)| ==> all[k] == old(all)[k]
      requires forall s :: s in old(all) && s != cut.es ==> s.constraints == old(s.constraints)
      requires AllBool(cut.es.constraints)
      requires Alternatives(old(cut.es.constraints), cut.conditions)
      requires Models(cut.es.constraints) == Narrowed(old(cut.es.constraints), cut.conditions[0])
      requires forall j :: |old(all)| <= j < |all| ==>
                 && AllBool(all[j].constraints)
                 && Models(all[j].constraints) == Narrowed(old(cut.es.constraints), cut.conditions[j - |old(all)| + 1])
      ensures Shared(old(covered), all)
    {
      hide Models, Narrowed, Partition, AllBool, Shared, Alternatives, Choices, Missed, NoDuplicates;
      AlternativesMissNothing(old(cut.es.constraints), cut.conditions);
      StillShared(cut);
      assert old(covered) - iset{} == old(covered);
    }

    /** No path is infeasible. */
    lemma {:induction false} StillPossible(s: ExecutionState)
      requires Shared(covered, all) && s in all
      ensures AllBool(s.constraints) && Satisfiable(s.constraints)
    {
      var i :| 0 <= i < |all| && all[i] == s;
      assert Parts(all)[i] == Models(s.constraints);
      NonEmpty(s.constraints, Bool(true));
    }

    /** What the invariant says about the whole exploration: every covered input is on the
        path of exactly one state, alive or not, no path is infeasible, every weight is
        2^-depth and the weights add up to one. */
    lemma {:induction false} Accounted()
      requires Valid()
      ensures forall a :: a in covered <==> exists s :: s in all && Satisfies(s.constraints, a)
      ensures forall s, t, a ::
                s in all && t in all && Satisfies(s.constraints, a) && Satisfies(t.constraints, a) ==> s == t
      ensures forall s :: s in all ==> Satisfiable(s.constraints) && s.weight == Half(s.depth)
      ensures Total(Weights(all)) == 1.0
    {
      forall a ensures a in covered <==> exists s :: s in all && Satisfies(s.constraints, a) {
        InputOfParts(a);
      }
      forall s, t, a | s in all && t in all && Satisfies(s.constraints, a) && Satisfies(t.constraints, a)
        ensures s == t
      {
        InputOfOne(s, t, a);
      }
      forall s | s in all ensures Satisfiable(s.constraints) && s.weight == Half(s.depth) {
        StillPossible(s);
        var k :| 0 <= k < |all| && all[k] == s;
        assert Weights(all)[k] == s.weight && Depths(all)[k] == s.depth;
      }
    }

    lemma {:induction false} InputOfParts(a: Assignment)
      requires Shared(covered, all)
      ensures a in covered <==> exists s :: s in all && Satisfies(s.constraints, a)
    {
      assert a in covered <==> Covered(Parts(all), a);
      if s :| s in all && Satisfies(s.constraints, a) {
        var k :| 0 <= k < |all| && all[k] == s;
        assert a in Parts(all)[k];
      }
      if Covered(Parts(all), a) {
        var k :| 0 <= k < |Parts(all)| && a in Parts(all)[k];
        assert all[k] in all && Satisfies(all[k].constraints, a);
      }
    }

    lemma {:induction false} InputOfOne(s: ExecutionState, t: ExecutionState, a: Assignment)
      requires Shared(covered, all) && s in all && t in all
      requires Satisfies(s.constraints, a) && Satisfies(t.constraints, a)
      ensures s == t
    {
      var j :| 0 <= j < |all| && all[j] == s;
      var k :| 0 <= k < |all| && all[k] == t;
      assert a in Parts(all)[j] && a in Parts(all)[k];
    }

    /** A path has no inputs but covered ones. */
    lemma {:induction false} PathCovered(s: ExecutionState)
      requires Shared(covered, all) && s in all
      ensures Models(s.constraints) <= covered
    {
      forall a | a in Models(s.constraints) ensures a in covered {
        InputOfParts(a);
      }
    }

    /** So no two states have the same path condition. */
    lemma {:induction false} PathsDiffer(s: ExecutionState, t: ExecutionState)
      requires Shared(covered, all) && s in all && t in all && s.constraints == t.constraints
      ensures s == t
    {
      StillPossible(s);
      var a :| Satisfies(s.constraints, a);
      InputOfOne(s, t, a);
    }

    lemma {:induction false} Known(s: ExecutionState)
      requires Valid() && s in Live()
      ensures s in all && NoDuplicates(all) && AllBool(s.constraints) && Satisfiable(s.constraints)
      ensures s.ptreeNode != null && s.ptreeNode in processTree.nodes
    {
      StillPossible(s);
      processTree.LeafOf(s);
    }

    // --- Forks ----------------------------------------------------------------------------------

    /** Where a condition is settled the state goes on alone; where it is open a second state
        takes the other side, unless that exceeds the depth limit, which ends both. Which of the
        two is the new one is a coin toss. */
    method Fork(current: ExecutionState, condition: Expr, swap: bool)
      returns (trueState: ExecutionState?, falseState: ExecutionState?)
      requires Valid() && current in Live() && current !in removedStates && IsBool(condition)
      modifies this`addedStates, this`removedStates, this`all, current, processTree, processTree.nodes
      ensures Valid()
      ensures Certain(old(current.constraints), condition) ==> trueState == current && falseState == null
      ensures !Possible(old(current.constraints), condition) ==> trueState == null && falseState == current
      ensures (trueState == null) != (falseState == null) <==>
                Certain(old(current.constraints), condition) || !Possible(old(current.constraints), condition)
      ensures (trueState == null) != (falseState == null) ==>
                all == old(all) && current.constraints == old(current.constraints)
                && current.depth == old(current.depth)
      ensures trueState != null ==> trueState in Live() && trueState !in removedStates
      ensures trueState != null ==> Models(trueState.constraints) == Narrowed(old(current.constraints), condition)
      ensures falseState != null ==> falseState in Live() && falseState !in removedStates
      ensures falseState != null ==>
                Models(falseState.constraints) == Narrowed(old(current.constraints), IsZero(condition))
      ensures trueState == falseState == null <==>
                Possible(old(current.constraints), condition) && !Certain(old(current.constraints), condition)
                && 0 < maxDepth <= old(current.depth) + 1
      ensures trueState != null && falseState != null ==>
                trueState.depth == falseState.depth == old(current.depth) + 1
      ensures trueState == falseState == null ==> Running() == old(Running()) - {current}
      ensures (trueState == null) != (falseState == null) ==> Running() == old(Running())
      ensures trueState != null && falseState != null ==>
                trueState != falseState && current in {trueState, falseState}
                && old(Running()) * {trueState, falseState} <= {current}
                && Running() == old(Running()) + {trueState, falseState}
      ensures fresh(processTree.nodes - old(processTree.nodes)) && forall s :: s in all ==> s in old(all) || fresh(s)
    {
      hide Executor.Valid, Executor.Live, Executor.Running, Models, Narrowed, Certain, Possible;
      ghost var running := Running();
      var truth := Evaluate(current, condition);
      if truth == True {
        return current, null;
      } else if truth == False {
        return null, current;
      }
      trueState, falseState := ForkBoth(current, condition, swap);
      if 0 < maxDepth <= trueState.depth {
        TerminateState(trueState);
        TerminateState(falseState);
        assert Running() == running + {trueState, falseState} - {trueState, falseState} == running - {current};
        return null, null;
      }
    }

    method Evaluate(current: ExecutionState, condition: Expr) returns (truth: Validity)
      requires Valid() && current in Live() && IsBool(condition)
      ensures truth == True ==> Certain(current.constraints, condition) && Possible(current.constraints, condition)
      ensures truth == True ==> Models(current.constraints) == Narrowed(current.constraints, condition)
      ensures truth == False ==> !Possible(current.constraints, condition) && !Certain(current.constraints, condition)
      ensures truth == False ==> Models(current.constraints) == Narrowed(current.constraints, IsZero(condition))
      ensures truth == Unknown ==> Possible(current.constraints, condition) && !Certain(current.constraints, condition)
    {
      StillPossible(current);
      OneSided(current.constraints, condition);
      truth := solver.evaluate(current.constraints, condition);
    }

    method ForkBoth(current: ExecutionState, condition: Expr, swap: bool)
      returns (trueState: ExecutionState, falseState: ExecutionState)
      requires Valid() && current in Live() && current !in removedStates && IsBool(condition)
      requires Possible(current.constraints, condition) && !Certain(current.constraints, condition)
      modifies this`addedStates, this`all, current, processTree`nodes, processTree`leaves, processTree.nodes
      ensures Valid() && trueState != falseState && trueState in Live() && falseState in Live()
      ensures trueState !in removedStates && falseState !in removedStates
      ensures trueState.depth == falseState.depth == old(current.depth) + 1
      ensures current in {trueState, falseState} && Running() == old(Running()) + {trueState, falseState}
      ensures old(Running()) * {trueState, falseState} <= {current}
      ensures Models(trueState.constraints) == Narrowed(old(current.constraints), condition)
      ensures Models(falseState.constraints) == Narrowed(old(current.constraints), IsZero(condition))
      ensures fresh(processTree.nodes - old(processTree.nodes)) && forall s :: s in all ==> s in old(all) || fresh(s)
    {
      hide Executor.InTree, Executor.Live, Executor.Running, Shared, Agree, NoDuplicates, Fair, Models, Narrowed,
           Partition, Pieces;
      Known(current);
      TwoAlternatives(current.constraints, condition);
      var ns := Divide(current, !swap);
      assert (set r | r in [current, ns]) == {current, ns} && [current, ns][1..] == [ns];
      if swap {
        trueState, falseState := ns, current;
      } else {
        trueState, falseState := current, ns;
      }
      Constrain(trueState, condition);
      Constrain(falseState, IsZero(condition));
      RunningGrows([current, ns]);
      StillSharedOut(Cut(current, if swap then [IsZero(condition), condition] else [condition, IsZero(condition)]));
    }

    /** As many copies of the state as there are conditions, split off from randomly chosen
        ones among those made so far. */
    method Multiply(state: ExecutionState, n: nat) returns (result: seq<ExecutionState>)
      requires Books() && InTree(Live()) && Fair(all) && state in Live() && 0 < n
      modifies this`addedStates, this`all, state, processTree`nodes, processTree`leaves, processTree.nodes
      ensures Books() && InTree(Live()) && Fair(all)
      ensures |result| == n && result[0] == state && NoDuplicates(result) && |all| == |old(all)| + n - 1
      ensures forall k :: 0 <= k < |old(all)| ==> all[k] == old(all)[k]
      ensures forall j :: |old(all)| <= j < |all| ==> all[j] == result[j - |old(all)| + 1]
      ensures forall r :: r in result ==> r in Live() && r.constraints == old(state.constraints)
      ensures forall r :: r in result ==> r == state || fresh(r)
      ensures addedStates == old(addedStates) + result[1..] && forall k :: 1 <= k < n ==> fresh(result[k])
      ensures fresh(processTree.nodes - old(processTree.nodes)) && forall s :: s in all ==> s in old(all) || fresh(s)
    {
      hide Agree, NoDuplicates, Fair, Executor.InTree;
      result := [state];
      Alone(state);
      for i := 1 to n
        invariant Books() && InTree(Live()) && Fair(all)
        invariant |result| == i && result[0] == state && NoDuplicates(result) && all == old(all) + result[1..]
        invariant forall r :: r in result ==> r in Live() && r.constraints == old(state.constraints)
        invariant forall r :: r in result ==> r == state || fresh(r)
        invariant addedStates == old(addedStates) + result[1..] && forall k :: 1 <= k < i ==> fresh(result[k])
        invariant fresh(processTree.nodes - old(processTree.nodes))
        invariant forall s :: s in all ==> s in old(all) || fresh(s)
      {
        var k: nat :| k < i;
        assert result[k] in result && forall o :: o in processTree.nodes ==> o in old(processTree.nodes) || fresh(o);
        var ns := Divide(result[k], true);
        OneMoreState(result, ns);
        assert (result + [ns])[1..] == result[1..] + [ns];
        result := result + [ns];
      }
    }

    method ConstrainAll(result: seq<ExecutionState>, conditions: seq<Expr>, ghost cs: seq<Expr>)
      requires InTree(Live()) && Fair(all) && |result| == |conditions| && NoDuplicates(result)
      requires forall k :: 0 <= k < |result| ==> result[k].constraints == cs
      requires AllBool(cs) && AllBool(conditions) && forall k :: 0 <= k < |conditions| ==> Possible(cs, conditions[k])
      modifies set r | r in result
      ensures InTree(Live()) && Fair(all)
      ensures forall k :: 0 <= k < |result| ==>
                AllBool(result[k].constraints) && Models(result[k].constraints) == Narrowed(cs, conditions[k])
    {
      hide Fair, Executor.InTree, Models, Narrowed, Possible;
      for i := 0 to |result|
        invariant InTree(Live()) && Fair(all)
        invariant forall k :: i <= k < |result| ==> result[k].constraints == cs
        invariant forall k :: 0 <= k < i ==>
                    AllBool(result[k].constraints) && Models(result[k].constraints) == Narrowed(cs, conditions[k])
      {
        Constrain(result[i], conditions[i]);
      }
    }

    /** Copies of the state, each with one of the conditions. */
    method Spread(state: ExecutionState, conditions: seq<Expr>) returns (result: seq<ExecutionState>)
      requires Books() && InTree(Live()) && Fair(all) && state in Live() && state in all && 0 < |conditions|
      requires AllBool(state.constraints) && AllBool(conditions)
      requires forall k :: 0 <= k < |conditions| ==> Possible(state.constraints, conditions[k])
      modifies this`addedStates, this`all, state, processTree`nodes, processTree`leaves, processTree.nodes
      ensures Books() && InTree(Live()) && Fair(all)
      ensures |result| == |conditions| && result[0] == state && NoDuplicates(result)
      ensures |all| == |old(all)| + |conditions| - 1
      ensures forall k :: 0 <= k < |old(all)| ==> all[k] == old(all)[k]
      ensures forall j :: |old(all)| <= j < |all| ==> all[j] == result[j - |old(all)| + 1]
      ensures forall k :: 0 <= k < |result| ==>
                result[k] in Live() && AllBool(result[k].constraints)
                && Models(result[k].constraints) == Narrowed(old(state.constraints), conditions[k])
      ensures addedStates == old(addedStates) + result[1..] && forall k :: 1 <= k < |result| ==> fresh(result[k])
      ensures fresh(processTree.nodes - old(processTree.nodes)) && forall s :: s in all ==> s in old(all) || fresh(s)
    {
      hide Executor.InTree, Executor.Live, Agree, NoDuplicates, Fair, Models, Narrowed, Possible;
      result := Multiply(state, |conditions|);
      assert forall k :: 0 <= k < |result| ==> result[k] in result;
      ConstrainAll(result, conditions, old(state.constraints));
    }

    twostate lemma {:induction false} RunningGrows(new result: seq<ExecutionState>)
      requires result != [] && result[0] in old(Live()) && result[0] !in old(removedStates)
      requires states == old(states) && removedStates == old(removedStates)
      requires addedStates == old(addedStates) + result[1..] && forall r :: r in result[1..] ==> fresh(r)
      ensures Running() == old(Running()) + set r | r in result
      ensures old(Running()) * (set r | r in result) <= {result[0]}
      ensures forall r :: r in result ==> r in Live() && r !in removedStates
    {
      assert result == [result[0]] + result[1..];
    }

    /** Some inputs are no longer covered. */
    ghost method GiveUp(missed: iset<Assignment>)
      requires Books() && InTree(Live()) && Fair(all)
      modifies this`covered
      ensures Books() && InTree(Live()) && Fair(all)
      ensures covered == old(covered) - missed && Live() == old(Live())
    {
      hide PTree.Valid, Agree, Even;
      covered := covered - missed;
    }

    /** Forks a state among any number of choices at once. What they miss is no longer covered;
        alternatives miss nothing. */
    method BranchAmong(state: ExecutionState, conditions: seq<Expr>) returns (result: seq<ExecutionState>)
      requires Valid() && state in Live() && state !in removedStates
      requires 0 < |conditions| && Choices(state.constraints, conditions)
      modifies this`addedStates, this`all, this`covered, state, processTree`nodes, processTree`leaves, processTree.nodes
      ensures Valid() && |result| == |conditions| && NoDuplicates(result) && result[0] == state
      ensures |all| == |old(all)| + |conditions| - 1 && Running() == old(Running()) + set r | r in result
      ensures old(Running()) * (set r | r in result) <= {state}
      ensures covered == old(covered) - Missed(old(state.constraints), conditions)
      ensures forall k :: 0 <= k < |result| ==>
                result[k] in Live() && Models(result[k].constraints) == Narrowed(old(state.constraints), conditions[k])
      ensures fresh(processTree.nodes - old(processTree.nodes)) && forall s :: s in all ==> s in old(all) || fresh(s)
    {
      hide Executor.InTree, Executor.Live, Shared, Agree, NoDuplicates, Fair, Models, Narrowed, Partition, Pieces,
           Possible, Missed, AllBool, Chosen, Choices;
      Known(state);
      EachPossible(state.constraints, conditions);
      GiveUp(Missed(state.constraints, conditions));
      result := Spread(state, conditions);
      assert result[0] == state && forall j :: |old(all)| <= j < |all| ==> all[j] == result[j - |old(all)| + 1];
      StillShared(Cut(state, conditions));
      RunningGrows(result);
    }

    /** At the fork limit one condition is picked and the state goes on alone with it: what the
        other conditions would have taken is no longer covered. */
    method Inhibit(state: ExecutionState, conditions: seq<Expr>, next: nat)
      requires Valid() && state in Live() && state !in removedStates
      requires next < |conditions| && Choices(state.constraints, conditions)
      modifies this`addedStates, this`all, this`covered, state, processTree`nodes, processTree`leaves, processTree.nodes
      ensures Valid() && state in Live() && |all| == |old(all)| && Running() == old(Running())
      ensures Models(state.constraints) == Narrowed(old(state.constraints), conditions[next])
      ensures covered == old(covered) - (Models(old(state.constraints)) - Models(state.constraints))
    {
      hide Executor.Valid, Executor.Live, Models, Narrowed;
      OneChoice(state.constraints, conditions, next);
      var result := BranchAmong(state, [conditions[next]]);
    }

    // --- Termination ----------------------------------------------------------------------------

    /** A state gives up its node. */
    method LeaveTree(ghost live: set<ExecutionState>, s: ExecutionState)
      requires InTree(live) && s in live
      modifies processTree`nodes, processTree`leaves, processTree.nodes
      ensures InTree(live - {s}) && processTree.nodes <= old(processTree.nodes)
    {
      hide PTree.Valid;
      processTree.LeafOf(s);
      processTree.Remove(s.ptreeNode);
    }

    /** A state that is not yet known to the searcher goes at once; any other is put on the
        list of removed states. */
    method TerminateState(state: ExecutionState)
      requires Valid() && state in Live() && state !in removedStates
      modifies this`addedStates, this`removedStates, processTree`nodes, processTree`leaves, processTree.nodes
      ensures Valid() && all == old(all) && processTree.nodes <= old(processTree.nodes)
      ensures Live() == if state in old(addedStates) then old(Live()) - {state} else old(Live())
      ensures removedStates == if state in old(addedStates) then old(removedStates) else old(removedStates) + [state]
      ensures Running() == old(Running()) - {state}
    {
      hide PTree.Valid, Agree, Fair, Shared;
      if state !in addedStates {
        AgreeRemoved(states, addedStates, removedStates, all, state);
        removedStates := removedStates + [state];
      } else {
        ghost var live := Live();
        var i: nat :| i < |addedStates| && addedStates[i] == state;
        AgreeDropped(states, addedStates, removedStates, all, i);
        addedStates := addedStates[..i] + addedStates[i + 1..];
        assert Live() == live - {state};
        LeaveTree(live, state);
      }
    }

    /** Between steps: new states are taken in and removed ones leave the process tree, whose
        leaves then carry exactly the states. */
    method UpdateStates()
      requires Valid()
      modifies this`states, this`addedStates, this`removedStates, processTree`nodes, processTree`leaves,
               processTree.nodes
      ensures Valid() && all == old(all) && addedStates == [] && removedStates == []
      ensures processTree.nodes <= old(processTree.nodes)
      ensures states == old(Live()) - (set s | s in old(removedStates)) == processTree.leaves.Keys
      ensures states == Running() == old(Running())
    {
      hide PTree.Valid, Agree, Fair, Shared;
      AgreeTaken(states, addedStates, removedStates, all);
      states := states + set s | s in addedStates;
      addedStates := [];
      assert Live() == states;
      EraseRemoved();
      assert Live() == states;
    }

    method EraseRemoved()
      requires Agree(states, [], removedStates, all) && InTree(states) && addedStates == []
      modifies this`states, this`removedStates, processTree`nodes, processTree`leaves, processTree.nodes
      ensures Agree(states, [], [], all) && InTree(states) && removedStates == []
      ensures processTree.nodes <= old(processTree.nodes)
      ensures states == old(states) - set s | s in old(removedStates)
    {
      hide PTree.Valid, Agree;
      var removed := removedStates;
      assert removed[0..] == removed && removed[|removed|..] == [] && removed[..|removed|] == removed;
      for i := 0 to |removed|
        invariant Agree(states, [], removed[i..], all) && InTree(states) && processTree.nodes <= old(processTree.nodes)
        invariant states == old(states) - set s | s in removed[..i]
      {
        AgreeErased(states, removed[i..], all);
        LeaveTree(states, removed[i]);
        states := states - {removed[i]};
        assert removed[i..][1..] == removed[i + 1..] && removed[..i + 1] == removed[..i] + [removed[i]];
      }
      removedStates := [];
    }
  }

  /** The inputs on the other side of a condition. */
  lemma {:induction false} OtherSide(cs: seq<Expr>, e: Expr)
    requires IsBool(e)
    ensures Narrowed(cs, IsZero(e)) == Models(cs) - Narrowed(cs, e)
  {
    forall a ensures Holds(IsZero(e), a) <==> !Holds(e, a) {
      BoolValue(e, a);
      IsZeroValue(e, a);
    }
  }

  lemma {:induction false} OneSided(cs: seq<Expr>, e: Expr)
    requires IsBool(e) && Satisfiable(cs)
    ensures Certain(cs, e) ==> Models(cs) == Narrowed(cs, e)
    ensures !Possible(cs, e) ==> Models(cs) == Narrowed(cs, IsZero(e)) && !Certain(cs, e)
  {
    forall a ensures Holds(IsZero(e), a) <==> !Holds(e, a) {
      BoolValue(e, a);
      IsZeroValue(e, a);
    }
  }
}
