/** Whole explorations: a state is selected by a random walk, does one thing, and the lists of
    states are brought up to date, over and over. */
module Runs {
  import opened Exprs
  import opened Constraints
  import opened Solvers
  import opened Exploration
  import opened Switches
  import opened ProcessTrees

  /** What the selected state does next: test a condition, go through a switch or end. */
  datatype Action = Test(condition: Expr, swap: bool) | Jump(cond: Expr, cases: seq<Case>, default: nat) | Exit

  predicate Legal(action: Action) {
    match action
    case Test(condition, _) => IsBool(condition)
    case Jump(cond, cases, _) => IsSwitch(cond, cases)
    case Exit => true
  }

  /** The condition of a path and its depth, the number of forks on it. */
  datatype Path = Path(cs: seq<Expr>, depth: nat)

  /** An action and the path it was performed on. */
  datatype Step = Step(path: Path, action: Action)

  /** The inputs that a step loses: those a switch sends to its default block by default, if it
      sends others there by a case. */
  ghost function Loss(step: Step): (m: iset<Assignment>) {
    if step.action.Jump? then Hidden(step.path.cs, step.action.cond, step.action.cases, step.action.default) else iset{}
  }

  ghost function Losses(trace: seq<Step>): (m: iset<Assignment>) {
    iset k, a | 0 <= k < |trace| && a in Loss(trace[k]) :: a
  }

  /** A switch whose default block no case shares loses nothing. */
  lemma {:induction false} NotShadowed(step: Step)
    requires step.action.Jump? ==>
               forall i :: 0 <= i < |step.action.cases| ==> step.action.cases[i].block != step.action.default
    ensures Loss(step) == iset{}
  {
  }

  // --- What a step does to the paths -------------------------------------------------------------

  /** The paths of the states that go on. */
  ghost function PathOf(ex: Executor): (m: map<ExecutionState, Path>)
    reads ex, ex.Running()
  {
    map s | s in ex.Running() :: Path(s.constraints, s.depth)
  }

  ghost function Paths(ex: Executor): (ps: set<Path>)
    reads ex, ex.Running()
  {
    PathOf(ex).Values
  }

  /** What becomes of the path that a step is made on: a settled condition leaves it alone, an
      open one splits it in two or, at the depth limit, ends it, a switch splits it into one
      path for each block it sends inputs to, and an end leaves nothing. */
  ghost predicate Successors(step: Step, news: set<Path>, maxDepth: nat) {
    match step.action
    case Test(condition, _) =>
      if Certain(step.path.cs, condition) || !Possible(step.path.cs, condition) then news == {step.path}
      else if 0 < maxDepth <= step.path.depth + 1 then news == {}
      else Halves(step.path, condition, news)
    case Jump(cond, cases, default) =>
      exists order, paths :: Targeted(step.path.cs, cond, cases, default, order, paths, news)
    case Exit => news == {}
  }

  ghost predicate Halves(path: Path, condition: Expr, news: set<Path>) {
    exists t, f ::
      && news == {Path(t, path.depth + 1), Path(f, path.depth + 1)}
      && Models(t) == Narrowed(path.cs, condition) && Models(f) == Models(path.cs) - Narrowed(path.cs, condition)
  }

  ghost predicate Targeted(cs: seq<Expr>, cond: Expr, cases: seq<Case>, default: nat, order: seq<nat>,
                           paths: seq<Path>, news: set<Path>)
  {
    && |order| == |paths| && (forall i, j :: 0 <= i < j < |order| ==> order[i] != order[j])
    && (forall b :: b in order <==> Sent(cs, cond, cases, default, b) != iset{})
    && (forall k :: 0 <= k < |paths| ==> Models(paths[k].cs) == Sent(cs, cond, cases, default, order[k]))
    && news == set p | p in paths
  }

  /** One path gives way to its successors and all others stay. */
  ghost predicate Leads(before: set<Path>, step: Step, after: set<Path>, maxDepth: nat) {
    step.path in before && exists news :: Successors(step, news, maxDepth) && after == before - {step.path} + news
  }

  /** Exchanging one state's path for those of some states exchanges it in the set of paths. */
  lemma {:induction false} Exchanged(was: map<ExecutionState, Path>, now: map<ExecutionState, Path>,
                                     s: ExecutionState, news: set<ExecutionState>)
    requires s in was && now.Keys == was.Keys - {s} + news && was.Keys * news <= {s}
    requires forall t :: t in was && t != s ==> now[t] == was[t] != was[s]
    ensures now.Values == was.Values - {was[s]} + set t | t in news :: now[t]
  {
    forall p ensures p in now.Values <==> p in was.Values - {was[s]} + set t | t in news :: now[t] {
      if p in was.Values - {was[s]} {
        var t :| t in was && was[t] == p;
        assert now[t] == p;
      }
    }
  }

  /** The other states keep their paths, which differ from that of s. */
  ghost predicate OthersStay(was: map<ExecutionState, Path>, now: map<ExecutionState, Path>,
                             s: ExecutionState) {
    s in was && forall t :: t in was && t != s ==> t in now && now[t] == was[t] != was[s]
  }

  lemma {:induction false} SwitchLeads(was: map<ExecutionState, Path>, now: map<ExecutionState, Path>,
                                       s: ExecutionState, step: Step, order: seq<nat>, result: seq<ExecutionState>,
                                       maxDepth: nat)
    requires step.action.Jump? && OthersStay(was, now, s) && step.path == was[s] && s in result
    requires now.Keys == was.Keys + (set r | r in result) && was.Keys * (set r | r in result) <= {s}
    requires |order| == |result| && forall i, j :: 0 <= i < j < |order| ==> order[i] != order[j]
    requires var j := step.action;
             forall b :: b in order <==> Sent(step.path.cs, j.cond, j.cases, j.default, b) != iset{}
    requires var j := step.action;
             forall k :: 0 <= k < |order| ==>
               Models(now[result[k]].cs) == Sent(step.path.cs, j.cond, j.cases, j.default, order[k])
    ensures Leads(was.Values, step, now.Values, maxDepth)
  {
    hide Models, Sent;
    var rs := set r | r in result;
    var news, paths := set r | r in rs :: now[r], seq(|result|, k requires 0 <= k < |result| => now[result[k]]);
    Exchanged(was, now, s, rs);
    forall p ensures p in news <==> p in paths {
      if p in news {
        var r :| r in rs && now[r] == p;
        var k :| 0 <= k < |result| && result[k] == r;
        assert paths[k] == p;
      }
    }
    var j := step.action;
    assert Targeted(step.path.cs, j.cond, j.cases, j.default, order, paths, news);
    assert Successors(step, news, maxDepth);
  }

  lemma {:induction false} ForkLeads(was: map<ExecutionState, Path>, now: map<ExecutionState, Path>,
                                     s: ExecutionState, step: Step, t: ExecutionState, f: ExecutionState, maxDepth: nat)
    requires step.action.Test? && OthersStay(was, now, s) && step.path == was[s] && s in {t, f}
    requires now.Keys == was.Keys + {t, f} && was.Keys * {t, f} <= {s}
    requires var e := step.action.condition;
             && !Certain(step.path.cs, e) && Possible(step.path.cs, e) && !(0 < maxDepth <= step.path.depth + 1)
             && now[t].depth == now[f].depth == step.path.depth + 1
             && Models(now[t].cs) == Narrowed(step.path.cs, e)
             && Models(now[f].cs) == Models(step.path.cs) - Narrowed(step.path.cs, e)
    ensures Leads(was.Values, step, now.Values, maxDepth)
  {
    hide Models, Narrowed, Certain, Possible;
    Exchanged(was, now, s, {t, f});
    assert now[t] == Path(now[t].cs, step.path.depth + 1) && now[f] == Path(now[f].cs, step.path.depth + 1);
    assert Halves(step.path, step.action.condition, {now[t], now[f]});
    assert Successors(step, {now[t], now[f]}, maxDepth);
    assert now.Values == was.Values - {step.path} + {now[t], now[f]};
  }

  lemma {:induction false} EndLeads(was: map<ExecutionState, Path>, now: map<ExecutionState, Path>,
                                    s: ExecutionState, step: Step, maxDepth: nat)
    requires OthersStay(was, now, s) && step.path == was[s] && now.Keys == was.Keys - {s}
    requires Successors(step, {}, maxDepth)
    ensures Leads(was.Values, step, now.Values, maxDepth)
  {
    hide Successors;
    Exchanged(was, now, s, {});
    assert now.Values == was.Values - {step.path} + {};
  }

  lemma {:induction false} SettledLeads(was: map<ExecutionState, Path>, s: ExecutionState, step: Step,
                                        maxDepth: nat)
    requires s in was && step.path == was[s] && Successors(step, {step.path}, maxDepth)
    ensures Leads(was.Values, step, was.Values, maxDepth)
  {
    hide Successors;
    assert was.Values == was.Values - {step.path} + {step.path};
  }

  lemma {:induction false} RunningKnown(ex: Executor)
    requires ex.Valid()
    ensures forall t :: t in PathOf(ex) ==> t in ex.all
  {
    forall t | t in ex.Running() ensures t in ex.all {
      ex.Known(t);
    }
  }

  /** The running states have different paths, and they are known. */
  lemma {:induction false} RunningPaths(ex: Executor, state: ExecutionState)
    requires ex.Valid() && state in ex.Running()
    ensures state in ex.Live() && state !in ex.removedStates && state in PathOf(ex)
    ensures forall t :: t in PathOf(ex) && t != state ==> PathOf(ex)[t] != PathOf(ex)[state]
    ensures forall t :: t in PathOf(ex) ==> t in ex.all
  {
    RunningKnown(ex);
    forall t | t in ex.Running() && t.constraints == state.constraints ensures t == state {
      ex.Known(state);
      ex.Known(t);
      ex.PathsDiffer(state, t);
    }
  }

  // --- Steps -------------------------------------------------------------------------------------

  /** The objects the exploration may change. */
  ghost function Territory(ex: Executor): (objects: set<object>)
    reads ex, ex.processTree
  {
    {ex, ex.processTree} + ex.processTree.nodes + set s: object | s in ex.all
  }

  lemma {:induction false} Runnable(ex: Executor, s: ExecutionState)
    requires ex.Valid() && s in ex.Live()
    ensures AllBool(s.constraints) && Satisfiable(s.constraints) && Exact(ex.solver) && s in ex.all
    ensures Models(s.constraints) <= ex.covered
  {
    ex.Known(s);
    ex.PathCovered(s);
  }

  /** Any switch leaves one state for each block that it sends inputs to, with exactly those
      inputs; only what it loses is no longer covered. */
  method PerformJump(ex: Executor, state: ExecutionState, cond: Expr, cases: seq<Case>, default: nat)
    returns (order: seq<nat>, result: seq<ExecutionState>)
    requires ex.Valid() && state in ex.Live() && state !in ex.removedStates && IsSwitch(cond, cases)
    modifies ex`addedStates, ex`all, ex`covered, state
    modifies ex.processTree`nodes, ex.processTree`leaves, ex.processTree.nodes
    ensures ex.Valid() && forall o :: o in Territory(ex) ==> o in old(Territory(ex)) || fresh(o)
    ensures ex.covered == old(ex.covered) - Hidden(old(state.constraints), cond, cases, default)
    ensures |order| == |result| && forall i, j :: 0 <= i < j < |order| ==>
              order[i] != order[j] && result[i] != result[j]
    ensures forall b :: b in order <==> Sent(old(state.constraints), cond, cases, default, b) != iset{}
    ensures forall k :: 0 <= k < |order| ==>
              Models(result[k].constraints) == Sent(old(state.constraints), cond, cases, default, order[k])
    ensures ex.Running() == old(ex.Running()) + set r | r in result
    ensures state in result && old(ex.Running()) * (set r | r in result) <= {state}
  {
    hide Executor.Valid, Executor.Live, Executor.Running, Choices, Alternatives, Satisfiable, Exact, AllBool,
         DefaultShadowed, Narrowed, Models, Missed, Hidden, Sent;
    Runnable(ex, state);
    var conditions;
    order, conditions := SwitchConditions(state.constraints, ex.solver, cond, cases, default);
    result := ex.BranchAmong(state, conditions);
  }

  /** A condition splits the path if it is open. */
  method PerformTest(ex: Executor, state: ExecutionState, condition: Expr, swap: bool)
    requires ex.Valid() && state in ex.Running() && IsBool(condition)
    modifies ex`addedStates, ex`removedStates, ex`all, state, ex.processTree, ex.processTree.nodes
    ensures ex.Valid() && forall o :: o in Territory(ex) ==> o in old(Territory(ex)) || fresh(o)
    ensures Leads(old(Paths(ex)), Step(old(Path(state.constraints, state.depth)), Test(condition, swap)),
                  Paths(ex), ex.maxDepth)
  {
    hide Executor.Valid, Executor.Live, Executor.Running, Narrowed, Models, Certain, Possible, Leads, Halves;
    RunningPaths(ex, state);
    ghost var was, step := PathOf(ex), Step(Path(state.constraints, state.depth), Test(condition, swap));
    OtherSide(step.path.cs, condition);
    var t, f := ex.Fork(state, condition, swap);
    ghost var now := PathOf(ex);
    if t != null && f != null {
      ForkLeads(was, now, state, step, t, f, ex.maxDepth);
    } else if t == null && f == null {
      EndLeads(was, now, state, step, ex.maxDepth);
    } else {
      assert now == was;
      SettledLeads(was, state, step, ex.maxDepth);
    }
  }

  /** Any switch leaves one state for each block that it sends inputs to. */
  method PerformSwitch(ex: Executor, state: ExecutionState, cond: Expr, cases: seq<Case>, default: nat)
    requires ex.Valid() && state in ex.Running() && IsSwitch(cond, cases)
    modifies ex`addedStates, ex`all, ex`covered, state
    modifies ex.processTree`nodes, ex.processTree`leaves, ex.processTree.nodes
    ensures ex.Valid() && forall o :: o in Territory(ex) ==> o in old(Territory(ex)) || fresh(o)
    ensures ex.covered == old(ex.covered) - Hidden(old(state.constraints), cond, cases, default)
    ensures Leads(old(Paths(ex)), Step(old(Path(state.constraints, state.depth)), Jump(cond, cases, default)),
                  Paths(ex), ex.maxDepth)
  {
    hide Executor.Valid, Executor.Live, Executor.Running, Models, Sent, Hidden, Leads;
    RunningPaths(ex, state);
    ghost var was, step := PathOf(ex), Step(Path(state.constraints, state.depth), Jump(cond, cases, default));
    var order, result := PerformJump(ex, state, cond, cases, default);
    assert forall k :: 0 <= k < |result| ==> result[k] in result;
    SwitchLeads(was, PathOf(ex), state, step, order, result, ex.maxDepth);
  }

  method PerformExit(ex: Executor, state: ExecutionState)
    requires ex.Valid() && state in ex.Running()
    modifies ex`addedStates, ex`removedStates, ex.processTree`nodes, ex.processTree`leaves, ex.processTree.nodes
    ensures ex.Valid() && forall o :: o in Territory(ex) ==> o in old(Territory(ex)) || fresh(o)
    ensures Leads(old(Paths(ex)), Step(old(Path(state.constraints, state.depth)), Exit), Paths(ex), ex.maxDepth)
  {
    hide Executor.Valid, Executor.Live, Executor.Running, Leads;
    RunningPaths(ex, state);
    ghost var was, step := PathOf(ex), Step(Path(state.constraints, state.depth), Exit);
    ex.TerminateState(state);
    EndLeads(was, PathOf(ex), state, step, ex.maxDepth);
  }

  /** One action of the selected state. */
  method Perform(ex: Executor, state: ExecutionState, action: Action)
    requires ex.Valid() && state in ex.Running() && Legal(action)
    modifies ex`addedStates, ex`removedStates, ex`all, ex`covered, state, ex.processTree, ex.processTree.nodes
    ensures ex.Valid() && forall o :: o in Territory(ex) ==> o in old(Territory(ex)) || fresh(o)
    ensures ex.covered == old(ex.covered) - Loss(Step(old(Path(state.constraints, state.depth)), action))
    ensures Loss(Step(old(Path(state.constraints, state.depth)), action)) <= old(ex.covered)
    ensures Leads(old(Paths(ex)), Step(old(Path(state.constraints, state.depth)), action), Paths(ex), ex.maxDepth)
  {
    hide Executor.Valid, Executor.Live, Executor.Running, Paths, Leads, Hidden, Territory;
    RunningPaths(ex, state);
    LossCovered(ex, state, action);
    match action
    case Test(condition, swap) => PerformTest(ex, state, condition, swap);
    case Jump(cond, cases, default) => PerformSwitch(ex, state, cond, cases, default);
    case Exit => PerformExit(ex, state);
  }

  lemma {:induction false} LossCovered(ex: Executor, state: ExecutionState, action: Action)
    requires ex.Valid() && state in ex.Live()
    ensures Loss(Step(Path(state.constraints, state.depth), action)) <= ex.covered
    ensures !action.Jump? ==> ex.covered - Loss(Step(Path(state.constraints, state.depth), action)) == ex.covered
  {
    hide Executor.Valid, Executor.Live, NoCase;
    Runnable(ex, state);
  }

  /** Between steps every live state is known to the searcher and sits on a leaf. */
  lemma {:induction false} Selectable(ex: Executor)
    requires ex.Valid() && ex.addedStates == []
    ensures ex.processTree.Valid() && ex.processTree.leaves.Keys == ex.states == ex.Live()
    ensures ex.states != {} ==> ex.processTree.nodes != {}
    ensures forall s :: s in ex.states ==> s in ex.all
    ensures ex.removedStates == [] ==> ex.Running() == ex.states
  {
    if s :| s in ex.states {
      ex.processTree.LeafOf(s);
    }
  }

  /** One step of the main loop: select, act, update. */
  method Round(ex: Executor, action: Action) returns (ghost path: Path)
    requires ex.Valid() && ex.addedStates == [] && ex.removedStates == [] && ex.states != {} && Legal(action)
    modifies ex`states, ex`addedStates, ex`removedStates, ex`all, ex`covered, Territory(ex) - {ex}
    ensures ex.Valid() && ex.addedStates == [] && ex.removedStates == []
    ensures forall o :: o in Territory(ex) ==> o in old(Territory(ex)) || fresh(o)
    ensures ex.covered == old(ex.covered) - Loss(Step(path, action)) && Loss(Step(path, action)) <= old(ex.covered)
    ensures Leads(old(Paths(ex)), Step(path, action), Paths(ex), ex.maxDepth)
  {
    hide Executor.Valid, Executor.Live, Executor.Running, Legal, PTree.Valid, Loss, Leads, Territory, PathOf;
    Selectable(ex);
    InTerritory(ex);
    var state, _ := ex.processTree.SelectState();
    path := Path(state.constraints, state.depth);
    assert Paths(ex) == old(Paths(ex));
    Perform(ex, state, action);
    InTerritory(ex);
    Update(ex);
  }

  /** Bringing the lists up to date changes no path. */
  method Update(ex: Executor)
    requires ex.Valid()
    modifies ex`states, ex`addedStates, ex`removedStates
    modifies ex.processTree`nodes, ex.processTree`leaves, ex.processTree.nodes
    ensures ex.Valid() && ex.addedStates == [] && ex.removedStates == []
    ensures Territory(ex) <= old(Territory(ex)) && Paths(ex) == old(Paths(ex))
  {
    hide Executor.Valid, Executor.Live, Executor.Running;
    RunningKnown(ex);
    ghost var paths := PathOf(ex);
    ex.UpdateStates();
    assert PathOf(ex) == paths;
  }

  lemma {:induction false} InTerritory(ex: Executor)
    ensures ex in Territory(ex) && ex.processTree in Territory(ex) && ex.processTree.nodes <= Territory(ex)
    ensures forall s :: s in ex.all ==> s in Territory(ex)
  {
  }

  /** Any number of steps, as long as a state is alive. After every one of them, and so at the
      end, the covered inputs and the weights are shared out among all states there have been
      (see Executor.Accounted). Each step is made on the path of a state that is alive then and
      exchanges it for its successors. Covered are all inputs but the losses of the steps, so
      every input stays covered exactly when no switch on the way hid its default. */
  method Explore(ex: Executor, actions: seq<Action>)
    returns (performed: nat, ghost trace: seq<Step>, ghost alive: seq<set<Path>>)
    requires ex.Valid() && ex.addedStates == [] && ex.removedStates == []
    requires forall i :: 0 <= i < |actions| ==> Legal(actions[i])
    modifies ex`states, ex`addedStates, ex`removedStates, ex`all, ex`covered, Territory(ex) - {ex}
    ensures ex.Valid() && ex.addedStates == [] && ex.removedStates == []
    ensures ex.processTree.leaves.Keys == ex.states
    ensures performed <= |actions| && (performed < |actions| ==> ex.states == {})
    ensures |trace| == performed && forall k :: 0 <= k < performed ==> trace[k].action == actions[k]
    ensures |alive| == performed + 1 && alive[0] == old(Paths(ex)) && alive[performed] == Paths(ex)
    ensures forall k :: 0 <= k < performed ==> Leads(alive[k], trace[k], alive[k + 1], ex.maxDepth)
    ensures ex.covered == old(ex.covered) - Losses(trace)
    ensures ex.covered == old(ex.covered) <==> forall k :: 0 <= k < performed ==> Loss(trace[k]) == iset{}
  {
    hide Executor.Valid, Executor.Live, Executor.Running, Legal, PTree.Valid, Loss, Leads, Paths;
    performed, trace, alive := 0, [], [Paths(ex)];
    while performed < |actions| && ex.states != {}
      invariant performed <= |actions| && ex.Valid() && ex.addedStates == [] && ex.removedStates == []
      invariant forall o :: o in Territory(ex) ==> o in old(Territory(ex)) || fresh(o)
      invariant |trace| == performed && forall k :: 0 <= k < performed ==> trace[k].action == actions[k]
      invariant |alive| == performed + 1 && alive[0] == old(Paths(ex)) && alive[performed] == Paths(ex)
      invariant forall k :: 0 <= k < performed ==> Leads(alive[k], trace[k], alive[k + 1], ex.maxDepth)
      invariant ex.covered == old(ex.covered) - Losses(trace)
      invariant forall k :: 0 <= k < performed ==> Loss(trace[k]) <= old(ex.covered)
    {
      ghost var path := Round(ex, actions[performed]);
      OneMoreLoss(trace, Step(path, actions[performed]));
      trace, alive := trace + [Step(path, actions[performed])], alive + [Paths(ex)];
      performed := performed + 1;
    }
    Selectable(ex);
    NothingLost(trace, old(ex.covered));
  }

  lemma {:induction false} OneMoreLoss(trace: seq<Step>, step: Step)
    ensures Losses(trace + [step]) == Losses(trace) + Loss(step)
  {
    hide Loss;
    var longer := trace + [step];
    assert longer[|trace|] == step;
    forall a ensures a in Losses(longer) <==> a in Losses(trace) || a in Loss(step) {
      if a in Losses(trace) {
        var k :| 0 <= k < |trace| && a in Loss(trace[k]);
        assert longer[k] == trace[k];
      }
      if a in Losses(longer) {
        var k :| 0 <= k < |longer| && a in Loss(longer[k]);
        assert k < |trace| ==> longer[k] == trace[k];
      }
    }
  }

  lemma {:induction false} NothingLost(trace: seq<Step>, inputs: iset<Assignment>)
    requires forall k :: 0 <= k < |trace| ==> Loss(trace[k]) <= inputs
    ensures inputs - Losses(trace) == inputs <==> forall k :: 0 <= k < |trace| ==> Loss(trace[k]) == iset{}
  {
    hide Loss;
    if k :| 0 <= k < |trace| && Loss(trace[k]) != iset{} {
      var a :| a in Loss(trace[k]);
      assert a in Losses(trace) && a in inputs;
    }
  }
}
