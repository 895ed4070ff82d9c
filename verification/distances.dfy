/** Distances in the instruction graph of a whole program: to the return of the enclosing
    function, through calls, and to the nearest uncovered instruction. They are computed by
    relaxing every instruction until nothing changes, with 0 for "unreachable". */
module Distances {
  /** What an instruction does; the targets of a call are function numbers. */
  datatype Kind = Return | Call(targets: seq<nat>) | Plain

  datatype Instruction = Instruction(kind: Kind, succs: seq<nat>, fn: nat)

  datatype Function = Declaration(returns_: bool) | Definition(entry: nat)

  datatype Program = Program(instrs: seq<Instruction>, funcs: seq<Function>) {
    predicate Valid() {
      && (forall i :: 0 <= i < |instrs| ==> InstructionFits(instrs[i]))
      && (forall f :: 0 <= f < |funcs| && funcs[f].Definition? ==>
            funcs[f].entry < |instrs| && instrs[funcs[f].entry].fn == f)
    }

    predicate InstructionFits(inst: Instruction) {
      && (forall k :: 0 <= k < |inst.succs| ==> inst.succs[k] < |instrs|)
      && (inst.kind.Call? ==> forall k :: 0 <= k < |inst.kind.targets| ==> inst.kind.targets[k] < |funcs|)
      && (inst.kind.Return? ==> inst.succs == [])
      && inst.fn < |funcs| && funcs[inst.fn].Definition?
    }

    predicate IsEntry(i: nat)
      requires Valid() && i < |instrs|
    {
      funcs[instrs[i].fn].entry == i
    }
  }

  // --- Paths --------------------------------------------------------------------------------

  /** A way to run from an instruction to the return of its function. A call is followed by
      a run of one of its targets. */
  datatype Path = Last | Next(s: nat, rest: Path) | Over(f: nat, callee: Callee, s: nat, rest: Path)

  /** A run of a function: of its body, or of a declaration that is known to return. */
  datatype Callee = Unknown | Body(path: Path)

  predicate IsPath(m: Program, i: nat, p: Path)
    requires m.Valid()
    decreases p
  {
    i < |m.instrs| &&
    match p
    case Last => m.instrs[i].kind.Return?
    case Next(s, rest) => !m.instrs[i].kind.Call? && s in m.instrs[i].succs && IsPath(m, s, rest)
    case Over(f, callee, s, rest) =>
      && m.instrs[i].kind.Call? && f in m.instrs[i].kind.targets && IsCallee(m, f, callee)
      && s in m.instrs[i].succs && IsPath(m, s, rest)
  }

  predicate IsCallee(m: Program, f: nat, c: Callee)
    requires m.Valid()
    decreases c
  {
    f < |m.funcs| &&
    match c
    case Unknown => m.funcs[f].Declaration? && m.funcs[f].returns_
    case Body(p) => m.funcs[f].Definition? && IsPath(m, m.funcs[f].entry, p)
  }

  /** The number of instructions run; an unknown function counts as one. */
  function Cost(p: Path): (n: nat)
    ensures 0 < n
  {
    match p
    case Last => 1
    case Next(_, rest) => 1 + Cost(rest)
    case Over(_, callee, _, rest) => 1 + CalleeCost(callee) + Cost(rest)
  }

  function CalleeCost(c: Callee): (n: nat)
    ensures 0 < n
  {
    match c
    case Unknown => 1
    case Body(p) => Cost(p)
  }

  // --- Best values, with 0 for none ------------------------------------------------------------

  function Better(best: nat, v: nat): (r: nat) {
    if best == 0 || v < best then v else best
  }

  /** The best of a value and of the non-zero entries of a list, each increased by `through`. */
  function Best(best: nat, through: nat, xs: seq<nat>): (r: nat) {
    if xs == [] then best
    else
      var b := Best(best, through, xs[..|xs| - 1]);
      var x := xs[|xs| - 1];
      if x == 0 then b else Better(b, through + x)
  }

  lemma {:induction false} BestIsLeast(best: nat, through: nat, xs: seq<nat>)
    requires 0 < through
    ensures best != 0 ==> 0 < Best(best, through, xs) <= best
    ensures forall x :: x in xs && x != 0 ==> 0 < Best(best, through, xs) <= through + x
    ensures Best(best, through, xs) == best || exists x :: x in xs && x != 0 && Best(best, through, xs) == through + x
  {
    if xs != [] {
      var rest := xs[..|xs| - 1];
      BestIsLeast(best, through, rest);
      assert xs == rest + [xs[|xs| - 1]];
      if Best(best, through, xs) == Best(best, through, rest) != best {
        var x :| x in rest && x != 0 && Best(best, through, rest) == through + x;
        assert x in xs;
      } else {
        assert xs[|xs| - 1] in xs;
      }
    }
  }

  function Pick(d: seq<nat>, ids: seq<nat>): (xs: seq<nat>)
    requires forall k :: 0 <= k < |ids| ==> ids[k] < |d|
  {
    seq(|ids|, k requires 0 <= k < |ids| => d[ids[k]])
  }

  lemma {:induction false} BestOfNone(through: nat, xs: seq<nat>)
    requires 0 < through
    ensures Best(0, through, xs) == 0 <==> forall x :: x in xs ==> x == 0
  {
    BestIsLeast(0, through, xs);
  }

  lemma {:induction false} Picked(d: seq<nat>, ids: seq<nat>)
    requires forall k :: 0 <= k < |ids| ==> ids[k] < |d|
    ensures forall id :: id in ids ==> d[id] in Pick(d, ids)
    ensures forall x :: x in Pick(d, ids) ==> exists id :: id in ids && d[id] == x
  {
    forall id | id in ids ensures d[id] in Pick(d, ids) {
      var k :| 0 <= k < |ids| && ids[k] == id;
      assert Pick(d, ids)[k] == d[id];
    }
    forall x | x in Pick(d, ids) ensures exists id :: id in ids && d[id] == x {
      var k :| 0 <= k < |ids| && Pick(d, ids)[k] == x;
      assert ids[k] in ids;
    }
  }

  // --- One relaxation ----------------------------------------------------------------------------

  /** The distances to the return, and the shortest path through each function. */
  datatype Table = Table(dist: seq<nat>, paths: seq<nat>)

  predicate Fits(m: Program, t: Table) {
    m.Valid() && |t.dist| == |m.instrs| && |t.paths| == |m.funcs|
  }

  /** What it costs to get past an instruction; 0 if a call has no target that returns. */
  function Through(m: Program, paths: seq<nat>, i: nat): (c: nat)
    requires m.Valid() && i < |m.instrs| && |paths| == |m.funcs|
  {
    if m.instrs[i].kind.Call? then Best(0, 1, Pick(paths, m.instrs[i].kind.targets)) else 1
  }

  function Relaxed(m: Program, t: Table, i: nat): (best: nat)
    requires Fits(m, t) && i < |m.instrs|
  {
    if Through(m, t.paths, i) == 0 then t.dist[i]
    else Best(t.dist[i], Through(m, t.paths, i), Pick(t.dist, m.instrs[i].succs))
  }

  /** The table after one instruction: an entry also sets its function's shortest path. */
  function Relax(m: Program, t: Table, i: nat): (r: Table)
    requires Fits(m, t) && i < |m.instrs|
    ensures Fits(m, r)
  {
    if Through(m, t.paths, i) == 0 then t
    else Table(t.dist[i := Relaxed(m, t, i)],
               if m.IsEntry(i) then t.paths[m.instrs[i].fn := Relaxed(m, t, i)] else t.paths)
  }

  /** Every distance is the cost of a path and every function value that of a run. */
  ghost predicate Realized(m: Program, t: Table)
    requires Fits(m, t)
  {
    && (forall i :: 0 <= i < |t.dist| && t.dist[i] != 0 ==> exists p :: IsPath(m, i, p) && Cost(p) == t.dist[i])
    && (forall f :: 0 <= f < |t.paths| && t.paths[f] != 0 ==>
          exists c :: IsCallee(m, f, c) && CalleeCost(c) == t.paths[f])
  }

  lemma {:induction false} ThroughRealized(m: Program, t: Table, i: nat)
    requires Fits(m, t) && i < |m.instrs| && Realized(m, t) && m.instrs[i].kind.Call? && Through(m, t.paths, i) != 0
    ensures exists f, c ::
              f in m.instrs[i].kind.targets && IsCallee(m, f, c) && 1 + CalleeCost(c) == Through(m, t.paths, i)
  {
    var ts := m.instrs[i].kind.targets;
    BestIsLeast(0, 1, Pick(t.paths, ts));
    Picked(t.paths, ts);
    var x :| x in Pick(t.paths, ts) && x != 0 && Through(m, t.paths, i) == 1 + x;
    var f :| f in ts && t.paths[f] == x;
    var c :| IsCallee(m, f, c) && CalleeCost(c) == t.paths[f];
  }

  lemma {:induction false} PathOver(m: Program, i: nat, f: nat, c: Callee, s: nat, rest: Path)
    requires m.Valid() && i < |m.instrs| && m.instrs[i].kind.Call? && f in m.instrs[i].kind.targets
    requires IsCallee(m, f, c) && s in m.instrs[i].succs && IsPath(m, s, rest)
    ensures exists p :: IsPath(m, i, p) && Cost(p) == 1 + CalleeCost(c) + Cost(rest)
  {
    var p := Over(f, c, s, rest);
    assert IsPath(m, i, p) && Cost(p) == 1 + CalleeCost(c) + Cost(rest);
  }

  lemma {:induction false} PathOn(m: Program, i: nat, s: nat, rest: Path)
    requires m.Valid() && i < |m.instrs| && !m.instrs[i].kind.Call? && s in m.instrs[i].succs && IsPath(m, s, rest)
    ensures exists p :: IsPath(m, i, p) && Cost(p) == 1 + Cost(rest)
  {
    var p := Next(s, rest);
    assert IsPath(m, i, p) && Cost(p) == 1 + Cost(rest);
  }

  lemma {:induction false} PlainStep(m: Program, paths: seq<nat>, i: nat)
    requires m.Valid() && i < |m.instrs| && |paths| == |m.funcs|
    ensures !m.instrs[i].kind.Call? ==> Through(m, paths, i) == 1
  {
  }

  lemma {:induction false} RelaxedRealized(m: Program, t: Table, i: nat)
    requires Fits(m, t) && i < |m.instrs| && Realized(m, t) && Relaxed(m, t, i) != 0
    ensures exists p :: IsPath(m, i, p) && Cost(p) == Relaxed(m, t, i)
  {
    hide IsPath, IsCallee, Cost, CalleeCost, Best, Through;
    var through := Through(m, t.paths, i);
    if Relaxed(m, t, i) != t.dist[i] {
      var xs := Pick(t.dist, m.instrs[i].succs);
      BestIsLeast(t.dist[i], through, xs);
      var x :| x in xs && x != 0 && Relaxed(m, t, i) == through + x;
      Picked(t.dist, m.instrs[i].succs);
      var s :| s in m.instrs[i].succs && t.dist[s] == x;
      var rest :| IsPath(m, s, rest) && Cost(rest) == x;
      if m.instrs[i].kind.Call? {
        ThroughRealized(m, t, i);
        var f, c :| f in m.instrs[i].kind.targets && IsCallee(m, f, c) && 1 + CalleeCost(c) == through;
        PathOver(m, i, f, c, s, rest);
      } else {
        PathOn(m, i, s, rest);
        PlainStep(m, t.paths, i);
      }
    }
  }

  lemma {:induction false} RelaxRealized(m: Program, t: Table, i: nat)
    requires Fits(m, t) && i < |m.instrs| && Realized(m, t)
    ensures Realized(m, Relax(m, t, i))
  {
    hide IsPath, Cost, Best, Through;
    if Relaxed(m, t, i) != 0 {
      RelaxedRealized(m, t, i);
      var p :| IsPath(m, i, p) && Cost(p) == Relaxed(m, t, i);
      if m.IsEntry(i) {
        assert IsCallee(m, m.instrs[i].fn, Body(p)) && CalleeCost(Body(p)) == Relaxed(m, t, i);
      }
    }
  }

  // --- What never changes -------------------------------------------------------------------------

  /** Returns are at distance one, declarations keep their value, a function's value is that
      of its entry once it is set, and what has a distance can be got past. */
  predicate Steady(m: Program, t: Table)
    requires Fits(m, t)
  {
    && (forall i :: 0 <= i < |t.dist| && m.instrs[i].kind.Return? ==> t.dist[i] == 1)
    && (forall f :: 0 <= f < |t.paths| ==> FunctionSteady(m, t, f))
    && (forall i :: 0 <= i < |t.dist| && t.dist[i] != 0 ==> Through(m, t.paths, i) != 0)
  }

  predicate FunctionSteady(m: Program, t: Table, f: nat)
    requires Fits(m, t) && f < |m.funcs|
  {
    match m.funcs[f]
    case Declaration(returns_) => t.paths[f] == if returns_ then 1 else 0
    case Definition(entry) => t.paths[f] == 0 || t.paths[f] == t.dist[entry]
  }

  lemma {:induction false} RelaxedBounds(m: Program, t: Table, i: nat)
    requires Fits(m, t) && i < |m.instrs|
    ensures t.dist[i] != 0 ==> 0 < Relaxed(m, t, i) <= t.dist[i]
  {
    if Through(m, t.paths, i) != 0 {
      BestIsLeast(t.dist[i], Through(m, t.paths, i), Pick(t.dist, m.instrs[i].succs));
    }
  }

  /** More functions that return keep what could be got past. */
  lemma {:induction false} ThroughStays(m: Program, paths: seq<nat>, more: seq<nat>, i: nat)
    requires m.Valid() && i < |m.instrs| && |paths| == |more| == |m.funcs|
    requires forall f :: 0 <= f < |paths| && paths[f] != 0 ==> more[f] != 0
    requires Through(m, paths, i) != 0
    ensures Through(m, more, i) != 0
  {
    if m.instrs[i].kind.Call? {
      var ts := m.instrs[i].kind.targets;
      Picked(paths, ts);
      Picked(more, ts);
      BestOfNone(1, Pick(paths, ts));
      BestOfNone(1, Pick(more, ts));
    }
  }

  lemma {:induction false} RelaxSteady(m: Program, t: Table, i: nat)
    requires Fits(m, t) && i < |m.instrs| && Steady(m, t)
    ensures Steady(m, Relax(m, t, i))
  {
    hide Best, Relaxed, Through;
    var r := Relax(m, t, i);
    RelaxedBounds(m, t, i);
    forall f | 0 <= f < |t.paths| ensures FunctionSteady(m, r, f) && (t.paths[f] != 0 ==> r.paths[f] != 0) {
      assert FunctionSteady(m, t, f);
    }
    forall j | 0 <= j < |t.dist| && r.dist[j] != 0 ensures Through(m, r.paths, j) != 0 {
      ThroughStays(m, t.paths, r.paths, j);
    }
  }

  // --- Progress ---------------------------------------------------------------------------------------

  function Zeros(d: seq<nat>): (n: nat) {
    if d == [] then 0 else Zeros(d[..|d| - 1]) + if d[|d| - 1] == 0 then 1 else 0
  }

  function Sum(d: seq<nat>): (n: nat) {
    if d == [] then 0 else Sum(d[..|d| - 1]) + d[|d| - 1]
  }

  /** Better values lie lower: fewer zeros, or as many and a smaller sum. */
  lemma {:induction false} BetterIsLower(d: seq<nat>, i: nat, v: nat)
    requires i < |d| && v != d[i] && 0 < v && (d[i] != 0 ==> v < d[i])
    ensures Zeros(d[i := v]) < Zeros(d) || (Zeros(d[i := v]) == Zeros(d) && Sum(d[i := v]) < Sum(d))
  {
    var n := |d| - 1;
    if i == n {
      assert d[i := v][..n] == d[..n];
    } else {
      assert d[i := v][..n] == d[..n][i := v];
      BetterIsLower(d[..n], i, v);
    }
  }

  /** The functions whose value is not yet that of their entry. */
  function Unsynced(m: Program, t: Table, n: nat): (u: nat)
    requires Fits(m, t) && n <= |m.funcs|
  {
    if n == 0 then 0
    else Unsynced(m, t, n - 1) + if Synced(m, t, n - 1) then 0 else 1
  }

  predicate Synced(m: Program, t: Table, f: nat)
    requires Fits(m, t) && f < |m.funcs|
  {
    m.funcs[f].Definition? ==> t.paths[f] == t.dist[m.funcs[f].entry]
  }

  lemma {:induction false} FewerUnsynced(m: Program, t: Table, r: Table, n: nat, f: nat)
    requires Fits(m, t) && Fits(m, r) && n <= |m.funcs|
    requires forall g :: 0 <= g < n && Synced(m, t, g) ==> Synced(m, r, g)
    ensures Unsynced(m, r, n) <= Unsynced(m, t, n)
    ensures f < n && !Synced(m, t, f) && Synced(m, r, f) ==> Unsynced(m, r, n) < Unsynced(m, t, n)
  {
    if n > 0 {
      FewerUnsynced(m, t, r, n - 1, f);
    }
  }

  /** The second table is further along: what the termination of the analysis rests on. */
  predicate Progress(m: Program, t: Table, r: Table)
    requires Fits(m, t) && Fits(m, r)
  {
    || Zeros(r.dist) < Zeros(t.dist)
    || (Zeros(r.dist) == Zeros(t.dist) && Sum(r.dist) < Sum(t.dist))
    || (Zeros(r.dist) == Zeros(t.dist) && Sum(r.dist) == Sum(t.dist)
        && Unsynced(m, r, |m.funcs|) < Unsynced(m, t, |m.funcs|))
  }

  lemma {:induction false} RelaxProgress(m: Program, t: Table, i: nat)
    requires Fits(m, t) && i < |m.instrs| && Relax(m, t, i) != t
    ensures Progress(m, t, Relax(m, t, i))
  {
    hide Best, Through;
    var r := Relax(m, t, i);
    RelaxedBounds(m, t, i);
    if r.dist[i] != t.dist[i] {
      BetterIsLower(t.dist, i, r.dist[i]);
    } else {
      assert r.dist == t.dist;
      var f := m.instrs[i].fn;
      FewerUnsynced(m, t, r, |m.funcs|, f);
    }
  }

  // --- The fixed point -----------------------------------------------------------------------------------

  lemma {:induction false} ProgressContinues(m: Program, t: Table, r: Table, i: nat)
    requires Fits(m, t) && Fits(m, r) && i < |m.instrs| && Progress(m, t, r)
    ensures Progress(m, t, Relax(m, r, i))
  {
    hide Relax;
    if Relax(m, r, i) != r {
      RelaxProgress(m, r, i);
    }
  }

  /** No relaxation changes anything. */
  ghost predicate Settled(m: Program, t: Table)
    requires Fits(m, t)
  {
    forall i :: 0 <= i < |m.instrs| ==> Relax(m, t, i) == t
  }

  /** At the fixed point no path is cheaper than the distance. */
  lemma {:induction false} SettledPath(m: Program, t: Table, i: nat, p: Path)
    requires Fits(m, t) && Steady(m, t) && Settled(m, t) && IsPath(m, i, p)
    ensures 0 < t.dist[i] <= Cost(p)
    decreases p
  {
    hide Best;
    assert Relax(m, t, i) == t;
    match p
    case Last =>
    case Next(s, rest) =>
      SettledPath(m, t, s, rest);
      ThroughSuccessor(m, t, i, s);
    case Over(f, callee, s, rest) =>
      SettledPath(m, t, s, rest);
      SettledCallee(m, t, f, callee);
      ThroughTarget(m, t.paths, i, f);
      ThroughSuccessor(m, t, i, s);
  }

  lemma {:induction false} SettledCallee(m: Program, t: Table, f: nat, c: Callee)
    requires Fits(m, t) && Steady(m, t) && Settled(m, t) && IsCallee(m, f, c)
    ensures 0 < t.paths[f] <= CalleeCost(c)
    decreases c
  {
    hide Best, Through, IsPath;
    assert FunctionSteady(m, t, f);
    match c
    case Unknown =>
    case Body(p) =>
      var e := m.funcs[f].entry;
      SettledPath(m, t, e, p);
      assert Relax(m, t, e) == t;
      EntrySynced(m, t, e);
  }

  lemma {:induction false} EntrySynced(m: Program, t: Table, e: nat)
    requires Fits(m, t) && e < |m.instrs| && m.IsEntry(e) && Relax(m, t, e) == t && Through(m, t.paths, e) != 0
    ensures t.paths[m.instrs[e].fn] == t.dist[e]
  {
    hide Best, Through, Relaxed;
    assert t.dist[e := Relaxed(m, t, e)][e] == t.dist[e];
    assert t.paths[m.instrs[e].fn := Relaxed(m, t, e)][m.instrs[e].fn] == t.paths[m.instrs[e].fn];
  }

  lemma {:induction false} ThroughTarget(m: Program, paths: seq<nat>, i: nat, f: nat)
    requires m.Valid() && i < |m.instrs| && |paths| == |m.funcs| && m.instrs[i].kind.Call?
    requires f in m.instrs[i].kind.targets && paths[f] != 0
    ensures 0 < Through(m, paths, i) <= 1 + paths[f]
  {
    Picked(paths, m.instrs[i].kind.targets);
    BestIsLeast(0, 1, Pick(paths, m.instrs[i].kind.targets));
  }

  lemma {:induction false} ThroughSuccessor(m: Program, t: Table, i: nat, s: nat)
    requires Fits(m, t) && i < |m.instrs| && Relax(m, t, i) == t && Through(m, t.paths, i) != 0
    requires s in m.instrs[i].succs && t.dist[s] != 0
    ensures 0 < t.dist[i] <= Through(m, t.paths, i) + t.dist[s]
  {
    Picked(t.dist, m.instrs[i].succs);
    BestIsLeast(t.dist[i], Through(m, t.paths, i), Pick(t.dist, m.instrs[i].succs));
    assert t.dist[i := Relaxed(m, t, i)][i] == t.dist[i];
  }

  /** Zero where there is no path to the return, and the cost of a shortest one otherwise. */
  ghost predicate ExactDistance(m: Program, i: nat, d: nat)
    requires m.Valid() && i < |m.instrs|
  {
    && (forall p :: IsPath(m, i, p) ==> 0 < d <= Cost(p))
    && (d != 0 ==> exists p :: IsPath(m, i, p) && Cost(p) == d)
  }

  ghost predicate ExactFunction(m: Program, f: nat, d: nat)
    requires m.Valid() && f < |m.funcs|
  {
    && (forall c :: IsCallee(m, f, c) ==> 0 < d <= CalleeCost(c))
    && (d != 0 ==> exists c :: IsCallee(m, f, c) && CalleeCost(c) == d)
  }

  ghost predicate Exact(m: Program, t: Table)
    requires Fits(m, t)
  {
    && (forall i :: 0 <= i < |m.instrs| ==> ExactDistance(m, i, t.dist[i]))
    && (forall f :: 0 <= f < |m.funcs| ==> ExactFunction(m, f, t.paths[f]))
  }

  lemma {:induction false} SettledExact(m: Program, t: Table)
    requires Fits(m, t) && Steady(m, t) && Realized(m, t) && Settled(m, t)
    ensures Exact(m, t)
  {
    forall i, p | 0 <= i < |m.instrs| && IsPath(m, i, p) ensures 0 < t.dist[i] <= Cost(p) {
      SettledPath(m, t, i, p);
    }
    forall f, c | 0 <= f < |m.funcs| && IsCallee(m, f, c) ensures 0 < t.paths[f] <= CalleeCost(c) {
      SettledCallee(m, t, f, c);
    }
  }

  // --- Distance to the nearest uncovered instruction ---------------------------------------------------

  /** A way to run to an uncovered instruction: it is this one, or it is reached from a
      successor, inside a called function, or after a call. */
  datatype Trip =
    | Here
    | On(s: nat, rest: Trip)
    | Into(f: nat, rest: Trip)
    | Across(f: nat, callee: Callee, s: nat, rest: Trip)

  predicate IsTrip(m: Program, uncovered: seq<bool>, i: nat, p: Trip)
    requires m.Valid() && |uncovered| == |m.instrs|
    decreases p
  {
    i < |m.instrs| &&
    match p
    case Here => uncovered[i]
    case On(s, rest) => !m.instrs[i].kind.Call? && s in m.instrs[i].succs && IsTrip(m, uncovered, s, rest)
    case Into(f, rest) =>
      && m.instrs[i].kind.Call? && f in m.instrs[i].kind.targets && m.funcs[f].Definition?
      && IsTrip(m, uncovered, m.funcs[f].entry, rest)
    case Across(f, callee, s, rest) =>
      && m.instrs[i].kind.Call? && f in m.instrs[i].kind.targets && IsCallee(m, f, callee)
      && s in m.instrs[i].succs && IsTrip(m, uncovered, s, rest)
  }

  /** The number of instructions run, the uncovered one included. */
  function TripCost(p: Trip): (n: nat)
    ensures 0 < n
  {
    match p
    case Here => 1
    case On(_, rest) => 1 + TripCost(rest)
    case Into(_, rest) => 1 + TripCost(rest)
    case Across(_, callee, _, rest) => 1 + CalleeCost(callee) + TripCost(rest)
  }

  /** What the table says at the entries of functions; declarations have nothing to cover. */
  function AtEntries(m: Program, u: seq<nat>, fs: seq<nat>): (xs: seq<nat>)
    requires m.Valid() && |u| == |m.instrs| && forall k :: 0 <= k < |fs| ==> fs[k] < |m.funcs|
  {
    seq(|fs|, k requires 0 <= k < |fs| => if m.funcs[fs[k]].Definition? then u[m.funcs[fs[k]].entry] else 0)
  }

  function Entered(m: Program, u: seq<nat>, i: nat): (best: nat)
    requires m.Valid() && |u| == |m.instrs| && i < |u|
  {
    if m.instrs[i].kind.Call? then Best(u[i], 1, AtEntries(m, u, m.instrs[i].kind.targets)) else u[i]
  }

  function Nearer(m: Program, paths: seq<nat>, u: seq<nat>, i: nat): (best: nat)
    requires m.Valid() && |u| == |m.instrs| && i < |u| && |paths| == |m.funcs|
  {
    if Through(m, paths, i) == 0 then Entered(m, u, i)
    else Best(Entered(m, u, i), Through(m, paths, i), Pick(u, m.instrs[i].succs))
  }

  /** Every distance is the cost of a trip, and uncovered instructions are at distance one. */
  ghost predicate TripsRealized(m: Program, uncovered: seq<bool>, u: seq<nat>)
    requires m.Valid() && |uncovered| == |u| == |m.instrs|
  {
    && (forall i :: 0 <= i < |u| && uncovered[i] ==> u[i] == 1)
    && (forall i :: 0 <= i < |u| && u[i] != 0 ==> exists p :: IsTrip(m, uncovered, i, p) && TripCost(p) == u[i])
  }

  lemma {:induction false} EnteredRealized(m: Program, uncovered: seq<bool>, u: seq<nat>, i: nat)
    requires m.Valid() && |uncovered| == |u| == |m.instrs| && i < |u| && TripsRealized(m, uncovered, u)
    requires Entered(m, u, i) != 0
    ensures exists p :: IsTrip(m, uncovered, i, p) && TripCost(p) == Entered(m, u, i)
  {
    if Entered(m, u, i) != u[i] {
      var fs := m.instrs[i].kind.targets;
      var xs := AtEntries(m, u, fs);
      BestIsLeast(u[i], 1, xs);
      var x :| x in xs && x != 0 && Entered(m, u, i) == 1 + x;
      var k :| 0 <= k < |xs| && xs[k] == x;
      var rest :| IsTrip(m, uncovered, m.funcs[fs[k]].entry, rest) && TripCost(rest) == x;
      assert IsTrip(m, uncovered, i, Into(fs[k], rest)) && TripCost(Into(fs[k], rest)) == 1 + x;
    }
  }

  lemma {:induction false} NearerRealized(m: Program, t: Table, uncovered: seq<bool>, u: seq<nat>, i: nat)
    requires Fits(m, t) && Realized(m, t) && |uncovered| == |u| == |m.instrs| && i < |u|
    requires TripsRealized(m, uncovered, u) && Nearer(m, t.paths, u, i) != 0
    ensures exists p :: IsTrip(m, uncovered, i, p) && TripCost(p) == Nearer(m, t.paths, u, i)
  {
    var through, best := Through(m, t.paths, i), Nearer(m, t.paths, u, i);
    if best == Entered(m, u, i) {
      EnteredRealized(m, uncovered, u, i);
    } else {
      var xs := Pick(u, m.instrs[i].succs);
      BestIsLeast(Entered(m, u, i), through, xs);
      Picked(u, m.instrs[i].succs);
      var x :| x in xs && x != 0 && best == through + x;
      var s :| s in m.instrs[i].succs && u[s] == x;
      TripThrough(m, t, uncovered, u, i, s);
    }
  }

  lemma {:induction false} TripThrough(m: Program, t: Table, uncovered: seq<bool>, u: seq<nat>, i: nat, s: nat)
    requires Fits(m, t) && Realized(m, t) && |uncovered| == |u| == |m.instrs| && i < |u|
    requires TripsRealized(m, uncovered, u) && s in m.instrs[i].succs && u[s] != 0 && Through(m, t.paths, i) != 0
    ensures exists p :: IsTrip(m, uncovered, i, p) && TripCost(p) == Through(m, t.paths, i) + u[s]
  {
    var rest :| IsTrip(m, uncovered, s, rest) && TripCost(rest) == u[s];
    if m.instrs[i].kind.Call? {
      ThroughRealized(m, t, i);
      var f, c :| f in m.instrs[i].kind.targets && IsCallee(m, f, c) && 1 + CalleeCost(c) == Through(m, t.paths, i);
      var p := Across(f, c, s, rest);
      assert IsTrip(m, uncovered, i, p) && TripCost(p) == Through(m, t.paths, i) + u[s];
    } else {
      var p := On(s, rest);
      assert IsTrip(m, uncovered, i, p) && TripCost(p) == Through(m, t.paths, i) + u[s];
    }
  }

  lemma {:induction false} NearerBounds(m: Program, paths: seq<nat>, u: seq<nat>, i: nat)
    requires m.Valid() && |u| == |m.instrs| && i < |u| && |paths| == |m.funcs|
    ensures u[i] != 0 ==> 0 < Nearer(m, paths, u, i) <= u[i]
    ensures Entered(m, u, i) != 0 ==> 0 < Nearer(m, paths, u, i) <= Entered(m, u, i)
  {
    if m.instrs[i].kind.Call? {
      BestIsLeast(u[i], 1, AtEntries(m, u, m.instrs[i].kind.targets));
    }
    if Through(m, paths, i) != 0 {
      BestIsLeast(Entered(m, u, i), Through(m, paths, i), Pick(u, m.instrs[i].succs));
    }
  }

  ghost predicate TripsSettled(m: Program, paths: seq<nat>, u: seq<nat>)
    requires m.Valid() && |u| == |m.instrs| && |paths| == |m.funcs|
  {
    forall i :: 0 <= i < |u| ==> Nearer(m, paths, u, i) == u[i]
  }

  /** At the fixed point no trip is cheaper than the distance. */
  lemma {:induction false} SettledTrip(m: Program, t: Table, uncovered: seq<bool>, u: seq<nat>, i: nat, p: Trip)
    requires Fits(m, t) && Exact(m, t) && |uncovered| == |u| == |m.instrs| && i < |u|
    requires TripsRealized(m, uncovered, u) && TripsSettled(m, t.paths, u) && IsTrip(m, uncovered, i, p)
    ensures 0 < u[i] <= TripCost(p)
    decreases p
  {
    hide Best, Through, Nearer, Entered, IsCallee, CalleeCost, Realized;
    assert Nearer(m, t.paths, u, i) == u[i];
    match p
    case Here =>
    case On(s, rest) =>
      SettledTrip(m, t, uncovered, u, s, rest);
      PlainThrough(m, t.paths, i);
      NearerSuccessor(m, t.paths, u, i, s);
    case Into(f, rest) =>
      SettledTrip(m, t, uncovered, u, m.funcs[f].entry, rest);
      NearerEntry(m, t.paths, u, i, f);
    case Across(f, callee, s, rest) =>
      SettledTrip(m, t, uncovered, u, s, rest);
      assert ExactFunction(m, f, t.paths[f]);
      ThroughTarget(m, t.paths, i, f);
      NearerSuccessor(m, t.paths, u, i, s);
  }

  lemma {:induction false} PlainThrough(m: Program, paths: seq<nat>, i: nat)
    requires m.Valid() && i < |m.instrs| && |paths| == |m.funcs| && !m.instrs[i].kind.Call?
    ensures Through(m, paths, i) == 1
  {
  }

  lemma {:induction false} NearerSuccessor(m: Program, paths: seq<nat>, u: seq<nat>, i: nat, s: nat)
    requires m.Valid() && |u| == |m.instrs| && i < |u| && |paths| == |m.funcs|
    requires s in m.instrs[i].succs && u[s] != 0 && Through(m, paths, i) != 0
    ensures 0 < Nearer(m, paths, u, i) <= Through(m, paths, i) + u[s]
  {
    Picked(u, m.instrs[i].succs);
    BestIsLeast(Entered(m, u, i), Through(m, paths, i), Pick(u, m.instrs[i].succs));
  }

  lemma {:induction false} NearerEntry(m: Program, paths: seq<nat>, u: seq<nat>, i: nat, f: nat)
    requires m.Valid() && |u| == |m.instrs| && i < |u| && |paths| == |m.funcs| && m.instrs[i].kind.Call?
    requires f in m.instrs[i].kind.targets && m.funcs[f].Definition? && u[m.funcs[f].entry] != 0
    ensures 0 < Nearer(m, paths, u, i) <= 1 + u[m.funcs[f].entry]
  {
    var fs := m.instrs[i].kind.targets;
    var k :| 0 <= k < |fs| && fs[k] == f;
    var xs := AtEntries(m, u, fs);
    assert xs[k] == u[m.funcs[f].entry] && xs[k] in xs;
    BestIsLeast(u[i], 1, xs);
    NearerBounds(m, paths, u, i);
  }

  /** Zero where no uncovered instruction can be reached, and the cost of a shortest trip
      otherwise. */
  ghost predicate ExactTrips(m: Program, uncovered: seq<bool>, u: seq<nat>)
    requires m.Valid() && |uncovered| == |u| == |m.instrs|
  {
    forall i :: 0 <= i < |u| ==>
      && (forall p :: IsTrip(m, uncovered, i, p) ==> 0 < u[i] <= TripCost(p))
      && (u[i] != 0 ==> exists p :: IsTrip(m, uncovered, i, p) && TripCost(p) == u[i])
  }

  /** The second table is further along. */
  predicate Lower(u: seq<nat>, v: seq<nat>) {
    Zeros(v) < Zeros(u) || (Zeros(v) == Zeros(u) && Sum(v) < Sum(u))
  }

  class StatsTracker {
    const program: Program
    var minDistToReturn: seq<nat>
    var functionShortestPath: seq<nat>
    var minDistToUncovered: seq<nat>

    ghost function View(): (t: Table)
      reads this
    {
      Table(minDistToReturn, functionShortestPath)
    }

    constructor (program: Program)
      requires program.Valid()
      ensures this.program == program
    {
      this.program := program;
      minDistToReturn, functionShortestPath, minDistToUncovered := [], [], [];
    }

    method BestThrough(i: nat) returns (best: nat)
      requires Fits(program, View()) && i < |program.instrs|
      ensures best == Through(program, functionShortestPath, i)
    {
      if !program.instrs[i].kind.Call? {
        return 1;
      }
      var targets := program.instrs[i].kind.targets;
      ghost var xs := Pick(functionShortestPath, targets);
      best := 0;
      for k := 0 to |targets|
        invariant best == Best(0, 1, xs[..k])
      {
        assert xs[..k + 1][..k] == xs[..k];
        var dist := functionShortestPath[targets[k]];
        if dist != 0 {
          dist := 1 + dist;
          if best == 0 || dist < best {
            best := dist;
          }
        }
      }
      assert xs[..|targets|] == xs;
    }

    /** Relaxes one instruction. */
    method RelaxReturn(i: nat) returns (changed: bool)
      requires Fits(program, View()) && i < |program.instrs|
      modifies this`minDistToReturn, this`functionShortestPath
      ensures View() == Relax(program, old(View()), i) && (changed <==> View() != old(View()))
    {
      changed := false;
      var through := BestThrough(i);
      if through != 0 {
        var best := minDistToReturn[i];
        var succs := program.instrs[i].succs;
        ghost var xs := Pick(minDistToReturn, succs);
        for k := 0 to |succs|
          invariant best == Best(minDistToReturn[i], through, xs[..k])
        {
          assert xs[..k + 1][..k] == xs[..k];
          var dist := minDistToReturn[succs[k]];
          if dist != 0 && (best == 0 || through + dist < best) {
            best := through + dist;
          }
        }
        assert xs[..|succs|] == xs;
        var f := program.instrs[i].fn;
        if best != minDistToReturn[i] || (program.IsEntry(i) && functionShortestPath[f] != best) {
          minDistToReturn := minDistToReturn[i := best];
          changed := true;
          if program.IsEntry(i) {
            functionShortestPath := functionShortestPath[f := best];
          }
        }
      }
    }

    /** Before the first round only returns and known declarations have values. */
    method InitReturn()
      requires program.Valid()
      modifies this`minDistToReturn, this`functionShortestPath
      ensures Fits(program, View()) && Steady(program, View()) && Realized(program, View())
    {
      var instrs, funcs := program.instrs, program.funcs;
      functionShortestPath := seq(|funcs|,
                                  f requires 0 <= f < |funcs| => if funcs[f] == Declaration(true) then 1 else 0);
      minDistToReturn := seq(|instrs|, i requires 0 <= i < |instrs| => if instrs[i].kind.Return? then 1 else 0);
      forall i | 0 <= i < |instrs| && minDistToReturn[i] != 0 ensures IsPath(program, i, Last) && Cost(Last) == 1 {}
      forall f | 0 <= f < |funcs| && functionShortestPath[f] != 0
        ensures IsCallee(program, f, Unknown) && CalleeCost(Unknown) == 1 {}
    }

    /** One round over all instructions, last to first. */
    method RelaxAllReturns() returns (changed: bool)
      requires Fits(program, View()) && Steady(program, View()) && Realized(program, View())
      modifies this`minDistToReturn, this`functionShortestPath
      ensures Fits(program, View()) && Steady(program, View()) && Realized(program, View())
      ensures changed ==> Progress(program, old(View()), View())
      ensures !changed ==> View() == old(View()) && Settled(program, View())
    {
      hide Relax, Steady, Realized, Progress, Fits;
      changed := false;
      for i := |program.instrs| downto 0
        invariant Fits(program, View()) && Steady(program, View()) && Realized(program, View())
        invariant changed ==> Progress(program, old(View()), View())
        invariant !changed ==> View() == old(View())
        invariant !changed ==> forall j :: i <= j < |program.instrs| ==> Relax(program, View(), j) == View()
      {
        RelaxSteady(program, View(), i);
        RelaxRealized(program, View(), i);
        if Relax(program, View(), i) != View() {
          RelaxProgress(program, View(), i);
        }
        if changed {
          ProgressContinues(program, old(View()), View(), i);
        }
        var different := RelaxReturn(i);
        changed := changed || different;
      }
    }

    /** The distances to the return and through functions are exact when nothing changes. */
    method ComputeMinDistToReturn()
      requires program.Valid()
      modifies this`minDistToReturn, this`functionShortestPath
      ensures Fits(program, View()) && Exact(program, View())
    {
      InitReturn();
      var changed := true;
      while changed
        invariant Fits(program, View()) && Steady(program, View()) && Realized(program, View())
        invariant !changed ==> Settled(program, View())
        decreases Zeros(minDistToReturn), Sum(minDistToReturn), Unsynced(program, View(), |program.funcs|), changed
      {
        changed := RelaxAllReturns();
      }
      SettledExact(program, View());
    }

    /** Relaxes one instruction of the second analysis. */
    method RelaxUncovered(i: nat) returns (changed: bool)
      requires Fits(program, View()) && |minDistToUncovered| == |program.instrs| && i < |program.instrs|
      modifies this`minDistToUncovered
      ensures minDistToUncovered
           == old(minDistToUncovered)[i := Nearer(program, functionShortestPath, old(minDistToUncovered), i)]
      ensures changed <==> minDistToUncovered != old(minDistToUncovered)
    {
      var best := EnterTargets(i);
      var through := BestThrough(i);
      if through != 0 {
        var succs := program.instrs[i].succs;
        ghost var start, xs := best, Pick(minDistToUncovered, succs);
        for k := 0 to |succs|
          invariant best == Best(start, through, xs[..k])
        {
          assert xs[..k + 1][..k] == xs[..k];
          var dist := minDistToUncovered[succs[k]];
          if dist != 0 && (best == 0 || through + dist < best) {
            best := through + dist;
          }
        }
        assert xs[..|succs|] == xs;
      }
      changed := best != minDistToUncovered[i];
      if changed {
        minDistToUncovered := minDistToUncovered[i := best];
      }
    }

    method EnterTargets(i: nat) returns (best: nat)
      requires program.Valid() && |minDistToUncovered| == |program.instrs| && i < |program.instrs|
      ensures best == Entered(program, minDistToUncovered, i)
    {
      best := minDistToUncovered[i];
      if program.instrs[i].kind.Call? {
        var targets := program.instrs[i].kind.targets;
        ghost var xs := AtEntries(program, minDistToUncovered, targets);
        for k := 0 to |targets|
          invariant best == Best(minDistToUncovered[i], 1, xs[..k])
        {
          assert xs[..k + 1][..k] == xs[..k];
          var target := program.funcs[targets[k]];
          if target.Definition? {
            var calleeDist := minDistToUncovered[target.entry];
            if calleeDist != 0 {
              calleeDist := 1 + calleeDist;
              if best == 0 || calleeDist < best {
                best := calleeDist;
              }
            }
          }
        }
        assert xs[..|targets|] == xs;
      }
    }

    method RelaxAllUncovered(uncovered: seq<bool>) returns (changed: bool)
      requires Fits(program, View()) && Exact(program, View())
      requires |uncovered| == |minDistToUncovered| == |program.instrs|
      requires TripsRealized(program, uncovered, minDistToUncovered)
      modifies this`minDistToUncovered
      ensures |minDistToUncovered| == |program.instrs| && TripsRealized(program, uncovered, minDistToUncovered)
      ensures changed ==> Lower(old(minDistToUncovered), minDistToUncovered)
      ensures !changed ==> TripsSettled(program, functionShortestPath, minDistToUncovered)
      ensures !changed ==> minDistToUncovered == old(minDistToUncovered)
    {
      hide Exact, Best, Nearer;
      changed := false;
      for i := |program.instrs| downto 0
        invariant |minDistToUncovered| == |program.instrs| && TripsRealized(program, uncovered, minDistToUncovered)
        invariant changed ==> Lower(old(minDistToUncovered), minDistToUncovered)
        invariant !changed ==> minDistToUncovered == old(minDistToUncovered)
        invariant !changed ==> forall j :: i <= j < |program.instrs| ==>
                    Nearer(program, functionShortestPath, minDistToUncovered, j) == minDistToUncovered[j]
      {
        NearerStep(program, View(), uncovered, minDistToUncovered, i);
        var different := RelaxUncovered(i);
        changed := changed || different;
      }
    }

    /** Distances to uncovered code, given those through functions. */
    method ComputeMinDistToUncovered(uncovered: seq<bool>)
      requires Fits(program, View()) && Exact(program, View()) && |uncovered| == |program.instrs|
      modifies this`minDistToUncovered
      ensures |minDistToUncovered| == |program.instrs| && ExactTrips(program, uncovered, minDistToUncovered)
    {
      hide Exact, Best, Nearer;
      minDistToUncovered := seq(|uncovered|, i requires 0 <= i < |uncovered| => if uncovered[i] then 1 else 0);
      forall i | 0 <= i < |uncovered| && minDistToUncovered[i] != 0
        ensures IsTrip(program, uncovered, i, Here) && TripCost(Here) == 1 {}
      var changed := true;
      while changed
        invariant |minDistToUncovered| == |program.instrs| && TripsRealized(program, uncovered, minDistToUncovered)
        invariant !changed ==> TripsSettled(program, functionShortestPath, minDistToUncovered)
        decreases Zeros(minDistToUncovered), Sum(minDistToUncovered), changed
      {
        changed := RelaxAllUncovered(uncovered);
      }
      forall i, p | 0 <= i < |uncovered| && IsTrip(program, uncovered, i, p)
        ensures 0 < minDistToUncovered[i] <= TripCost(p)
      {
        SettledTrip(program, View(), uncovered, minDistToUncovered, i, p);
      }
    }
  }

  lemma {:induction false} ExactRealized(m: Program, t: Table)
    requires Fits(m, t) && Exact(m, t)
    ensures Realized(m, t)
  {
    forall i | 0 <= i < |t.dist| && t.dist[i] != 0 ensures exists p :: IsPath(m, i, p) && Cost(p) == t.dist[i] {
      assert ExactDistance(m, i, t.dist[i]);
    }
    forall f | 0 <= f < |t.paths| && t.paths[f] != 0
      ensures exists c :: IsCallee(m, f, c) && CalleeCost(c) == t.paths[f]
    {
      assert ExactFunction(m, f, t.paths[f]);
    }
  }

  lemma {:induction false} NearerStep(m: Program, t: Table, uncovered: seq<bool>, u: seq<nat>, i: nat)
    requires Fits(m, t) && Exact(m, t) && |uncovered| == |u| == |m.instrs| && i < |u|
    requires TripsRealized(m, uncovered, u)
    ensures TripsRealized(m, uncovered, u[i := Nearer(m, t.paths, u, i)])
    ensures u[i := Nearer(m, t.paths, u, i)] == u <==> Nearer(m, t.paths, u, i) == u[i]
    ensures Nearer(m, t.paths, u, i) != u[i] ==> Lower(u, u[i := Nearer(m, t.paths, u, i)])
  {
    hide Nearer, Realized, Exact;
    var best := Nearer(m, t.paths, u, i);
    NearerBounds(m, t.paths, u, i);
    if best != 0 {
      ExactRealized(m, t);
      NearerRealized(m, t, uncovered, u, i);
    }
    if best != u[i] {
      BetterIsLower(u, i, best);
      assert u[i := best][i] == best;
    } else {
      assert u[i := best] == u;
    }
  }

  // --- Through the call stack ------------------------------------------------------------------------------

  /** The shorter of two distances, where zero is none. */
  function Shorter(x: nat, y: nat): (r: nat) {
    if x == 0 then y else if y == 0 then x else if x < y then x else y
  }

  /** The distance from an instruction when the caller's frame is at a known distance once
      this one returns. */
  function MinDistToUncovered(local: nat, toReturn: nat, atReturn: nat): (d: nat)
    ensures d == Shorter(local, if toReturn == 0 || atReturn == 0 then 0 else toReturn + atReturn)
  {
    if atReturn == 0 then local
    else if toReturn == 0 then local
    else if local == 0 then toReturn + atReturn
    else if local < toReturn + atReturn then local
    else toReturn + atReturn
  }

  /** A way to uncovered code from a stack of frames, each at its next instruction, the
      running one last: inside the running frame, or after returning from it. */
  datatype Escape = Local(trip: Trip) | Returning(path: Path, rest: Escape)

  predicate IsEscape(m: Program, uncovered: seq<bool>, frames: seq<nat>, e: Escape)
    requires m.Valid() && |uncovered| == |m.instrs|
    decreases e
  {
    frames != [] &&
    match e
    case Local(trip) => IsTrip(m, uncovered, frames[|frames| - 1], trip)
    case Returning(path, rest) =>
      IsPath(m, frames[|frames| - 1], path) && IsEscape(m, uncovered, frames[..|frames| - 1], rest)
  }

  function EscapeCost(e: Escape): (n: nat)
    ensures 0 < n
  {
    match e
    case Local(trip) => TripCost(trip)
    case Returning(path, rest) => Cost(path) + EscapeCost(rest)
  }

  function StackDistance(t: Table, u: seq<nat>, frames: seq<nat>): (d: nat)
    requires |t.dist| == |u| && forall k :: 0 <= k < |frames| ==> frames[k] < |u|
  {
    if frames == [] then 0
    else
      var top := frames[|frames| - 1];
      MinDistToUncovered(u[top], t.dist[top], StackDistance(t, u, frames[..|frames| - 1]))
  }

  /** Zero where uncovered code is out of reach of the whole stack, and otherwise the cost of
      a shortest way there. */
  lemma {:induction false} StackExact(m: Program, t: Table, uncovered: seq<bool>, u: seq<nat>, frames: seq<nat>)
    requires Fits(m, t) && Exact(m, t) && |uncovered| == |u| == |m.instrs| && ExactTrips(m, uncovered, u)
    requires forall k :: 0 <= k < |frames| ==> frames[k] < |u|
    ensures forall e :: IsEscape(m, uncovered, frames, e) ==> 0 < StackDistance(t, u, frames) <= EscapeCost(e)
    ensures StackDistance(t, u, frames) != 0 ==>
              exists e :: IsEscape(m, uncovered, frames, e) && EscapeCost(e) == StackDistance(t, u, frames)
    decreases |frames|
  {
    if frames != [] {
      var n := |frames| - 1;
      var top, below := frames[n], frames[..n];
      StackExact(m, t, uncovered, u, below);
      assert ExactDistance(m, top, t.dist[top]);
      var atReturn, d := StackDistance(t, u, below), StackDistance(t, u, frames);
      forall e | IsEscape(m, uncovered, frames, e) ensures 0 < d <= EscapeCost(e) {
        if e.Returning? {
          assert IsEscape(m, uncovered, below, e.rest);
        }
      }
      if d != 0 {
        if d == u[top] {
          var p :| IsTrip(m, uncovered, top, p) && TripCost(p) == u[top];
          assert IsEscape(m, uncovered, frames, Local(p)) && EscapeCost(Local(p)) == d;
        } else {
          var p :| IsPath(m, top, p) && Cost(p) == t.dist[top];
          var e :| IsEscape(m, uncovered, below, e) && EscapeCost(e) == atReturn;
          assert IsEscape(m, uncovered, frames, Returning(p, e)) && EscapeCost(Returning(p, e)) == d;
        }
      }
    }
  }

  /** What each frame is told about the distance once it has returned, and the distance of
      the whole stack. */
  method DistancesOnReturn(t: Table, u: seq<nat>, frames: seq<nat>) returns (onReturn: seq<nat>, dist: nat)
    requires |t.dist| == |u| && forall k :: 0 <= k < |frames| ==> frames[k] < |u|
    ensures |onReturn| == |frames| && dist == StackDistance(t, u, frames)
    ensures forall k :: 0 <= k < |frames| ==> onReturn[k] == StackDistance(t, u, frames[..k])
  {
    onReturn, dist := [], 0;
    for k := 0 to |frames|
      invariant |onReturn| == k && dist == StackDistance(t, u, frames[..k])
      invariant forall j :: 0 <= j < k ==> onReturn[j] == StackDistance(t, u, frames[..j])
    {
      assert frames[..k + 1][..k] == frames[..k];
      onReturn := onReturn + [dist];
      dist := MinDistToUncovered(u[frames[k]], t.dist[frames[k]], dist);
    }
    assert frames[..|frames|] == frames;
  }
}
