/** Seeds: concrete values for the symbolic bytes, evaluation of expressions under them, and
    the repair of a seed that does not fit a new condition. */
module Seeds {
  import Bits
  import opened Exprs
  import opened Booleans
  import opened Constraints
  import opened Constructors
  import opened Folding
  import opened Solvers
  import opened Visitors

  const INDEX_WIDTH: nat := 32
  const BYTE_WIDTH: nat := 8

  predicate ByteArray(root: Array) {
    root.Valid() && root.IsSymbolic() && root.domain == INDEX_WIDTH && root.range == BYTE_WIDTH
    && root.size <= Bits.Pow2(INDEX_WIDTH)
  }

  /** Values for symbolic byte arrays, all their bytes. */
  predicate ValidSeed(s: Assignment) {
    forall root :: root in s.bindings ==>
      && ByteArray(root) && |s.bindings[root]| == root.size
      && forall i :: 0 <= i < root.size ==> s.bindings[root][i] < Bits.Pow2(BYTE_WIDTH)
  }

  /** The input has the bytes that the seed has. */
  ghost predicate Agrees(a: Assignment, s: Assignment) {
    forall root, i :: root in s.bindings && 0 <= i < |s.bindings[root]| ==>
      InitialValue(root, i, a) == s.bindings[root][i]
  }

  // --- Evaluation under a seed --------------------------------------------------------------------

  predicate AllConstant(ks: seq<Expr>) {
    forall i :: 0 <= i < |ks| ==> ks[i].Constant?
  }

  predicate IsDivision(e: Expr) {
    e.Binary? && (e.op.UDiv? || e.op.SDiv? || e.op.URem? || e.op.SRem?)
  }

  /** A node over evaluated operands: folded if its own operands are constants, and otherwise
      rebuilt if some operand changed. */
  function Remade(e: Expr, ks: seq<Expr>): (r: Expr)
    requires WellTyped(e) && FitKids(e, ks)
    ensures WellTyped(r) && Width(r) == Width(e)
  {
    KidsWellTyped(e);
    if AllConstant(Kids(e)) then Rebuild(e, Kids(e)) else if ks == Kids(e) then e else Rebuild(e, ks)
  }

  /** A zero divisor is left as it was. */
  function Divisor(e: Expr, r: Expr, y: Expr): (d: Expr) {
    if IsDivision(e) && y.Constant? && y.value == 0 then r else y
  }

  /** An expression with the bytes of the seed filled in; other bytes stay symbolic. */
  function Evaluate(e: Expr, s: Assignment): (r: Expr)
    requires WellTyped(e) && ValidSeed(s)
    ensures WellTyped(r) && Width(r) == Width(e)
    decreases e
  {
    match e
    case Constant(_, _) => e
    case Read(root, updates, index) =>
      var v := Evaluate(index, s);
      if v.Constant? then EvalRead(root, updates, v.value, s) else Remade(e, [v])
    case NotOptimized(src) => if src.Constant? then e else Evaluate(src, s)
    case Select(c, t, f) => Remade(e, [Evaluate(c, s), Evaluate(t, s), Evaluate(f, s)])
    case Concat(l, r) => Remade(e, [Evaluate(l, s), Evaluate(r, s)])
    case Extract(src, _, _) => Remade(e, [Evaluate(src, s)])
    case ZExt(src, _) => Remade(e, [Evaluate(src, s)])
    case SExt(src, _) => Remade(e, [Evaluate(src, s)])
    case Not(src) => Remade(e, [Evaluate(src, s)])
    case Binary(_, l, r) => Remade(e, [Evaluate(l, s), Divisor(e, r, Evaluate(r, s))])
  }

  /** A read at a known index: past the updates that are known to be elsewhere. */
  function EvalRead(root: Array, u: Updates, i: nat, s: Assignment): (r: Expr)
    requires root.Valid() && UpdatesWellTyped(root, u) && i < Bits.Pow2(root.domain) && ValidSeed(s)
    ensures WellTyped(r) && Width(r) == root.range
    decreases u
  {
    match u
    case NoUpdate =>
      if i < |root.constants| then Constant(root.constants[i], root.range)
      else if root in s.bindings && i < |s.bindings[root]| then Constant(s.bindings[root][i], root.range)
      else ReadCreate(root, NoUpdate, Constant(i, root.domain))
    case Update(next, index, value) =>
      var ui := Evaluate(index, s);
      if !ui.Constant? then ReadCreate(root, u, Constant(i, root.domain))
      else if ui.value == i then Evaluate(value, s)
      else EvalRead(root, next, i, s)
  }

  lemma {:induction false} RemadeValue(e: Expr, ks: seq<Expr>, a: Assignment)
    requires WellTyped(e) && FitKids(e, ks)
    requires forall i :: 0 <= i < |ks| ==> Eval(ks[i], a) == Eval(Kids(e)[i], a)
    ensures Eval(Remade(e, ks), a) == Eval(e, a)
  {
    hide Rebuild, Eval;
    KidsWellTyped(e);
    var used := if AllConstant(Kids(e)) then Kids(e) else ks;
    RebuildValue(e, used, a);
    Congruence(e, used, a);
  }

  /** On inputs that agree with the seed nothing changes. */
  lemma {:induction false} EvaluateValue(e: Expr, s: Assignment, a: Assignment)
    requires WellTyped(e) && ValidSeed(s) && Agrees(a, s)
    ensures Eval(Evaluate(e, s), a) == Eval(e, a)
    decreases e
  {
    hide Remade, Eval, Agrees;
    match e
    case Constant(_, _) =>
    case Read(root, updates, index) => EvaluateReadValue(root, updates, index, s, a);
    case NotOptimized(src) => EvaluateValue(src, s, a); SameSource(src, a);
    case Select(c, t, f) =>
      EvaluateValue(c, s, a);
      EvaluateValue(t, s, a);
      EvaluateValue(f, s, a);
      RemadeValue(e, [Evaluate(c, s), Evaluate(t, s), Evaluate(f, s)], a);
    case Concat(l, r) =>
      EvaluateValue(l, s, a);
      EvaluateValue(r, s, a);
      RemadeValue(e, [Evaluate(l, s), Evaluate(r, s)], a);
    case Extract(src, _, _) => EvaluateValue(src, s, a); RemadeValue(e, [Evaluate(src, s)], a);
    case ZExt(src, _) => EvaluateValue(src, s, a); RemadeValue(e, [Evaluate(src, s)], a);
    case SExt(src, _) => EvaluateValue(src, s, a); RemadeValue(e, [Evaluate(src, s)], a);
    case Not(src) => EvaluateValue(src, s, a); RemadeValue(e, [Evaluate(src, s)], a);
    case Binary(op, l, r) =>
      EvaluateValue(l, s, a);
      EvaluateValue(r, s, a);
      RemadeValue(e, [Evaluate(l, s), Divisor(e, r, Evaluate(r, s))], a);
  }

  lemma {:induction false} SameSource(src: Expr, a: Assignment)
    ensures Eval(NotOptimized(src), a) == Eval(src, a)
  {
  }

  lemma {:induction false} EvaluateReadValue(root: Array, u: Updates, index: Expr, s: Assignment, a: Assignment)
    requires WellTyped(Read(root, u, index)) && ValidSeed(s) && Agrees(a, s)
    ensures Eval(Evaluate(Read(root, u, index), s), a) == Eval(Read(root, u, index), a)
    decreases Read(root, u, index), 0
  {
    var v := Evaluate(index, s);
    EvaluateValue(index, s, a);
    if v.Constant? {
      EvalReadValue(root, u, v.value, s, a);
    } else {
      RemadeValue(Read(root, u, index), [v], a);
    }
  }

  lemma {:induction false} EvalReadValue(root: Array, u: Updates, i: nat, s: Assignment, a: Assignment)
    requires root.Valid() && UpdatesWellTyped(root, u) && i < Bits.Pow2(root.domain) && ValidSeed(s) && Agrees(a, s)
    ensures Eval(EvalRead(root, u, i, s), a) == ReadValue(root, u, i, a)
    decreases u
  {
    match u
    case NoUpdate => ReadCreateValue(root, NoUpdate, Constant(i, root.domain), a);
    case Update(next, index, value) =>
      var ui := Evaluate(index, s);
      EvaluateValue(index, s, a);
      if !ui.Constant? {
        ReadCreateValue(root, u, Constant(i, root.domain), a);
      } else if ui.value == i {
        EvaluateValue(value, s, a);
      } else {
        EvalReadValue(root, next, i, s, a);
      }
  }

  // --- Filling in -----------------------------------------------------------------------------------

  /** The seed holds every byte that the expression reads, at the places it reads under the
      seed, and no divisor is zero there; a barrier around a constant is never folded. */
  predicate Covered(e: Expr, s: Assignment)
    decreases e
  {
    match e
    case Constant(_, _) => true
    case NotOptimized(src) => !src.Constant? && Covered(src, s)
    case Read(root, updates, index) => Covered(index, s) && CoveredRead(root, updates, Eval(index, s), s)
    case Select(c, t, f) => Covered(c, s) && Covered(t, s) && Covered(f, s)
    case Concat(l, r) => Covered(l, s) && Covered(r, s)
    case Extract(src, _, _) => Covered(src, s)
    case ZExt(src, _) => Covered(src, s)
    case SExt(src, _) => Covered(src, s)
    case Not(src) => Covered(src, s)
    case Binary(_, l, r) => Covered(l, s) && Covered(r, s) && (IsDivision(e) ==> Eval(r, s) != 0)
  }

  predicate CoveredRead(root: Array, u: Updates, i: nat, s: Assignment)
    decreases u
  {
    match u
    case NoUpdate => i < |root.constants| || (root in s.bindings && i < |s.bindings[root]|)
    case Update(next, index, value) =>
      Covered(index, s) && if Eval(index, s) == i then Covered(value, s) else CoveredRead(root, next, i, s)
  }

  lemma {:induction false} SelfAgrees(s: Assignment)
    requires ValidSeed(s)
    ensures Agrees(s, s)
  {
    forall root, i | root in s.bindings && 0 <= i < |s.bindings[root]|
      ensures InitialValue(root, i, s) == s.bindings[root][i]
    {
      Bits.TruncWhole(s.bindings[root][i], BYTE_WIDTH);
    }
  }

  /** With its bytes in the seed an expression evaluates to the constant it has under the seed. */
  lemma {:induction false} EvaluateFills(e: Expr, s: Assignment)
    requires WellTyped(e) && ValidSeed(s) && Covered(e, s)
    ensures Evaluate(e, s) == Constant(Eval(e, s), Width(e))
  {
    EvaluateFolds(e, s);
    SelfAgrees(s);
    EvaluateValue(e, s, s);
  }

  lemma {:induction false} RemadeFolds(e: Expr, ks: seq<Expr>)
    requires WellTyped(e) && FitKids(e, ks) && (IsPlain(e) || e.Select?) && AllConstant(ks)
    ensures Remade(e, ks).Constant?
  {
    hide Rebuild;
    KidsWellTyped(e);
    var used := if AllConstant(Kids(e)) then Kids(e) else ks;
    if e.Select? {
      ChoiceFolds(e, used);
    } else {
      RebuildFolds(e, used);
    }
  }

  lemma {:induction false} ChoiceFolds(e: Expr, ks: seq<Expr>)
    requires WellTyped(e) && FitKids(e, ks) && e.Select? && AllConstant(ks)
    ensures Rebuild(e, ks).Constant?
  {
    assert ks[0].Constant? && ks[1].Constant? && ks[2].Constant?;
  }

  lemma {:induction false} EvaluateFolds(e: Expr, s: Assignment)
    requires WellTyped(e) && ValidSeed(s) && Covered(e, s)
    ensures Evaluate(e, s).Constant?
    decreases e
  {
    hide Remade, Eval, CoveredRead, EvalRead;
    match e
    case Constant(_, _) =>
    case Read(root, updates, index) =>
      EvaluateFolds(index, s);
      KnownIndex(index, s);
      EvalReadFolds(root, updates, Evaluate(index, s).value, s);
    case NotOptimized(src) => EvaluateFolds(src, s);
    case Select(c, t, f) =>
      EvaluateFolds(c, s);
      EvaluateFolds(t, s);
      EvaluateFolds(f, s);
      RemadeFolds(e, [Evaluate(c, s), Evaluate(t, s), Evaluate(f, s)]);
    case Concat(l, r) =>
      EvaluateFolds(l, s);
      EvaluateFolds(r, s);
      RemadeFolds(e, [Evaluate(l, s), Evaluate(r, s)]);
    case Extract(src, _, _) => EvaluateFolds(src, s); RemadeFolds(e, [Evaluate(src, s)]);
    case ZExt(src, _) => EvaluateFolds(src, s); RemadeFolds(e, [Evaluate(src, s)]);
    case SExt(src, _) => EvaluateFolds(src, s); RemadeFolds(e, [Evaluate(src, s)]);
    case Not(src) => EvaluateFolds(src, s); RemadeFolds(e, [Evaluate(src, s)]);
    case Binary(_, l, r) =>
      EvaluateFolds(l, s);
      EvaluateFolds(r, s);
      KnownIndex(r, s);
      RemadeFolds(e, [Evaluate(l, s), Divisor(e, r, Evaluate(r, s))]);
  }

  lemma {:induction false} KnownIndex(e: Expr, s: Assignment)
    requires WellTyped(e) && ValidSeed(s) && Evaluate(e, s).Constant?
    ensures Evaluate(e, s).value == Eval(e, s)
  {
    SelfAgrees(s);
    EvaluateValue(e, s, s);
  }

  lemma {:induction false} EvalReadFolds(root: Array, u: Updates, i: nat, s: Assignment)
    requires root.Valid() && UpdatesWellTyped(root, u) && i < Bits.Pow2(root.domain) && ValidSeed(s)
    requires CoveredRead(root, u, i, s)
    ensures EvalRead(root, u, i, s).Constant?
    decreases u
  {
    hide Covered, Eval;
    if u.Update? {
      EvaluateFolds(u.index, s);
      KnownIndex(u.index, s);
      if Evaluate(u.index, s).value == i {
        EvaluateFolds(u.value, s);
      } else {
        EvalReadFolds(root, u.next, i, s);
      }
    }
  }

  // --- Repair --------------------------------------------------------------------------------------

  /** The reads of single known bytes in an expression; updates are not searched. */
  function DirectReads(e: Expr): (rs: set<(Array, nat)>)
    decreases e
  {
    match e
    case Constant(_, _) => {}
    case Read(root, _, index) => if index.Constant? then {(root, index.value)} else DirectReads(index)
    case NotOptimized(src) => DirectReads(src)
    case Select(c, t, f) => DirectReads(c) + DirectReads(t) + DirectReads(f)
    case Concat(l, r) => DirectReads(l) + DirectReads(r)
    case Extract(src, _, _) => DirectReads(src)
    case ZExt(src, _) => DirectReads(src)
    case SExt(src, _) => DirectReads(src)
    case Not(src) => DirectReads(src)
    case Binary(_, l, r) => DirectReads(l) + DirectReads(r)
  }

  /** A way down from e through operands. */
  predicate Descends(path: seq<Expr>, e: Expr) {
    path != [] && path[0] == e && forall i :: 0 <= i < |path| - 1 ==> path[i + 1] in Kids(path[i])
  }

  predicate ReadsByte(e: Expr, p: (Array, nat)) {
    e.Read? && e.root == p.0 && e.index.Constant? && e.index.value == p.1
  }

  /** They are the reads at constants that can be reached so. */
  lemma {:induction false} DirectReadsExactly(e: Expr, p: (Array, nat))
    ensures p in DirectReads(e) <==> exists path :: Descends(path, e) && ReadsByte(path[|path| - 1], p)
  {
    if p in DirectReads(e) {
      var path := WayToRead(e, p);
    }
    if path :| Descends(path, e) && ReadsByte(path[|path| - 1], p) {
      ReadOnWay(path, e, p);
    }
  }

  lemma {:induction false} DirectKids(e: Expr, p: (Array, nat))
    ensures p in DirectReads(e) <==>
              ReadsByte(e, p) || exists i :: 0 <= i < |Kids(e)| && p in DirectReads(Kids(e)[i])
    ensures forall k :: k in Kids(e) ==> Size(k) < Size(e)
  {
    var ks := Kids(e);
    assert 0 < |ks| ==> DirectReads(ks[0]) <= DirectReads(e);
    assert 1 < |ks| ==> DirectReads(ks[1]) <= DirectReads(e);
    assert 2 < |ks| ==> DirectReads(ks[2]) <= DirectReads(e);
  }

  lemma {:induction false} WayToRead(e: Expr, p: (Array, nat)) returns (path: seq<Expr>)
    requires p in DirectReads(e)
    ensures Descends(path, e) && ReadsByte(path[|path| - 1], p)
    decreases Size(e)
  {
    hide DirectReads;
    DirectKids(e, p);
    if ReadsByte(e, p) {
      path := [e];
    } else {
      var i :| 0 <= i < |Kids(e)| && p in DirectReads(Kids(e)[i]);
      var rest := WayToRead(Kids(e)[i], p);
      path := [e] + rest;
      forall j | 0 <= j < |path| - 1 ensures path[j + 1] in Kids(path[j]) {
        assert j > 0 ==> path[j] == rest[j - 1] && path[j + 1] == rest[j];
      }
    }
  }

  lemma {:induction false} ReadOnWay(path: seq<Expr>, e: Expr, p: (Array, nat))
    requires Descends(path, e) && ReadsByte(path[|path| - 1], p)
    ensures p in DirectReads(e)
    decreases |path|
  {
    hide DirectReads;
    DirectKids(e, p);
    if 1 < |path| {
      var rest := path[1..];
      assert path[0 + 1] in Kids(path[0]);
      var i :| 0 <= i < |Kids(e)| && Kids(e)[i] == path[1];
      forall j | 0 <= j < |rest| - 1 ensures rest[j + 1] in Kids(rest[j]) {
        assert path[j + 1 + 1] in Kids(path[j + 1]);
      }
      ReadOnWay(rest, path[1], p);
    }
  }

  function ByteRead(root: Array, i: nat): (e: Expr)
    requires ByteArray(root) && i < Bits.Pow2(INDEX_WIDTH)
    ensures WellTyped(e) && Width(e) == BYTE_WIDTH
  {
    ReadCreate(root, NoUpdate, Constant(i, INDEX_WIDTH))
  }

  /** The condition that a byte has a value. */
  function ByteIs(root: Array, i: nat, v: nat): (e: Expr)
    requires ByteArray(root) && i < Bits.Pow2(INDEX_WIDTH) && v < Bits.Pow2(BYTE_WIDTH)
    ensures IsBool(e)
  {
    EqCreate(ByteRead(root, i), Constant(v, BYTE_WIDTH))
  }

  lemma {:induction false} ByteIsValue(root: Array, i: nat, v: nat, a: Assignment)
    requires ByteArray(root) && i < Bits.Pow2(INDEX_WIDTH) && v < Bits.Pow2(BYTE_WIDTH)
    ensures Eval(ByteRead(root, i), a) == InitialValue(root, i, a) < Bits.Pow2(BYTE_WIDTH)
    ensures Holds(ByteIs(root, i, v), a) <==> InitialValue(root, i, a) == v
  {
    ReadCreateValue(root, NoUpdate, Constant(i, INDEX_WIDTH), a);
    EvalBound(ByteRead(root, i), a);
    EqValue(ByteRead(root, i), Constant(v, BYTE_WIDTH), a);
  }

  /** Some input meets the conditions and has the byte. */
  ghost predicate BytePossible(cs: seq<Expr>, root: Array, i: nat, v: nat) {
    exists a :: Satisfies(cs, a) && InitialValue(root, i, a) == v
  }

  /** The conditions and one more byte. */
  ghost predicate ByteFixed(after: seq<Expr>, before: seq<Expr>, root: Array, i: nat, v: nat) {
    forall a :: Satisfies(after, a) <==> Satisfies(before, a) && InitialValue(root, i, a) == v
  }

  /** Some input meets the constraints and, with the seed's bytes filled in, the condition. */
  ghost predicate MayHold(cs: seq<Expr>, condition: Expr, s: Assignment)
    requires WellTyped(condition) && ValidSeed(s)
  {
    Possible(cs, Evaluate(condition, s))
  }

  /** Every input that meets the scratch constraints has the seed's value at these bytes. */
  ghost predicate FixedBytes(cs: seq<Expr>, s: Assignment, fixed: set<(Array, nat)>) {
    forall p :: p in fixed ==> ByteSettled(cs, s, p.0, p.1)
  }

  ghost predicate ByteSettled(cs: seq<Expr>, s: Assignment, root: Array, i: nat) {
    && root in s.bindings && i < |s.bindings[root]|
    && forall a :: Satisfies(cs, a) ==> InitialValue(root, i, a) == s.bindings[root][i]
  }

  /** The input meets the constraints and the condition. */
  ghost predicate Wanted(required: seq<Expr>, condition: Expr, a: Assignment) {
    Satisfies(required, a) && Holds(condition, a)
  }

  /** A condition that may hold under a seed with all its bytes does hold. */
  lemma {:induction false} MayBecomesDoes(cs: seq<Expr>, condition: Expr, s: Assignment)
    requires IsBool(condition) && ValidSeed(s)
    ensures MayHold(cs, condition, s) && Covered(condition, s) ==> Holds(condition, s)
  {
    hide Evaluate, Covered;
    if Covered(condition, s) {
      EvaluateFills(condition, s);
    }
  }

  /** The seeds differ in these bytes at most. */
  ghost predicate OnlyAt(s: Assignment, was: Assignment, bytes: set<(Array, nat)>) {
    && s.bindings.Keys == was.bindings.Keys
    && forall root :: root in was.bindings ==>
         && |s.bindings[root]| == |was.bindings[root]|
         && forall i :: 0 <= i < |was.bindings[root]| && s.bindings[root][i] != was.bindings[root][i] ==>
              (root, i) in bytes
  }

  lemma {:induction false} OnlyAtMore(now: Assignment, s: Assignment, was: Assignment, bytes: set<(Array, nat)>,
                                      more: set<(Array, nat)>)
    requires OnlyAt(now, s, bytes) && OnlyAt(s, was, more) && bytes <= more
    ensures OnlyAt(now, was, more)
  {
  }

  /** Where the repair stands: the scratch constraints are satisfiable, imply what is wanted
      and have fixed some bytes, and a seed that some wanted input has is left alone. */
  ghost predicate Patching(cs: seq<Expr>, required: seq<Expr>, condition: Expr, was: Assignment, s: Assignment,
                           fixed: set<(Array, nat)>)
  {
    && AllBool(cs) && Satisfiable(cs) && ValidSeed(s) && s.bindings.Keys == was.bindings.Keys
    && (forall a :: Satisfies(cs, a) ==> Wanted(required, condition, a))
    && FixedBytes(cs, s, fixed)
    && (forall w :: Wanted(required, condition, w) && Agrees(w, was) ==> s == was && Satisfies(cs, w))
  }

  lemma {:induction false} PatchStep(cs: seq<Expr>, after: seq<Expr>, required: seq<Expr>, condition: Expr,
                                     was: Assignment,
                                     s: Assignment, now: Assignment, fixed: set<(Array, nat)>, root: Array, i: nat)
    requires Patching(cs, required, condition, was, s, fixed) && root in s.bindings && i < root.size
    requires AllBool(after) && Satisfiable(after) && ValidSeed(now) && root in now.bindings
    requires now.bindings == s.bindings[root := s.bindings[root][i := now.bindings[root][i]]]
    requires ByteFixed(after, cs, root, i, now.bindings[root][i])
    requires now.bindings[root][i] != s.bindings[root][i] <==> !BytePossible(cs, root, i, s.bindings[root][i])
    ensures Patching(after, required, condition, was, now, fixed + {(root, i)})
  {
    hide Satisfies, InitialValue, Holds, AllBool, Wanted;
    forall p | p in fixed + {(root, i)} ensures ByteSettled(after, now, p.0, p.1) {
      if p in fixed && p != (root, i) {
        assert ByteSettled(cs, s, p.0, p.1);
      }
    }
    forall w | Wanted(required, condition, w) && Agrees(w, was) ensures now == was && Satisfies(after, w) {
      assert InitialValue(root, i, w) == s.bindings[root][i];
      assert BytePossible(cs, root, i, s.bindings[root][i]);
      assert s.bindings[root][i := s.bindings[root][i]] == s.bindings[root];
      assert now.bindings == s.bindings;
    }
  }

  /** With all bytes fixed the condition may hold under the seed. */
  lemma {:induction false} AllFixed(cs: seq<Expr>, required: seq<Expr>, condition: Expr, was: Assignment, s: Assignment,
                                    fixed: set<(Array, nat)>)
    requires Patching(cs, required, condition, was, s, fixed) && IsBool(condition)
    requires forall root: Array, i: nat :: root in s.bindings && i < root.size ==> (root, i) in fixed
    ensures MayHold(required, condition, s)
  {
    hide InitialValue, Eval, AllBool;
    var a :| Satisfies(cs, a);
    assert Wanted(required, condition, a);
    forall root, i | root in s.bindings && 0 <= i < |s.bindings[root]|
      ensures InitialValue(root, i, a) == s.bindings[root][i]
    {
      assert (root, i) in fixed && ByteSettled(cs, s, (root, i).0, (root, i).1);
    }
    EvaluateValue(condition, s, a);
  }

  class SeedInfo {
    var assignment: Assignment

    constructor (assignment: Assignment)
      ensures this.assignment == assignment
    {
      this.assignment := assignment;
    }

    /** Fixes one byte in the scratch constraints: to the seed's value if that is possible,
        and otherwise to a possible one, which replaces it in the seed. */
    method FixByte(tmp: ConstraintManager, solver: Solver, root: Array, i: nat)
      requires tmp.Valid() && Satisfiable(tmp.constraints) && Exact(solver)
      requires ValidSeed(assignment) && root in assignment.bindings && i < root.size
      modifies this, tmp
      ensures tmp.Valid() && Satisfiable(tmp.constraints) && ValidSeed(assignment)
      ensures root in assignment.bindings && assignment.bindings
           == old(assignment).bindings[root := old(assignment).bindings[root][i := assignment.bindings[root][i]]]
      ensures ByteFixed(tmp.constraints, old(tmp.constraints), root, i, assignment.bindings[root][i])
      ensures assignment.bindings[root][i] != old(assignment).bindings[root][i] <==>
                !BytePossible(old(tmp.constraints), root, i, old(assignment).bindings[root][i])
    {
      hide Satisfies, Eval, InitialValue, EqCreate, ReadCreate;
      ghost var cs := tmp.constraints;
      var bytes := assignment.bindings[root];
      var v := bytes[i];
      ByteQueries(cs, root, i, v);
      if !solver.mayBeTrue(tmp.constraints, ByteIs(root, i, v)) {
        var value := solver.getValue(tmp.constraints, ByteRead(root, i));
        ByteQueries(cs, root, i, value);
        v := value;
        assignment := Assignment(assignment.bindings[root := bytes[i := v]]);
      } else {
        assert bytes[i := v] == bytes && assignment.bindings[root := bytes] == assignment.bindings;
      }
      AddByte(cs, root, i, v);
      var ok := tmp.AddConstraint(ByteIs(root, i, v));
      ByteAdded(cs, tmp.constraints, root, i, v);
    }

    method PatchByte(tmp: ConstraintManager, solver: Solver, root: Array, i: nat, ghost required: seq<Expr>,
                     ghost condition: Expr, ghost was: Assignment, ghost fixed: set<(Array, nat)>)
      requires tmp.Valid() && Exact(solver) && root in assignment.bindings && i < root.size
      requires Patching(tmp.constraints, required, condition, was, assignment, fixed)
      modifies this, tmp
      ensures tmp.Valid() && Patching(tmp.constraints, required, condition, was, assignment, fixed + {(root, i)})
      ensures OnlyAt(assignment, old(assignment), {(root, i)})
    {
      ghost var cs, s := tmp.constraints, assignment;
      FixByte(tmp, solver, root, i);
      PatchStep(cs, tmp.constraints, required, condition, was, s, assignment, fixed, root, i);
    }

    /** Repairs the bytes that the condition reads directly and, if that is not enough, all. The
        condition may then hold, and it does if the seed holds all it reads. */
    method PatchSeed(required: seq<Expr>, condition: Expr, solver: Solver, rewriteEqualities: bool)
      returns (ghost middle: Assignment)
      requires AllBool(required) && IsBool(condition) && Possible(required, condition)
      requires Exact(solver) && ValidSeed(assignment)
      requires forall p :: p in DirectReads(condition) && p.0 in assignment.bindings ==> p.1 < p.0.size
      modifies this
      ensures ValidSeed(assignment) && assignment.bindings.Keys == old(assignment).bindings.Keys
      ensures MayHold(required, condition, assignment)
      ensures Covered(condition, assignment) ==> Holds(condition, assignment)
      ensures ValidSeed(middle) && OnlyAt(middle, old(assignment), DirectReads(condition))
      ensures MayHold(required, condition, middle) ==> assignment == middle
      ensures (exists w :: Wanted(required, condition, w) && Agrees(w, old(assignment))) ==>
                assignment == old(assignment)
    {
      hide Satisfies, Holds, InitialValue, Agrees, FixedBytes, Possible;
      ghost var was := assignment;
      var tmp := Scratch(required, condition, rewriteEqualities, assignment);
      ghost var fixed: set<(Array, nat)> := {};
      var direct := DirectReads(condition);
      while direct != {}
        invariant direct <= DirectReads(condition) && tmp.Valid() && fresh(tmp)
        invariant Patching(tmp.constraints, required, condition, was, assignment, fixed)
        invariant OnlyAt(assignment, was, DirectReads(condition))
        decreases direct
      {
        var p :| p in direct;
        direct := direct - {p};
        if p.0 in assignment.bindings {
          ghost var s := assignment;
          PatchByte(tmp, solver, p.0, p.1, required, condition, was, fixed);
          assert (p.0, p.1) == p;
          OnlyAtMore(assignment, s, was, {p}, DirectReads(condition));
          fixed := fixed + {p};
        }
      }
      StillFeasible(required, tmp.constraints, condition, was, assignment, fixed);
      middle := assignment;
      MayBecomesDoes(required, condition, assignment);
      if solver.mayBeTrue(required, Evaluate(condition, assignment)) {
        return;
      }
      fixed := PatchAll(tmp, solver, required, condition, was, fixed);
      AllFixed(tmp.constraints, required, condition, was, assignment, fixed);
      MayBecomesDoes(required, condition, assignment);
    }

    /** The scratch constraints before any byte is fixed. */
    method Scratch(required: seq<Expr>, condition: Expr, rewriteEqualities: bool, s: Assignment)
      returns (tmp: ConstraintManager)
      requires AllBool(required) && IsBool(condition) && Possible(required, condition) && ValidSeed(s)
      ensures fresh(tmp) && tmp.Valid() && Patching(tmp.constraints, required, condition, s, s, {})
    {
      hide Holds, InitialValue, Agrees;
      tmp := new ConstraintManager(required, rewriteEqualities);
      ghost var w :| Satisfies(required, w) && Holds(condition, w);
      SatisfiesPush(required, condition, w);
      var ok := tmp.AddConstraint(condition);
      assert Satisfies(tmp.constraints, w);
    }

    /** Fixes every byte of every array. */
    method PatchAll(tmp: ConstraintManager, solver: Solver, ghost required: seq<Expr>, ghost condition: Expr,
                    ghost was: Assignment, ghost before: set<(Array, nat)>)
      returns (ghost fixed: set<(Array, nat)>)
      requires tmp.Valid() && Exact(solver) && Patching(tmp.constraints, required, condition, was, assignment, before)
      modifies this, tmp
      ensures tmp.Valid() && Patching(tmp.constraints, required, condition, was, assignment, fixed)
      ensures forall root: Array, i: nat :: root in assignment.bindings && i < root.size ==> (root, i) in fixed
    {
      hide Satisfies, Holds, InitialValue, Agrees, FixedBytes;
      fixed := before;
      var todo := assignment.bindings.Keys;
      while todo != {}
        invariant todo <= assignment.bindings.Keys && tmp.Valid()
        invariant Patching(tmp.constraints, required, condition, was, assignment, fixed)
        invariant forall root: Array, i: nat :: root in assignment.bindings && root !in todo && i < root.size ==>
                    (root, i) in fixed
        decreases todo
      {
        var root :| root in todo;
        ghost var earlier := fixed;
        for i := 0 to root.size
          invariant tmp.Valid() && root in assignment.bindings && earlier <= fixed
          invariant Patching(tmp.constraints, required, condition, was, assignment, fixed)
          invariant forall j: nat :: j < i ==> (root, j) in fixed
        {
          PatchByte(tmp, solver, root, i, required, condition, was, fixed);
          fixed := fixed + {(root, i)};
        }
        todo := todo - {root};
      }
    }
  }

  lemma {:induction false} StillFeasible(required: seq<Expr>, cs: seq<Expr>, condition: Expr, was: Assignment,
                                         s: Assignment,
                                         fixed: set<(Array, nat)>)
    requires Patching(cs, required, condition, was, s, fixed)
    ensures Satisfiable(required) && ValidSeed(s) && s.bindings.Keys == was.bindings.Keys
    ensures (exists w :: Wanted(required, condition, w) && Agrees(w, was)) ==> s == was
  {
    var a :| Satisfies(cs, a);
    assert Wanted(required, condition, a);
  }

  lemma {:induction false} ByteQueries(cs: seq<Expr>, root: Array, i: nat, v: nat)
    requires ByteArray(root) && i < root.size
    ensures i < Bits.Pow2(INDEX_WIDTH)
    ensures PossibleValue(cs, ByteRead(root, i), v) ==> v < Bits.Pow2(BYTE_WIDTH)
    ensures v < Bits.Pow2(BYTE_WIDTH) ==> (Possible(cs, ByteIs(root, i, v)) <==> BytePossible(cs, root, i, v))
    ensures v < Bits.Pow2(BYTE_WIDTH) ==> (PossibleValue(cs, ByteRead(root, i), v) <==> BytePossible(cs, root, i, v))
  {
    hide Satisfies, EqCreate, ReadCreate, InitialValue;
    forall a ensures Eval(ByteRead(root, i), a) == InitialValue(root, i, a) < Bits.Pow2(BYTE_WIDTH)
             ensures v < Bits.Pow2(BYTE_WIDTH) ==> (Holds(ByteIs(root, i, v), a) <==> InitialValue(root, i, a) == v) {
      if v < Bits.Pow2(BYTE_WIDTH) {
        ByteIsValue(root, i, v, a);
      } else {
        Bits.Pow2Widths();
        ByteIsValue(root, i, 0, a);
      }
    }
  }

  lemma {:induction false} AddByte(cs: seq<Expr>, root: Array, i: nat, v: nat)
    requires ByteArray(root) && i < root.size && v < Bits.Pow2(BYTE_WIDTH) && BytePossible(cs, root, i, v)
    ensures i < Bits.Pow2(INDEX_WIDTH) && Satisfiable(cs + [ByteIs(root, i, v)])
  {
    hide EqCreate, ReadCreate, InitialValue;
    var a :| Satisfies(cs, a) && InitialValue(root, i, a) == v;
    ByteIsValue(root, i, v, a);
    SatisfiesPush(cs, ByteIs(root, i, v), a);
  }

  lemma {:induction false} ByteAdded(cs: seq<Expr>, after: seq<Expr>, root: Array, i: nat, v: nat)
    requires ByteArray(root) && i < root.size && v < Bits.Pow2(BYTE_WIDTH) && BytePossible(cs, root, i, v)
    requires i < Bits.Pow2(INDEX_WIDTH) && Extends(after, cs, ByteIs(root, i, v))
    ensures ByteFixed(after, cs, root, i, v) && Satisfiable(after)
  {
    hide EqCreate, ReadCreate, InitialValue, Satisfies;
    forall a ensures Satisfies(after, a) <==> Satisfies(cs, a) && InitialValue(root, i, a) == v {
      ByteIsValue(root, i, v, a);
    }
  }
}
