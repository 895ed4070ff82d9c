/** Expression visitors that replace known subterms by constants and rebuild everything
    above them with the constructors. */
module Visitors {
  import Bits
  import opened Exprs
  import opened Slices
  import opened Booleans
  import opened Constructors

  // --- Kids and rebuilding ------------------------------------------------------------------

  /** The operands a visitor descends into; the updates below a read are not among them. */
  function Kids(e: Expr): (ks: seq<Expr>)
    ensures |ks| <= 3
  {
    match e
    case Constant(_, _) => []
    case NotOptimized(src) => [src]
    case Read(_, _, index) => [index]
    case Select(c, t, f) => [c, t, f]
    case Concat(l, r) => [l, r]
    case Extract(src, _, _) => [src]
    case ZExt(src, _) => [src]
    case SExt(src, _) => [src]
    case Not(src) => [src]
    case Binary(_, l, r) => [l, r]
  }

  /** Replacement operands of the right number and types. */
  predicate FitKids(e: Expr, ks: seq<Expr>) {
    && |ks| == |Kids(e)|
    && forall i :: 0 <= i < |ks| ==> WellTyped(ks[i]) && Width(ks[i]) == Width(Kids(e)[i])
  }

  /** The same node over other operands, without simplification. */
  function WithKids(e: Expr, ks: seq<Expr>): (r: Expr)
    requires |ks| == |Kids(e)|
  {
    match e
    case Constant(_, _) => e
    case NotOptimized(_) => NotOptimized(ks[0])
    case Read(root, updates, _) => Read(root, updates, ks[0])
    case Select(_, _, _) => Select(ks[0], ks[1], ks[2])
    case Concat(_, _) => Concat(ks[0], ks[1])
    case Extract(_, off, bits) => Extract(ks[0], off, bits)
    case ZExt(_, bits) => ZExt(ks[0], bits)
    case SExt(_, bits) => SExt(ks[0], bits)
    case Not(_) => Not(ks[0])
    case Binary(op, _, _) => Binary(op, ks[0], ks[1])
  }

  /** The node's constructor applied to other operands. */
  function Rebuild(e: Expr, ks: seq<Expr>): (r: Expr)
    requires WellTyped(e) && FitKids(e, ks)
    ensures WellTyped(r) && Width(r) == Width(e)
    ensures Weight(r) <= Weight(WithKids(e, ks))
  {
    match e
    case Constant(_, _) => e
    case NotOptimized(_) => NotOptimized(ks[0])
    case Read(root, updates, _) => ReadCreate(root, updates, ks[0])
    case Select(_, _, _) => SelectCreate(ks[0], ks[1], ks[2])
    case Concat(_, _) => ConcatCreate(ks[0], ks[1])
    case Extract(_, off, bits) => ExtractCreate(ks[0], off, bits)
    case ZExt(_, bits) => PositiveWidth(e); ZExtCreate(ks[0], bits)
    case SExt(_, bits) => PositiveWidth(e); SExtCreate(ks[0], bits)
    case Not(_) => NotCreate(ks[0])
    case Binary(op, _, _) => BinaryCreate(op, ks[0], ks[1])
  }

  lemma {:induction false} KidsWellTyped(e: Expr)
    requires WellTyped(e)
    ensures FitKids(e, Kids(e)) && WithKids(e, Kids(e)) == e
    ensures forall i :: 0 <= i < |Kids(e)| ==> Weight(Kids(e)[i]) < Weight(e)
  {
  }

  lemma {:induction false} WeightMonotone(e: Expr, ks: seq<Expr>)
    requires |ks| == |Kids(e)|
    requires forall i :: 0 <= i < |ks| ==> Weight(ks[i]) <= Weight(Kids(e)[i])
    ensures Weight(WithKids(e, ks)) <= Weight(e)
    ensures forall i :: 0 <= i < |ks| && Weight(ks[i]) < Weight(Kids(e)[i]) ==> Weight(WithKids(e, ks)) < Weight(e)
  {
  }

  /** A node's value is determined by its operands' values. */
  lemma {:induction false} Congruence(e: Expr, ks: seq<Expr>, a: Assignment)
    requires FitKids(e, ks)
    requires forall i :: 0 <= i < |ks| ==> Eval(ks[i], a) == Eval(Kids(e)[i], a)
    ensures Eval(WithKids(e, ks), a) == Eval(e, a)
  {
    match e
    case Constant(_, _) =>
    case NotOptimized(_) => assert Eval(ks[0], a) == Eval(e.src, a);
    case Read(_, _, _) => assert Eval(ks[0], a) == Eval(e.index, a);
    case Select(_, _, _) =>
      assert Eval(ks[0], a) == Eval(e.cond, a);
      assert Eval(ks[1], a) == Eval(e.onTrue, a);
      assert Eval(ks[2], a) == Eval(e.onFalse, a);
    case Concat(_, _) =>
      assert Eval(ks[0], a) == Eval(e.left, a);
      assert Eval(ks[1], a) == Eval(e.right, a) && Width(ks[1]) == Width(e.right);
    case Extract(_, _, _) => assert Eval(ks[0], a) == Eval(e.src, a);
    case ZExt(_, _) => assert Eval(ks[0], a) == Eval(e.src, a);
    case SExt(_, _) => assert Eval(ks[0], a) == Eval(e.src, a) && Width(ks[0]) == Width(e.src);
    case Not(_) => assert Eval(ks[0], a) == Eval(e.src, a) && Width(ks[0]) == Width(e.src);
    case Binary(_, _, _) =>
      assert Eval(ks[0], a) == Eval(e.left, a) && Width(ks[0]) == Width(e.left);
      assert Eval(ks[1], a) == Eval(e.right, a);
  }

  /** Simplifying constructors give the node its plain value. */
  lemma {:induction false} RebuildValue(e: Expr, ks: seq<Expr>, a: Assignment)
    requires WellTyped(e) && FitKids(e, ks)
    ensures Eval(Rebuild(e, ks), a) == Eval(WithKids(e, ks), a)
  {
    match e
    case Constant(_, _) =>
    case NotOptimized(_) =>
    case Read(root, updates, _) => ReadCreateValue(root, updates, ks[0], a);
    case Select(_, _, _) => SelectValue(ks[0], ks[1], ks[2], a);
    case Concat(_, _) => ConcatValue(ks[0], ks[1], a);
    case Extract(_, off, bits) => ExtractValue(ks[0], off, bits, a);
    case ZExt(_, bits) => RebuildZExtValue(e, ks[0], a);
    case SExt(_, bits) => RebuildSExtValue(e, ks[0], a);
    case Not(_) =>
    case Binary(op, _, _) => BinaryCreateValue(op, ks[0], ks[1], a);
  }

  lemma {:induction false} RebuildZExtValue(e: Expr, k: Expr, a: Assignment)
    requires WellTyped(e) && e.ZExt? && WellTyped(k) && Width(k) == Width(e.src)
    ensures 0 < e.bits && Eval(ZExtCreate(k, e.bits), a) == Eval(k, a)
  {
    PositiveWidth(e);
    ZExtValue(k, e.bits, a);
    EvalBound(ZExt(k, e.bits), a);
    Bits.TruncWhole(Eval(k, a), e.bits);
  }

  lemma {:induction false} RebuildSExtValue(e: Expr, k: Expr, a: Assignment)
    requires WellTyped(e) && e.SExt? && WellTyped(k) && Width(k) == Width(e.src)
    ensures 0 < e.bits && Eval(SExtCreate(k, e.bits), a) == Eval(SExt(k, e.bits), a)
  {
    PositiveWidth(e);
    SExtValue(k, e.bits, a);
  }

  // --- Visitors -------------------------------------------------------------------------------

  /** A visitor that replaces terms by the constants they are known to equal: on the way
      down when `onEntry`, always on the way up, and visiting what it rebuilt once more when
      `again`. */
  datatype Visitor = Visitor(known: map<Expr, Expr>, onEntry: bool, again: bool) {
    ghost predicate Valid() {
      forall k :: k in known ==> Operands(k, known[k]) && known[k].Constant?
    }

    /** The known equalities hold under the assignment. */
    ghost predicate Agrees(a: Assignment) {
      forall k :: k in known ==> Eval(k, a) == Eval(known[k], a)
    }

    function Replace(e: Expr): (r: Expr) {
      if !e.Constant? && e in known then known[e] else e
    }
  }

  /** ExprReplaceVisitor: one term by one constant, in a single pass. */
  function ReplaceOne(src: Expr, dst: Expr): Visitor {
    Visitor(map[src := dst], true, false)
  }

  /** ExprReplaceVisitor2: many terms at once, until nothing changes. */
  function ReplaceMany(known: map<Expr, Expr>): Visitor {
    Visitor(known, false, true)
  }

  /** New operands of the same types, none of them heavier, and lighter where they differ. */
  predicate Lighter(ks: seq<Expr>, rs: seq<Expr>) {
    && |rs| == |ks|
    && forall i :: 0 <= i < |ks| ==>
         && WellTyped(rs[i]) && Width(rs[i]) == Width(ks[i])
         && (rs[i] == ks[i] || Weight(rs[i]) < Weight(ks[i]))
  }

  lemma {:induction false} RebuildLighter(e: Expr, rs: seq<Expr>)
    requires WellTyped(e) && Lighter(Kids(e), rs) && rs != Kids(e)
    ensures FitKids(e, rs) && Weight(Rebuild(e, rs)) < Weight(e)
  {
    var i :| 0 <= i < |rs| && rs[i] != Kids(e)[i];
    WeightMonotone(e, rs);
  }

  lemma {:induction false} ReplaceFits(v: Visitor, e: Expr)
    requires v.Valid() && WellTyped(e)
    ensures WellTyped(v.Replace(e)) && Width(v.Replace(e)) == Width(e)
    ensures v.Replace(e) == e || Weight(v.Replace(e)) < Weight(e)
    ensures forall a :: v.Agrees(a) ==> Eval(v.Replace(e), a) == Eval(e, a)
  {
  }

  function Visit(v: Visitor, e: Expr): (r: Expr)
    requires v.Valid() && WellTyped(e)
    ensures WellTyped(r) && Width(r) == Width(e)
    ensures r == e || Weight(r) < Weight(e)
    decreases Weight(e), 1
  {
    ReplaceFits(v, e);
    if e.Constant? then e
    else if v.onEntry && e in v.known then v.Replace(e)
    else
      KidsWellTyped(e);
      var ks := VisitAll(v, Kids(e), Weight(e));
      if ks == Kids(e) then v.Replace(e)
      else
        RebuildLighter(e, ks);
        var rebuilt := Rebuild(e, ks);
        var revisited := if v.again then Visit(v, rebuilt) else rebuilt;
        ReplaceFits(v, revisited);
        v.Replace(revisited)
  }

  function VisitAll(v: Visitor, ks: seq<Expr>, ghost bound: nat): (rs: seq<Expr>)
    requires v.Valid()
    requires forall i :: 0 <= i < |ks| ==> WellTyped(ks[i]) && Weight(ks[i]) < bound
    ensures |rs| == |ks|
    ensures forall i :: 0 <= i < |ks| ==> rs[i] == Visit(v, ks[i])
    ensures Lighter(ks, rs)
    decreases bound, 0, |ks|
  {
    if ks == [] then [] else [Visit(v, ks[0])] + VisitAll(v, ks[1..], bound)
  }

  /** Visiting keeps the value wherever the known equalities hold. */
  lemma {:induction false} VisitValue(v: Visitor, e: Expr, a: Assignment)
    requires v.Valid() && v.Agrees(a) && WellTyped(e)
    ensures Eval(Visit(v, e), a) == Eval(e, a)
    decreases Weight(e), 1
  {
    ReplaceFits(v, e);
    if !e.Constant? && !(v.onEntry && e in v.known) {
      KidsWellTyped(e);
      if VisitAll(v, Kids(e), Weight(e)) != Kids(e) {
        VisitChangedValue(v, e, a);
      }
    }
  }

  lemma {:induction false} VisitChangedValue(v: Visitor, e: Expr, a: Assignment)
    requires v.Valid() && v.Agrees(a) && WellTyped(e) && !e.Constant? && !(v.onEntry && e in v.known)
    requires FitKids(e, Kids(e)) && forall i :: 0 <= i < |Kids(e)| ==> Weight(Kids(e)[i]) < Weight(e)
    requires VisitAll(v, Kids(e), Weight(e)) != Kids(e)
    ensures Eval(Visit(v, e), a) == Eval(e, a)
    decreases Weight(e), 0
  {
    var ks := VisitAll(v, Kids(e), Weight(e));
    forall i | 0 <= i < |ks| ensures Eval(ks[i], a) == Eval(Kids(e)[i], a) {
      VisitValue(v, Kids(e)[i], a);
    }
    RebuildLighter(e, ks);
    var rebuilt := Rebuild(e, ks);
    Congruence(e, ks, a);
    RebuildValue(e, ks, a);
    if v.again {
      VisitValue(v, rebuilt, a);
    }
    ReplaceFits(v, if v.again then Visit(v, rebuilt) else rebuilt);
  }

  /** No term with a known value is left anywhere a visitor would look. */
  predicate Settled(v: Visitor, e: Expr)
    decreases Weight(e)
  {
    e.Constant? ||
    (e !in v.known
     && forall i :: 0 <= i < |Kids(e)| ==> Weight(Kids(e)[i]) < Weight(e) && Settled(v, Kids(e)[i]))
  }

  /** A repeating visitor finishes the job: nothing replaceable is left. */
  lemma {:induction false} VisitSettles(v: Visitor, e: Expr)
    requires v.Valid() && WellTyped(e) && v.again
    ensures Settled(v, Visit(v, e))
    decreases Weight(e), 1
  {
    if !e.Constant? && !(v.onEntry && e in v.known) {
      KidsWellTyped(e);
      var ks := VisitAll(v, Kids(e), Weight(e));
      if ks == Kids(e) {
        VisitUnchangedSettles(v, e);
      } else {
        RebuildLighter(e, ks);
        VisitSettles(v, Rebuild(e, ks));
      }
    }
  }

  lemma {:induction false} VisitUnchangedSettles(v: Visitor, e: Expr)
    requires v.Valid() && WellTyped(e) && v.again && !e.Constant?
    requires FitKids(e, Kids(e)) && forall i :: 0 <= i < |Kids(e)| ==> Weight(Kids(e)[i]) < Weight(e)
    requires VisitAll(v, Kids(e), Weight(e)) == Kids(e)
    ensures Settled(v, v.Replace(e))
    decreases Weight(e), 0
  {
    forall i | 0 <= i < |Kids(e)| ensures Settled(v, Kids(e)[i]) {
      VisitSettles(v, Kids(e)[i]);
    }
  }

  /** On a settled term every visitor is the identity. */
  lemma {:induction false} SettledFixed(v: Visitor, e: Expr)
    requires v.Valid() && WellTyped(e) && Settled(v, e)
    ensures Visit(v, e) == e
    decreases Weight(e)
  {
    if !e.Constant? {
      KidsWellTyped(e);
      forall i | 0 <= i < |Kids(e)| ensures Visit(v, Kids(e)[i]) == Kids(e)[i] {
        SettledFixed(v, Kids(e)[i]);
      }
      assert VisitAll(v, Kids(e), Weight(e)) == Kids(e);
    }
  }

  /** A visitor, repeating or not, changes everything else: a term stays as it is exactly if
      nothing in it is known. */
  lemma {:induction false} UnchangedSettled(v: Visitor, e: Expr)
    requires v.Valid() && WellTyped(e)
    ensures Visit(v, e) == e <==> Settled(v, e)
    decreases Weight(e)
  {
    if Settled(v, e) {
      SettledFixed(v, e);
    } else if Visit(v, e) == e {
      KidsWellTyped(e);
      var ks := VisitAll(v, Kids(e), Weight(e));
      if ks == Kids(e) {
        forall i | 0 <= i < |Kids(e)| ensures Settled(v, Kids(e)[i]) {
          UnchangedSettled(v, Kids(e)[i]);
        }
      } else {
        ChangedLighter(v, e, ks);
      }
    }
  }

  lemma {:induction false} ChangedLighter(v: Visitor, e: Expr, ks: seq<Expr>)
    requires v.Valid() && WellTyped(e) && !e.Constant? && !(v.onEntry && e in v.known)
    requires FitKids(e, Kids(e)) && forall i :: 0 <= i < |Kids(e)| ==> Weight(Kids(e)[i]) < Weight(e)
    requires ks == VisitAll(v, Kids(e), Weight(e)) && ks != Kids(e)
    ensures Visit(v, e) != e
  {
    RebuildLighter(e, ks);
  }
}
