/** Constants fold: a node over constants becomes a constant, so a term that reads nothing is
    built as the constant of its value. */
module Folding {
  import opened Exprs
  import opened Slices
  import opened Booleans
  import opened LinearForms
  import opened Constructors
  import opened Visitors
  import opened BuiltTerms

  lemma {:induction false} BinaryFolds(op: BinOp, l: Expr, r: Expr)
    requires Operands(l, r) && l.Constant? && r.Constant?
    ensures BinaryCreate(op, l, r).Constant?
  {
    if IsCompare(op) {
      CompareFolds(op, l, r);
    }
  }

  lemma {:induction false} CompareFolds(op: BinOp, l: Expr, r: Expr)
    requires Operands(l, r) && l.Constant? && r.Constant? && IsCompare(op)
    ensures CompareCreate(op, l, r).Constant?
  {
  }

  lemma {:induction false} CutFolds(e: Expr, off: nat, w: nat)
    requires WellTyped(e) && e.Constant? && 0 < w
    ensures off + w <= Width(e) ==> ExtractCreate(e, off, w).Constant?
    ensures ZExtCreate(e, w).Constant? && SExtCreate(e, w).Constant?
  {
  }

  /** Every node but a read, a barrier and a choice. */
  predicate IsPlain(e: Expr) {
    !e.Read? && !e.NotOptimized? && !e.Select?
  }

  lemma {:induction false} RebuildFolds(e: Expr, ks: seq<Expr>)
    requires WellTyped(e) && FitKids(e, ks) && IsPlain(e) && forall i :: 0 <= i < |ks| ==> ks[i].Constant?
    ensures Rebuild(e, ks).Constant?
  {
    hide BinaryCreate, ExtractCreate, ZExtCreate, SExtCreate;
    match e
    case Constant(_, _) =>
    case Concat(_, _) =>
    case Extract(_, off, bits) => CutFolds(ks[0], off, bits);
    case ZExt(_, bits) => PositiveWidth(e); CutFolds(ks[0], 0, bits);
    case SExt(_, bits) => PositiveWidth(e); CutFolds(ks[0], 0, bits);
    case Not(_) =>
    case Binary(op, _, _) => BinaryFolds(op, ks[0], ks[1]);
  }

  /** A term without reads and barriers. */
  predicate ReadsNothing(e: Expr)
    decreases e
  {
    match e
    case Constant(_, _) => true
    case NotOptimized(_) => false
    case Read(_, _, _) => false
    case Select(c, t, f) => ReadsNothing(c) && ReadsNothing(t) && ReadsNothing(f)
    case Concat(l, r) => ReadsNothing(l) && ReadsNothing(r)
    case Extract(src, _, _) => ReadsNothing(src)
    case ZExt(src, _) => ReadsNothing(src)
    case SExt(src, _) => ReadsNothing(src)
    case Not(src) => ReadsNothing(src)
    case Binary(_, l, r) => ReadsNothing(l) && ReadsNothing(r)
  }

  /** It is computed while it is built. */
  lemma {:induction false} BuiltConstant(e: Expr, a: Assignment)
    requires WellTyped(e) && ReadsNothing(e)
    ensures Built(e) == Constant(Eval(e, a), Width(e))
  {
    BuiltFolds(e);
    BuiltValue(e, a);
  }

  lemma {:induction false} BuiltFolds(e: Expr)
    requires WellTyped(e) && ReadsNothing(e)
    ensures Built(e).Constant?
    decreases e
  {
    hide ConcatCreate, BinaryCreate, ExtractCreate, ZExtCreate, SExtCreate;
    match e
    case Constant(_, _) =>
    case Select(c, t, f) => BuiltFolds(c); BuiltFolds(t); BuiltFolds(f);
    case Concat(l, r) => BuiltFolds(l); BuiltFolds(r); ConcatFolds(Built(l), Built(r));
    case Extract(src, off, bits) => BuiltFolds(src); CutFolds(Built(src), off, bits);
    case ZExt(src, bits) => BuiltFolds(src); PositiveWidth(e); CutFolds(Built(src), 0, bits);
    case SExt(src, bits) => BuiltFolds(src); PositiveWidth(e); CutFolds(Built(src), 0, bits);
    case Not(src) => BuiltFolds(src);
    case Binary(op, l, r) => BuiltFolds(l); BuiltFolds(r); BinaryFolds(op, Built(l), Built(r));
  }

  lemma {:induction false} ConcatFolds(l: Expr, r: Expr)
    requires WellTyped(l) && WellTyped(r) && l.Constant? && r.Constant?
    ensures ConcatCreate(l, r).Constant?
  {
  }
}
