/** Symbolic expressions over byte arrays: the term language, its typing discipline,
    its value under an assignment, and the measures that bound the rewriting
    constructors. */
module Exprs {
  import Bits

  /** An array of `size` cells of `range` bits, indexed by `domain` bits. It is
      symbolic when it has no initial contents. */
  datatype Array = Array(id: nat, size: nat, domain: nat, range: nat, constants: seq<nat>) {
    predicate IsSymbolic() {
      constants == []
    }

    predicate Valid() {
      && 0 < domain && 0 < range
      && (IsSymbolic() || |constants| == size)
      && forall i :: 0 <= i < |constants| ==> constants[i] < Bits.Pow2(range)
    }
  }

  datatype BinOp =
    | Add | Sub | Mul | UDiv | SDiv | URem | SRem
    | And | Or | Xor | Shl | LShr | AShr
    | Eq | Ne | Ult | Ule | Ugt | Uge | Slt | Sle | Sgt | Sge

  predicate IsCompare(op: BinOp) {
    op.Eq? || op.Ne? || op.Ult? || op.Ule? || op.Ugt? || op.Uge? || op.Slt? || op.Sle? || op.Sgt? || op.Sge?
  }

  /** The operators that canonical form never applies to Booleans and whose Boolean
      constructors rely on a right operand that is not a degenerate one. */
  predicate NeverBoolean(op: BinOp) {
    op.UDiv? || op.SDiv? || op.URem? || op.SRem? || op.AShr?
  }

  datatype Expr =
    | Constant(value: nat, bits: nat)
    | NotOptimized(src: Expr)
    | Read(root: Array, updates: Updates, index: Expr)
    | Select(cond: Expr, onTrue: Expr, onFalse: Expr)
    | Concat(left: Expr, right: Expr)
    | Extract(src: Expr, offset: nat, bits: nat)
    | ZExt(src: Expr, bits: nat)
    | SExt(src: Expr, bits: nat)
    | Not(src: Expr)
    | Binary(op: BinOp, left: Expr, right: Expr)

  /** The writes applied to an array, most recent first. */
  datatype Updates = NoUpdate | Update(next: Updates, index: Expr, value: Expr)

  function Width(e: Expr): (w: nat) {
    match e
    case Constant(_, bits) => bits
    case NotOptimized(src) => Width(src)
    case Read(root, _, _) => root.range
    case Select(_, t, _) => Width(t)
    case Concat(l, r) => Width(l) + Width(r)
    case Extract(_, _, bits) => bits
    case ZExt(_, bits) => bits
    case SExt(_, bits) => bits
    case Not(src) => Width(src)
    case Binary(op, l, _) => if IsCompare(op) then 1 else Width(l)
  }

  predicate WellTyped(e: Expr)
    decreases e
  {
    match e
    case Constant(v, bits) => 0 < bits && v < Bits.Pow2(bits)
    case NotOptimized(src) => WellTyped(src)
    case Read(root, updates, index) =>
      root.Valid() && UpdatesWellTyped(root, updates) && WellTyped(index) && Width(index) == root.domain
    case Select(c, t, f) =>
      WellTyped(c) && WellTyped(t) && WellTyped(f) && Width(c) == 1 && Width(t) == Width(f)
    case Concat(l, r) => WellTyped(l) && WellTyped(r)
    case Extract(src, off, bits) => WellTyped(src) && 0 < bits && off + bits <= Width(src)
    case ZExt(src, bits) => WellTyped(src) && Width(src) <= bits
    case SExt(src, bits) => WellTyped(src) && Width(src) <= bits
    case Not(src) => WellTyped(src)
    case Binary(op, l, r) =>
      && WellTyped(l) && WellTyped(r) && Width(l) == Width(r)
      && (NeverBoolean(op) ==> 1 < Width(l))
  }

  predicate UpdatesWellTyped(root: Array, u: Updates)
    decreases u
  {
    match u
    case NoUpdate => true
    case Update(next, index, value) =>
      && UpdatesWellTyped(root, next)
      && WellTyped(index) && Width(index) == root.domain
      && WellTyped(value) && Width(value) == root.range
  }

  // --- Values -----------------------------------------------------------------------

  /** The initial bytes of the symbolic arrays; cells it leaves out are zero. */
  datatype Assignment = Assignment(bindings: map<Array, seq<nat>>)

  /** The contents of cell `i` before any update. */
  function InitialValue(root: Array, i: nat, a: Assignment): (v: nat)
  {
    if i < |root.constants| then root.constants[i]
    else if root in a.bindings && i < |a.bindings[root]| then Bits.Trunc(a.bindings[root][i], root.range)
    else 0
  }

  function FromBool(b: bool): (v: nat) {
    if b then 1 else 0
  }

  /** The value of a binary operator on operands of width w. */
  function BinaryValue(op: BinOp, x: nat, y: nat, w: nat): (v: nat) {
    if x < Bits.Pow2(w) && y < Bits.Pow2(w) then
      match op
      case Add => Bits.AddMod(x, y, w)
      case Sub => Bits.SubMod(x, y, w)
      case Mul => Bits.MulMod(x, y, w)
      case UDiv => Bits.UDiv(x, y, w)
      case SDiv => Bits.SDiv(x, y, w)
      case URem => Bits.URem(x, y)
      case SRem => Bits.SRem(x, y, w)
      case And => Bits.BitAnd(x, y)
      case Or => Bits.BitOr(x, y)
      case Xor => Bits.BitXor(x, y)
      case Shl => Bits.Shl(x, y, w)
      case LShr => Bits.LShr(x, y, w)
      case AShr => Bits.AShr(x, y, w)
      case Eq => FromBool(x == y)
      case Ne => FromBool(x != y)
      case Ult => FromBool(x < y)
      case Ule => FromBool(x <= y)
      case Ugt => FromBool(x > y)
      case Uge => FromBool(x >= y)
      case Slt => FromBool(Bits.Signed(x, w) < Bits.Signed(y, w))
      case Sle => FromBool(Bits.Signed(x, w) <= Bits.Signed(y, w))
      case Sgt => FromBool(Bits.Signed(x, w) > Bits.Signed(y, w))
      case Sge => FromBool(Bits.Signed(x, w) >= Bits.Signed(y, w))
    else 0
  }

  /** The value of an expression; only well-typed expressions have a meaningful one. */
  function Eval(e: Expr, a: Assignment): (v: nat)
    decreases e
  {
    match e
    case Constant(v, _) => v
    case NotOptimized(src) => Eval(src, a)
    case Read(root, updates, index) => ReadValue(root, updates, Eval(index, a), a)
    case Select(c, t, f) => if Eval(c, a) == 1 then Eval(t, a) else Eval(f, a)
    case Concat(l, r) => Bits.Join(Eval(l, a), Eval(r, a), Width(r))
    case Extract(src, off, bits) => Bits.Slice(Eval(src, a), off, bits)
    case ZExt(src, _) => Eval(src, a)
    case SExt(src, bits) => Bits.SignExtend(Eval(src, a), Width(src), bits)
    case Not(src) => Bits.Complement(Eval(src, a), Width(src))
    case Binary(op, l, r) => BinaryValue(op, Eval(l, a), Eval(r, a), Width(l))
  }

  /** What cell `i` holds once the updates have been applied. */
  function ReadValue(root: Array, u: Updates, i: nat, a: Assignment): (v: nat)
    decreases u
  {
    match u
    case NoUpdate => InitialValue(root, i, a)
    case Update(next, index, value) =>
      if Eval(index, a) == i then Eval(value, a) else ReadValue(root, next, i, a)
  }

  lemma {:induction false} BinaryBound(op: BinOp, x: nat, y: nat, w: nat)
    requires x < Bits.Pow2(w) && y < Bits.Pow2(w)
    ensures BinaryValue(op, x, y, w) < Bits.Pow2(if IsCompare(op) then 1 else w)
  {
    Bits.Pow2Double(0);
    Bits.BitwiseBounded(x, y, w);
    Bits.DivisionBound(x, y, w);
    Bits.DivisionBound(Bits.Magnitude(x, w), Bits.Magnitude(y, w), w);
  }

  /** The value of a well-typed expression fits its width. */
  lemma {:induction false} EvalBound(e: Expr, a: Assignment)
    requires WellTyped(e)
    ensures Eval(e, a) < Bits.Pow2(Width(e))
    decreases e
  {
    match e
    case Constant(_, _) =>
    case NotOptimized(src) => EvalBound(src, a);
    case Read(root, updates, index) => ReadBound(root, updates, Eval(index, a), a);
    case Select(c, t, f) => EvalBound(t, a); EvalBound(f, a);
    case Concat(l, r) => EvalBound(l, a); Bits.JoinBound(Eval(l, a), Eval(r, a), Width(l), Width(r));
    case Extract(_, _, _) =>
    case ZExt(src, bits) => EvalBound(src, a); Bits.Pow2Monotone(Width(src), bits);
    case SExt(src, bits) => EvalBound(src, a); Bits.Pow2Monotone(Width(src), bits);
    case Not(src) =>
    case Binary(op, l, r) => EvalBound(l, a); EvalBound(r, a); BinaryBound(op, Eval(l, a), Eval(r, a), Width(l));
  }

  lemma {:induction false} ReadBound(root: Array, u: Updates, i: nat, a: Assignment)
    requires root.Valid() && UpdatesWellTyped(root, u)
    ensures ReadValue(root, u, i, a) < Bits.Pow2(root.range)
    decreases u
  {
    match u
    case NoUpdate =>
    case Update(next, index, value) => EvalBound(value, a); ReadBound(root, next, i, a);
  }

  predicate IsBool(e: Expr) {
    WellTyped(e) && Width(e) == 1
  }

  predicate Holds(e: Expr, a: Assignment) {
    Eval(e, a) == 1
  }

  lemma {:induction false} BoolValue(e: Expr, a: Assignment)
    requires IsBool(e)
    ensures Eval(e, a) < 2
  {
    EvalBound(e, a);
    Bits.Pow2Double(0);
  }

  lemma {:induction false} PositiveWidth(e: Expr)
    requires WellTyped(e)
    ensures 0 < Width(e)
    decreases e
  {
    match e
    case Constant(_, _) =>
    case NotOptimized(src) => PositiveWidth(src);
    case Read(_, _, _) =>
    case Select(_, t, _) => PositiveWidth(t);
    case Concat(l, r) => PositiveWidth(l);
    case Extract(_, _, _) =>
    case ZExt(src, _) => PositiveWidth(src);
    case SExt(src, _) => PositiveWidth(src);
    case Not(src) => PositiveWidth(src);
    case Binary(_, l, _) => PositiveWidth(l);
  }

  // --- Measures ---------------------------------------------------------------------

  /** The number of nodes. */
  function Size(e: Expr): (n: nat)
    ensures 0 < n
  {
    match e
    case Constant(_, _) => 1
    case NotOptimized(src) => 1 + Size(src)
    case Read(_, updates, index) => 1 + UpdatesSize(updates) + Size(index)
    case Select(c, t, f) => 1 + Size(c) + Size(t) + Size(f)
    case Concat(l, r) => 1 + Size(l) + Size(r)
    case Extract(src, _, _) => 1 + Size(src)
    case ZExt(src, _) => 1 + Size(src)
    case SExt(src, _) => 1 + Size(src)
    case Not(src) => 1 + Size(src)
    case Binary(_, l, r) => 1 + Size(l) + Size(r)
  }

  function UpdatesSize(u: Updates): (n: nat) {
    match u
    case NoUpdate => 0
    case Update(next, index, value) => 1 + UpdatesSize(next) + Size(index) + Size(value)
  }

  /** What a binary node costs beyond its operands: Or pays for De Morgan, comparisons
      and shifts pay for their Boolean forms. */
  function OpWeight(op: BinOp): (n: nat)
    ensures 0 < n
  {
    match op
    case Or => 3
    case Add => 1
    case Sub => 1
    case Mul => 1
    case And => 1
    case Xor => 1
    case Eq => 1
    case _ => 5
  }

  /** A weighted size that no rewriting constructor increases, although some of them
      add nodes. */
  function Weight(e: Expr): (n: nat)
    ensures 0 < n
  {
    match e
    case Constant(_, _) => 1
    case NotOptimized(src) => 1 + Weight(src)
    case Read(_, updates, index) => 1 + UpdatesWeight(updates) + Weight(index)
    case Select(c, t, f) => 4 + Weight(c) + Weight(t) + Weight(f)
    case Concat(l, r) => 1 + Weight(l) + Weight(r)
    case Extract(src, _, _) => 2 * Weight(src)
    case ZExt(src, _) => 1 + 2 * Weight(src)
    case SExt(src, _) => 1 + 2 * Weight(src)
    case Not(src) => 1 + Weight(src)
    case Binary(op, l, r) => OpWeight(op) + Weight(l) + Weight(r)
  }

  function UpdatesWeight(u: Updates): (n: nat) {
    match u
    case NoUpdate => 0
    case Update(next, index, value) => 1 + UpdatesWeight(next) + Weight(index) + Weight(value)
  }
}
