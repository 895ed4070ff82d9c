/** The remaining constructors: products, divisions, shifts, comparisons, negation,
    selection and array reads, with the dispatcher over all binary operators. */
module Constructors {
  import Bits
  import opened Exprs
  import opened Booleans
  import opened LinearForms

  // --- Binary operators -------------------------------------------------------------------

  function MulPartialR(c: Expr, r: Expr): (e: Expr)
    requires c.Constant? && Operands(c, r)
    ensures WellTyped(e) && Width(e) == Width(r) && Weight(e) <= 2 + Weight(r)
  {
    if c.bits == 1 then AndPartial(r, c)
    else if c.value == 1 then r
    else if c.value == 0 then c
    else Binary(Mul, c, r)
  }

  function MulCreate(l: Expr, r: Expr): (e: Expr)
    requires Operands(l, r)
    ensures WellTyped(e) && Width(e) == Width(l) && Weight(e) <= 1 + Weight(l) + Weight(r)
  {
    if l.Constant? && r.Constant? then ConstBinary(Mul, l, r)
    else if l.Constant? then MulPartialR(l, r)
    else if r.Constant? then MulPartialR(r, l)
    else if Width(l) == 1 then Binary(And, l, r)
    else Binary(Mul, l, r)
  }

  /** Division, remainder and arithmetic shift: on Booleans the right operand is taken not
      to matter. */
  function DivideCreate(op: BinOp, l: Expr, r: Expr): (e: Expr)
    requires Operands(l, r) && NeverBoolean(op)
    ensures WellTyped(e) && Width(e) == Width(l) && Weight(e) <= 5 + Weight(l) + Weight(r)
  {
    if l.Constant? && r.Constant? then ConstBinary(op, l, r)
    else if Width(l) == 1 then
      if op.URem? || op.SRem? then Bool(false) else l
    else PositiveWidth(l); Binary(op, l, r)
  }

  function ShiftCreate(op: BinOp, l: Expr, r: Expr): (e: Expr)
    requires Operands(l, r) && (op.Shl? || op.LShr?)
    ensures WellTyped(e) && Width(e) == Width(l) && Weight(e) <= 5 + Weight(l) + Weight(r)
  {
    if l.Constant? && r.Constant? then ConstBinary(op, l, r)
    else if Width(l) == 1 then AndCreate(l, IsZero(r))
    else Binary(op, l, r)
  }

  function LessCreate(op: BinOp, l: Expr, r: Expr): (e: Expr)
    requires Operands(l, r) && (op.Ult? || op.Ule? || op.Slt? || op.Sle?)
    ensures IsBool(e) && Weight(e) <= 5 + Weight(l) + Weight(r)
  {
    if l.Constant? && r.Constant? then ConstBinary(op, l, r)
    else if Width(l) == 1 then
      if op.Ult? then AndCreate(IsZero(l), r)
      else if op.Ule? then OrCreate(IsZero(l), r)
      else if op.Slt? then AndCreate(l, IsZero(r))
      else OrCreate(l, IsZero(r))
    else Binary(op, l, r)
  }

  /** Comparisons are canonicalised to Eq, Ult, Ule, Slt and Sle. */
  function CompareCreate(op: BinOp, l: Expr, r: Expr): (e: Expr)
    requires Operands(l, r) && IsCompare(op)
    ensures IsBool(e) && Weight(e) <= OpWeight(op) + Weight(l) + Weight(r)
  {
    if op.Eq? then EqCreate(l, r)
    else if op.Ne? then EqCreate(Bool(false), EqCreate(l, r))
    else if op.Ugt? || op.Uge? || op.Sgt? || op.Sge? then LessCreate(Swapped(op), r, l)
    else LessCreate(op, l, r)
  }

  function BinaryCreate(op: BinOp, l: Expr, r: Expr): (e: Expr)
    requires Operands(l, r)
    ensures WellTyped(e) && Width(e) == if IsCompare(op) then 1 else Width(l)
    ensures Weight(e) <= OpWeight(op) + Weight(l) + Weight(r)
  {
    if IsCompare(op) then CompareCreate(op, l, r)
    else if NeverBoolean(op) then DivideCreate(op, l, r)
    else if op.Add? then AddCreate(l, r)
    else if op.Sub? then SubCreate(l, r)
    else if op.Mul? then MulCreate(l, r)
    else if op.And? then AndCreate(l, r)
    else if op.Or? then OrCreate(l, r)
    else if op.Xor? then XorCreate(l, r)
    else ShiftCreate(op, l, r)
  }

  lemma {:induction false} MulValue(l: Expr, r: Expr, a: Assignment)
    requires Operands(l, r)
    ensures Eval(MulCreate(l, r), a) == Bits.MulMod(Eval(l, a), Eval(r, a), Width(l))
  {
    Products(Eval(l, a), Eval(r, a), Width(l));
    if l.Constant? && r.Constant? {
      assert MulCreate(l, r) == ConstBinary(Mul, l, r);
    } else if l.Constant? {
      MulPartialRValue(l, r, a);
    } else if r.Constant? {
      MulPartialRValue(r, l, a);
    } else if Width(l) == 1 {
      AndIsProduct(l, r, a);
      AndNode(l, r, a);
    } else {
      EvalBound(l, a);
      EvalBound(r, a);
      assert MulCreate(l, r) == Binary(Mul, l, r);
    }
  }

  lemma {:induction false} MulPartialRValue(c: Expr, r: Expr, a: Assignment)
    requires c.Constant? && Operands(c, r)
    ensures Eval(MulPartialR(c, r), a) == Bits.MulMod(c.value, Eval(r, a), c.bits)
  {
    EvalBound(r, a);
    UnitProducts(c.value, Eval(r, a), c.bits);
    if c.bits == 1 {
      AndPartialValue(r, c, a);
      AndIsProduct(r, c, a);
      Products(c.value, Eval(r, a), 1);
    } else if c.value > 1 {
      assert MulPartialR(c, r) == Binary(Mul, c, r);
    }
  }

  lemma {:induction false} AndNode(l: Expr, r: Expr, a: Assignment)
    requires Operands(l, r)
    ensures Eval(Binary(And, l, r), a) == Bits.BitAnd(Eval(l, a), Eval(r, a))
  {
    EvalBound(l, a);
    EvalBound(r, a);
  }

  lemma {:induction false} AndIsProduct(l: Expr, r: Expr, a: Assignment)
    requires IsBool(l) && IsBool(r)
    ensures Bits.BitAnd(Eval(l, a), Eval(r, a)) == Bits.MulMod(Eval(l, a), Eval(r, a), 1)
  {
    TwoBits(l, r, a);
    EvalBound(l, a);
    EvalBound(r, a);
    UnitProducts(Eval(l, a), Eval(r, a), 1);
  }

  lemma {:induction false} Products(x: nat, y: nat, w: nat)
    ensures Bits.MulMod(x, y, w) == Bits.MulMod(y, x, w)
  {
    assert x * y == y * x;
  }

  lemma {:induction false} UnitProducts(x: nat, y: nat, w: nat)
    requires y < Bits.Pow2(w)
    ensures x == 0 || y == 0 ==> Bits.MulMod(x, y, w) == 0
    ensures x == 1 ==> Bits.MulMod(x, y, w) == y
  {
    Bits.TruncWhole(y, w);
    Bits.TruncWhole(0, w);
  }

  lemma {:induction false} ShiftValue(op: BinOp, l: Expr, r: Expr, a: Assignment)
    requires Operands(l, r) && (op.Shl? || op.LShr?)
    ensures Eval(ShiftCreate(op, l, r), a) == BinaryValue(op, Eval(l, a), Eval(r, a), Width(l))
  {
    if l.Constant? && r.Constant? {
      FoldValue(op, l, r, a);
    } else if Width(l) == 1 {
      ShiftBoolValue(op, l, r, a);
    } else {
      NodeValue(op, l, r, a);
    }
  }

  lemma {:induction false} FoldValue(op: BinOp, l: Expr, r: Expr, a: Assignment)
    requires Operands(l, r) && l.Constant? && r.Constant?
    ensures Eval(ConstBinary(op, l, r), a) == BinaryValue(op, Eval(l, a), Eval(r, a), Width(l))
  {
  }

  lemma {:induction false} NodeValue(op: BinOp, l: Expr, r: Expr, a: Assignment)
    ensures Eval(Binary(op, l, r), a) == BinaryValue(op, Eval(l, a), Eval(r, a), Width(l))
  {
  }

  lemma {:induction false} ShiftBoolValue(op: BinOp, l: Expr, r: Expr, a: Assignment)
    requires IsBool(l) && IsBool(r) && (op.Shl? || op.LShr?)
    ensures Eval(AndCreate(l, IsZero(r)), a) == BinaryValue(op, Eval(l, a), Eval(r, a), 1)
  {
    BoolValue(l, a);
    BoolValue(r, a);
    NegatedLeft(r, l, a);
    BooleanShift(op, Eval(l, a), Eval(r, a));
  }

  /** A Boolean survives a shift by zero and nothing else. */
  lemma {:induction false} BooleanShift(op: BinOp, x: nat, y: nat)
    requires x < 2 && y < 2 && (op.Shl? || op.LShr?)
    ensures BinaryValue(op, x, y, 1) == if y == 0 then x else 0
  {
    Bits.Pow2Double(0);
    Bits.TruncWhole(x, 1);
    assert Bits.Join(x, 0, 0) == Bits.Drop(x, 0) == x;
  }

  lemma {:induction false} LessValue(op: BinOp, l: Expr, r: Expr, a: Assignment)
    requires Operands(l, r) && (op.Ult? || op.Ule? || op.Slt? || op.Sle?)
    ensures Eval(LessCreate(op, l, r), a) == BinaryValue(op, Eval(l, a), Eval(r, a), Width(l))
  {
    if l.Constant? && r.Constant? {
      FoldValue(op, l, r, a);
    } else if Width(l) == 1 {
      LessBoolValue(op, l, r, a);
    } else {
      NodeValue(op, l, r, a);
    }
  }

  lemma {:induction false} LessBoolValue(op: BinOp, l: Expr, r: Expr, a: Assignment)
    requires IsBool(l) && IsBool(r) && !(l.Constant? && r.Constant?)
    requires op.Ult? || op.Ule? || op.Slt? || op.Sle?
    ensures Eval(LessCreate(op, l, r), a) == BinaryValue(op, Eval(l, a), Eval(r, a), 1)
  {
    EvalBound(l, a);
    EvalBound(r, a);
    BooleanOrder(Eval(l, a), Eval(r, a));
    NegatedLeft(l, r, a);
    NegatedLeft(r, l, a);
  }

  lemma {:induction false} NegatedLeft(l: Expr, r: Expr, a: Assignment)
    requires IsBool(l) && IsBool(r)
    ensures Eval(AndCreate(IsZero(l), r), a) == FromBool(Eval(l, a) == 0 && Eval(r, a) == 1)
    ensures Eval(AndCreate(r, IsZero(l)), a) == FromBool(Eval(l, a) == 0 && Eval(r, a) == 1)
    ensures Eval(OrCreate(IsZero(l), r), a) == FromBool(Eval(l, a) == 0 || Eval(r, a) == 1)
    ensures Eval(OrCreate(r, IsZero(l)), a) == FromBool(Eval(l, a) == 0 || Eval(r, a) == 1)
  {
    IsZeroValue(l, a);
    AndValue(IsZero(l), r, a);
    AndValue(r, IsZero(l), a);
    OrValue(IsZero(l), r, a);
    OrValue(r, IsZero(l), a);
    TwoBits(IsZero(l), r, a);
    TwoBits(r, IsZero(l), a);
  }

  /** As a signed bit, one is minus one. */
  lemma {:induction false} BooleanOrder(x: nat, y: nat)
    requires x < Bits.Pow2(1) && y < Bits.Pow2(1)
    ensures x < 2 && y < 2
    ensures BinaryValue(Ult, x, y, 1) == FromBool(x == 0 && y == 1)
    ensures BinaryValue(Ule, x, y, 1) == FromBool(x == 0 || y == 1)
    ensures BinaryValue(Slt, x, y, 1) == FromBool(x == 1 && y == 0)
    ensures BinaryValue(Sle, x, y, 1) == FromBool(x == 1 || y == 0)
  {
    Bits.Pow2Double(0);
  }

  lemma {:induction false} CompareValue(op: BinOp, l: Expr, r: Expr, a: Assignment)
    requires Operands(l, r) && IsCompare(op)
    ensures Eval(CompareCreate(op, l, r), a) == BinaryValue(op, Eval(l, a), Eval(r, a), Width(l))
  {
    if op.Eq? {
      EqNodeValue(l, r, a);
    } else if op.Ne? {
      NeValue(l, r, a);
    } else if op.Ugt? || op.Uge? || op.Sgt? || op.Sge? {
      GreaterValue(op, l, r, a);
    } else {
      LessValue(op, l, r, a);
    }
  }

  lemma {:induction false} EqNodeValue(l: Expr, r: Expr, a: Assignment)
    requires Operands(l, r)
    ensures Eval(EqCreate(l, r), a) == BinaryValue(Eq, Eval(l, a), Eval(r, a), Width(l))
  {
    EvalBound(l, a);
    EvalBound(r, a);
    EqValue(l, r, a);
    BoolValue(EqCreate(l, r), a);
  }

  lemma {:induction false} GreaterValue(op: BinOp, l: Expr, r: Expr, a: Assignment)
    requires Operands(l, r) && (op.Ugt? || op.Uge? || op.Sgt? || op.Sge?)
    ensures Eval(CompareCreate(op, l, r), a) == BinaryValue(op, Eval(l, a), Eval(r, a), Width(l))
  {
    hide Eval, BinaryValue, LessCreate, WellTyped, Width;
    LessValue(Swapped(op), r, l, a);
    SwappedValue(op, Eval(l, a), Eval(r, a), Width(l));
    assert CompareCreate(op, l, r) == LessCreate(Swapped(op), r, l);
  }

  function Swapped(op: BinOp): (s: BinOp)
    requires op.Ugt? || op.Uge? || op.Sgt? || op.Sge?
    ensures s.Ult? || s.Ule? || s.Slt? || s.Sle?
  {
    if op.Ugt? then Ult
    else if op.Uge? then Ule
    else if op.Sgt? then Slt
    else Sle
  }

  lemma {:induction false} SwappedValue(op: BinOp, x: nat, y: nat, w: nat)
    requires op.Ugt? || op.Uge? || op.Sgt? || op.Sge?
    ensures BinaryValue(op, x, y, w) == BinaryValue(Swapped(op), y, x, w)
  {
  }

  /** Every binary constructor computes its operator. */
  lemma {:induction false} BinaryCreateValue(op: BinOp, l: Expr, r: Expr, a: Assignment)
    requires Operands(l, r) && (NeverBoolean(op) ==> 1 < Width(l))
    ensures Eval(BinaryCreate(op, l, r), a) == BinaryValue(op, Eval(l, a), Eval(r, a), Width(l))
  {
    if IsCompare(op) {
      CompareValue(op, l, r, a);
    } else if NeverBoolean(op) {
      DivideValue(op, l, r, a);
    } else {
      ArithmeticValue(op, l, r, a);
    }
  }

  lemma {:induction false} DivideValue(op: BinOp, l: Expr, r: Expr, a: Assignment)
    requires Operands(l, r) && NeverBoolean(op) && 1 < Width(l)
    ensures Eval(DivideCreate(op, l, r), a) == BinaryValue(op, Eval(l, a), Eval(r, a), Width(l))
  {
    if l.Constant? && r.Constant? {
      FoldValue(op, l, r, a);
    } else {
      NodeValue(op, l, r, a);
    }
  }

  lemma {:induction false} OperatorFacts(x: nat, y: nat, w: nat)
    requires x < Bits.Pow2(w) && y < Bits.Pow2(w)
    ensures BinaryValue(Add, x, y, w) == Bits.AddMod(x, y, w)
    ensures BinaryValue(Sub, x, y, w) == Bits.SubMod(x, y, w)
    ensures BinaryValue(Mul, x, y, w) == Bits.MulMod(x, y, w)
    ensures BinaryValue(And, x, y, w) == Bits.BitAnd(x, y)
    ensures BinaryValue(Or, x, y, w) == Bits.BitOr(x, y)
    ensures BinaryValue(Xor, x, y, w) == Bits.BitXor(x, y)
  {
  }

  lemma {:induction false} ArithmeticValue(op: BinOp, l: Expr, r: Expr, a: Assignment)
    requires Operands(l, r) && !IsCompare(op) && !NeverBoolean(op)
    ensures Eval(BinaryCreate(op, l, r), a) == BinaryValue(op, Eval(l, a), Eval(r, a), Width(l))
  {
    EvalBound(l, a);
    EvalBound(r, a);
    OperatorFacts(Eval(l, a), Eval(r, a), Width(l));
    if op.Add? {
      AddValue(l, r, a);
    } else if op.Sub? {
      SubValue(l, r, a);
    } else if op.Mul? {
      MulValue(l, r, a);
    } else if op.And? {
      AndValue(l, r, a);
    } else if op.Or? {
      OrValue(l, r, a);
    } else if op.Xor? {
      XorValue(l, r, a);
    } else {
      ShiftValue(op, l, r, a);
    }
  }

  lemma {:induction false} NeValue(l: Expr, r: Expr, a: Assignment)
    requires Operands(l, r)
    ensures Eval(EqCreate(Bool(false), EqCreate(l, r)), a) == BinaryValue(Ne, Eval(l, a), Eval(r, a), Width(l))
  {
    EvalBound(l, a);
    EvalBound(r, a);
    EqValue(l, r, a);
    EqValue(Bool(false), EqCreate(l, r), a);
    BoolValue(EqCreate(l, r), a);
    BoolValue(EqCreate(Bool(false), EqCreate(l, r)), a);
  }

  /** On Booleans the division-like constructors are right exactly when the divisor (or
      shift amount) is not degenerate or the dividend hides it. */
  lemma {:induction false} BooleanDivision(op: BinOp, l: Expr, r: Expr, a: Assignment)
    requires Operands(l, r) && Width(l) == 1 && NeverBoolean(op) && !(l.Constant? && r.Constant?)
    ensures Eval(BinaryCreate(op, l, r), a) == BinaryValue(op, Eval(l, a), Eval(r, a), 1)
      <==> if op.AShr? then !Holds(r, a) || !Holds(l, a)
           else if op.UDiv? || op.SDiv? then Holds(r, a) || Holds(l, a)
           else Holds(r, a) || !Holds(l, a)
  {
    DivideCreateOnBooleans(op, l, r, a);
    BooleanDivisionValues(op, l, r, a);
  }

  lemma {:induction false} DivideCreateOnBooleans(op: BinOp, l: Expr, r: Expr, a: Assignment)
    requires Operands(l, r) && Width(l) == 1 && NeverBoolean(op) && !(l.Constant? && r.Constant?)
    ensures Eval(BinaryCreate(op, l, r), a) == if op.URem? || op.SRem? then 0 else Eval(l, a)
  {
    assert BinaryCreate(op, l, r) == DivideCreate(op, l, r);
  }

  lemma {:induction false} BooleanDivisionValues(op: BinOp, l: Expr, r: Expr, a: Assignment)
    requires Operands(l, r) && Width(l) == 1 && NeverBoolean(op)
    ensures Eval(l, a) < 2 && Eval(r, a) < 2
    ensures BinaryValue(op, Eval(l, a), Eval(r, a), 1)
         == if op.UDiv? || op.SDiv? then (if Holds(r, a) then Eval(l, a) else 1)
            else if op.AShr? then (if Holds(r, a) then 0 else Eval(l, a))
            else if Holds(r, a) then 0 else Eval(l, a)
  {
    BoolValue(l, a);
    BoolValue(r, a);
    BooleanQuotients(Eval(l, a), Eval(r, a));
  }

  lemma {:induction false} BooleanQuotients(x: nat, y: nat)
    requires x < 2 && y < 2
    ensures BinaryValue(UDiv, x, y, 1) == BinaryValue(SDiv, x, y, 1) == (if y == 1 then x else 1)
    ensures BinaryValue(URem, x, y, 1) == BinaryValue(SRem, x, y, 1) == (if y == 1 then 0 else x)
    ensures BinaryValue(AShr, x, y, 1) == (if y == 1 then 0 else x)
  {
    Bits.Pow2Double(0);
    assert Bits.Magnitude(x, 1) == x && Bits.Magnitude(y, 1) == y;
    assert Bits.Drop(x, 0) == x && Bits.Drop(Bits.Complement(x, 1), 0) == 1 - x;
  }

  /** A Boolean input: where it is true, shifting it by one keeps it and dividing it by zero
      leaves no remainder; where it is false, dividing it by zero gives zero. */
  lemma {:induction false} BooleanDivisionFails() returns (p: Expr, a: Assignment, b: Assignment)
    ensures IsBool(p) && !p.Constant? && Eval(p, a) == Eval(Bool(true), a) == 1
    ensures Eval(BinaryCreate(AShr, p, Bool(true)), a) == 1 && BinaryValue(AShr, 1, 1, 1) == 0
    ensures Eval(BinaryCreate(URem, p, Bool(false)), a) == 0 && BinaryValue(URem, 1, 0, 1) == 1
    ensures Eval(p, b) == Eval(Bool(false), b) == 0
    ensures Eval(BinaryCreate(UDiv, p, Bool(false)), b) == 0 && BinaryValue(UDiv, 0, 0, 1) == 1
  {
    Bits.Pow2Double(0);
    Bits.Pow2Widths();
    var root := Array(0, 1, 8, 1, []);
    p, a, b := Read(root, NoUpdate, Constant(0, 8)), Assignment(map[root := [1]]), Assignment(map[]);
    Bits.TruncWhole(1, 1);
    assert Eval(p, a) == ReadValue(root, NoUpdate, 0, a) == 1;
    DivideCreateOnBooleans(AShr, p, Bool(true), a);
    DivideCreateOnBooleans(URem, p, Bool(false), a);
    BooleanQuotients(1, 1);
    BooleanQuotients(1, 0);
    assert Eval(p, b) == ReadValue(root, NoUpdate, 0, b) == 0;
    DivideCreateOnBooleans(UDiv, p, Bool(false), b);
    BooleanQuotients(0, 0);
  }

  // --- Not, NotOptimized and Select -----------------------------------------------------------

  function NotCreate(e: Expr): (r: Expr)
    requires WellTyped(e)
    ensures WellTyped(r) && Width(r) == Width(e) && Weight(r) <= 1 + Weight(e)
  {
    if e.Constant? then Constant(Bits.Complement(e.value, e.bits), e.bits) else Not(e)
  }

  function SelectCreate(c: Expr, t: Expr, f: Expr): (e: Expr)
    requires IsBool(c) && Operands(t, f)
    ensures WellTyped(e) && Width(e) == Width(t)
    ensures Weight(e) <= 4 + Weight(c) + Weight(t) + Weight(f)
  {
    if c.Constant? then (if c.value == 1 then t else f)
    else if t == f then t
    else if Width(t) == 1 && t.Constant? then
      if t.value == 1 then OrCreate(c, f) else AndCreate(IsZero(c), f)
    else if Width(t) == 1 && f.Constant? then
      if f.value == 1 then OrCreate(IsZero(c), t) else AndCreate(c, t)
    else Select(c, t, f)
  }

  lemma {:induction false} SelectValue(c: Expr, t: Expr, f: Expr, a: Assignment)
    requires IsBool(c) && Operands(t, f)
    ensures Eval(SelectCreate(c, t, f), a) == if Holds(c, a) then Eval(t, a) else Eval(f, a)
  {
    if c.Constant? {
      BoolValue(c, a);
    } else if t == f {
    } else if Width(t) == 1 && t.Constant? {
      SelectTrueConstant(c, t, f, a);
    } else if Width(t) == 1 && f.Constant? {
      SelectFalseConstant(c, t, f, a);
    } else {
      assert SelectCreate(c, t, f) == Select(c, t, f);
    }
  }

  lemma {:induction false} SelectTrueConstant(c: Expr, t: Expr, f: Expr, a: Assignment)
    requires IsBool(c) && IsBool(t) && IsBool(f) && t.Constant?
    ensures Eval(if t.value == 1 then OrCreate(c, f) else AndCreate(IsZero(c), f), a)
         == if Holds(c, a) then Eval(t, a) else Eval(f, a)
  {
    BoolValue(c, a);
    BoolValue(t, a);
    BoolValue(f, a);
    ConnectiveValues(c, f, a);
    NegatedLeft(c, f, a);
  }

  lemma {:induction false} SelectFalseConstant(c: Expr, t: Expr, f: Expr, a: Assignment)
    requires IsBool(c) && IsBool(t) && IsBool(f) && f.Constant?
    ensures Eval(if f.value == 1 then OrCreate(IsZero(c), t) else AndCreate(c, t), a)
         == if Holds(c, a) then Eval(t, a) else Eval(f, a)
  {
    BoolValue(c, a);
    BoolValue(t, a);
    BoolValue(f, a);
    ConnectiveValues(c, t, a);
    NegatedLeft(c, t, a);
  }

  lemma {:induction false} ConnectiveValues(l: Expr, r: Expr, a: Assignment)
    requires IsBool(l) && IsBool(r)
    ensures Eval(AndCreate(l, r), a) == FromBool(Holds(l, a) && Holds(r, a))
    ensures Eval(OrCreate(l, r), a) == FromBool(Holds(l, a) || Holds(r, a))
  {
    AndValue(l, r, a);
    OrValue(l, r, a);
    TwoBits(l, r, a);
  }

  // --- Reads ------------------------------------------------------------------------------------

  datatype Option<T> = None | Some(value: T)

  /** The value of the newest update at `index`, when equality with the index is decided
      for every update up to it. */
  function Rollback(root: Array, u: Updates, index: Expr): (v: Option<Expr>)
    requires UpdatesWellTyped(root, u) && WellTyped(index) && Width(index) == root.domain
    ensures v.Some? ==> WellTyped(v.value) && Width(v.value) == root.range
    ensures v.Some? ==> Weight(v.value) <= UpdatesWeight(u)
    decreases u
  {
    match u
    case NoUpdate => None
    case Update(next, i, value) =>
      var same := EqCreate(index, i);
      if same == Bool(true) then Some(value)
      else if same.Constant? then Rollback(root, next, index)
      else None
  }

  function ReadCreate(root: Array, u: Updates, index: Expr): (e: Expr)
    requires root.Valid() && UpdatesWellTyped(root, u) && WellTyped(index) && Width(index) == root.domain
    ensures WellTyped(e) && Width(e) == root.range
    ensures Weight(e) <= 1 + UpdatesWeight(u) + Weight(index)
  {
    match Rollback(root, u, index)
    case Some(v) => v
    case None => Read(root, u, index)
  }

  lemma {:induction false} RollbackValue(root: Array, u: Updates, index: Expr, a: Assignment)
    requires UpdatesWellTyped(root, u) && WellTyped(index) && Width(index) == root.domain
    ensures Rollback(root, u, index).Some?
      ==> Eval(Rollback(root, u, index).value, a) == ReadValue(root, u, Eval(index, a), a)
    decreases u
  {
    match u
    case NoUpdate =>
    case Update(next, i, value) =>
      EqValue(index, i, a);
      BoolValue(EqCreate(index, i), a);
      RollbackValue(root, next, index, a);
  }

  /** Skipping updates that cannot be at the index changes nothing. */
  lemma {:induction false} ReadCreateValue(root: Array, u: Updates, index: Expr, a: Assignment)
    requires root.Valid() && UpdatesWellTyped(root, u) && WellTyped(index) && Width(index) == root.domain
    ensures Eval(ReadCreate(root, u, index), a) == ReadValue(root, u, Eval(index, a), a)
  {
    RollbackValue(root, u, index, a);
  }

  function Length(u: Updates): (n: nat) {
    if u.Update? then 1 + Length(u.next) else 0
  }

  /** The updates without the k newest. */
  function Older(u: Updates, k: nat): (o: Updates)
    requires k <= Length(u)
    ensures Length(o) == Length(u) - k
  {
    if k == 0 then u else Older(u.next, k - 1)
  }

  /** Whether update k is at the index is decided. */
  predicate DecidedAt(root: Array, u: Updates, index: Expr, k: nat, same: bool)
    requires WellTyped(index) && Width(index) == root.domain && k < Length(u)
  {
    var i := Older(u, k).index;
    WellTyped(i) && Width(i) == root.domain && EqCreate(index, i) == Bool(same)
  }

  /** Update k is certainly at the index and the newer ones are certainly not. */
  predicate FoundAt(root: Array, u: Updates, index: Expr, k: nat)
    requires WellTyped(index) && Width(index) == root.domain
  {
    && k < Length(u) && DecidedAt(root, u, index, k, true)
    && forall j :: 0 <= j < k ==> DecidedAt(root, u, index, j, false)
  }

  /** A read is exactly then taken from the updates. */
  lemma {:induction false} ReadTaken(root: Array, u: Updates, index: Expr)
    requires root.Valid() && UpdatesWellTyped(root, u) && WellTyped(index) && Width(index) == root.domain
    ensures forall k :: FoundAt(root, u, index, k) ==> ReadCreate(root, u, index) == Older(u, k).value
    ensures (forall k :: !FoundAt(root, u, index, k)) ==> ReadCreate(root, u, index) == Read(root, u, index)
  {
    hide EqCreate, FoundAt;
    forall k: nat | FoundAt(root, u, index, k)
      ensures k < Length(u) && Rollback(root, u, index) == Some(Older(u, k).value)
    {
      FoundValue(root, u, index, k);
    }
    if Rollback(root, u, index).Some? {
      var k := ValueFound(root, u, index);
    }
  }

  lemma {:induction false} DecidedFirst(root: Array, u: Updates, index: Expr, same: bool)
    requires UpdatesWellTyped(root, u) && WellTyped(index) && Width(index) == root.domain && u.Update?
    ensures DecidedAt(root, u, index, 0, same) <==> EqCreate(index, u.index) == Bool(same)
  {
  }

  lemma {:induction false} DecidedNext(root: Array, u: Updates, index: Expr, k: nat, same: bool)
    requires WellTyped(index) && Width(index) == root.domain && u.Update? && k < Length(u.next)
    ensures DecidedAt(root, u, index, k + 1, same) <==> DecidedAt(root, u.next, index, k, same)
  {
    assert Older(u, k + 1) == Older(u.next, k);
  }

  lemma {:induction false} FoundValue(root: Array, u: Updates, index: Expr, k: nat)
    requires UpdatesWellTyped(root, u) && WellTyped(index) && Width(index) == root.domain && FoundAt(root, u, index, k)
    ensures k < Length(u) && Rollback(root, u, index) == Some(Older(u, k).value)
    decreases k
  {
    hide EqCreate, DecidedAt;
    DecidedFirst(root, u, index, 0 == k);
    if 0 < k {
      assert DecidedAt(root, u, index, 0, false);
      DecidedNext(root, u, index, k - 1, true);
      forall j | 0 <= j < k - 1 ensures DecidedAt(root, u.next, index, j, false) {
        assert DecidedAt(root, u, index, j + 1, false);
        DecidedNext(root, u, index, j, false);
      }
      FoundValue(root, u.next, index, k - 1);
    }
  }

  lemma {:induction false} ValueFound(root: Array, u: Updates, index: Expr) returns (k: nat)
    requires UpdatesWellTyped(root, u) && WellTyped(index) && Width(index) == root.domain
    requires Rollback(root, u, index).Some?
    ensures FoundAt(root, u, index, k)
    decreases u
  {
    hide EqCreate, DecidedAt;
    var same := EqCreate(index, u.index);
    if same == Bool(true) {
      k := 0;
      DecidedFirst(root, u, index, true);
    } else {
      BoolConstants(same);
      DecidedFirst(root, u, index, false);
      var older := ValueFound(root, u.next, index);
      k := older + 1;
      DecidedNext(root, u, index, older, true);
      forall j | 0 < j < k ensures DecidedAt(root, u, index, j, false) {
        assert DecidedAt(root, u.next, index, j - 1, false);
        DecidedNext(root, u, index, j - 1, false);
      }
    }
  }

  lemma {:induction false} BoolConstants(c: Expr)
    requires IsBool(c) && c.Constant?
    ensures c == Bool(true) || c == Bool(false)
  {
    Bits.Pow2Double(0);
  }

  /** ReadExpr::create as it is written: a cursor walks the updates, newest first. */
  method ReadExprCreate(root: Array, u: Updates, index: Expr) returns (e: Expr)
    requires root.Valid() && UpdatesWellTyped(root, u) && WellTyped(index) && Width(index) == root.domain
    ensures e == ReadCreate(root, u, index)
  {
    var un := u;
    while un.Update?
      invariant UpdatesWellTyped(root, un)
      invariant Rollback(root, un, index) == Rollback(root, u, index)
      decreases un
    {
      var same := EqCreate(index, un.index);
      if same.Constant? {
        if same == Bool(true) {
          return un.value;
        }
      } else {
        break;
      }
      un := un.next;
    }
    e := Read(root, u, index);
  }
}
