/** The And, Or, Xor and Eq constructors. Boolean negation is equality with false, and
    equalities with a constant are pushed through casts, sums and negations. */
module Booleans {
  import Bits
  import opened Exprs
  import opened Slices

  function Bool(b: bool): (c: Expr)
    ensures IsBool(c)
  {
    Bits.Pow2Double(0);
    Constant(FromBool(b), 1)
  }

  /** Folding a binary operator over two constants. */
  function ConstBinary(op: BinOp, l: Expr, r: Expr): (c: Expr)
    requires l.Constant? && r.Constant? && WellTyped(l) && WellTyped(r) && Width(l) == Width(r)
    ensures c.Constant? && WellTyped(c)
    ensures Width(c) == if IsCompare(op) then 1 else Width(l)
  {
    BinaryBound(op, l.value, r.value, l.bits);
    Constant(BinaryValue(op, l.value, r.value, l.bits), if IsCompare(op) then 1 else l.bits)
  }

  predicate IsAllOnes(c: Expr)
    requires c.Constant?
  {
    c.value == Bits.Pow2(c.bits) - 1
  }

  /** Operands a binary constructor accepts. */
  predicate Operands(l: Expr, r: Expr) {
    WellTyped(l) && WellTyped(r) && Width(l) == Width(r)
  }

  // --- And, Or ----------------------------------------------------------------------

  function AndPartial(l: Expr, c: Expr): (e: Expr)
    requires c.Constant? && Operands(l, c)
    ensures WellTyped(e) && Width(e) == Width(l)
    ensures Weight(e) <= 1 + Weight(l) + Weight(c)
  {
    if IsAllOnes(c) then l
    else if c.value == 0 then c
    else Binary(And, l, c)
  }

  function AndCreate(l: Expr, r: Expr): (e: Expr)
    requires Operands(l, r)
    ensures WellTyped(e) && Width(e) == Width(l)
    ensures Weight(e) <= 1 + Weight(l) + Weight(r)
  {
    if l.Constant? && r.Constant? then ConstBinary(And, l, r)
    else if l.Constant? then AndPartial(r, l)
    else if r.Constant? then AndPartial(l, r)
    else Binary(And, l, r)
  }

  function OrPartial(l: Expr, c: Expr): (e: Expr)
    requires c.Constant? && Operands(l, c)
    ensures WellTyped(e) && Width(e) == Width(l)
    ensures Weight(e) <= 3 + Weight(l) + Weight(c)
  {
    if IsAllOnes(c) then c
    else if c.value == 0 then l
    else Binary(Or, l, c)
  }

  function OrCreate(l: Expr, r: Expr): (e: Expr)
    requires Operands(l, r)
    ensures WellTyped(e) && Width(e) == Width(l)
    ensures Weight(e) <= 3 + Weight(l) + Weight(r)
  {
    if l.Constant? && r.Constant? then ConstBinary(Or, l, r)
    else if l.Constant? then OrPartial(r, l)
    else if r.Constant? then OrPartial(l, r)
    else Binary(Or, l, r)
  }

  /** Zero and all-ones operands, and the order of the operands. */
  lemma {:induction false} PartialValues(x: nat, y: nat, w: nat)
    requires x < Bits.Pow2(w) && y < Bits.Pow2(w)
    ensures Bits.BitAnd(x, y) == Bits.BitAnd(y, x) && Bits.BitOr(x, y) == Bits.BitOr(y, x)
    ensures x == 0 ==> Bits.BitAnd(x, y) == 0 && Bits.BitOr(x, y) == y
    ensures y == 0 ==> Bits.BitAnd(x, y) == 0 && Bits.BitOr(x, y) == x
    ensures x == Bits.Pow2(w) - 1 ==> Bits.BitAnd(x, y) == y && Bits.BitOr(x, y) == x
    ensures y == Bits.Pow2(w) - 1 ==> Bits.BitAnd(x, y) == x && Bits.BitOr(x, y) == y
  {
    Bits.BitwiseCommute(x, y);
    Bits.AllOnes(x, w);
    Bits.AllOnes(y, w);
  }

  lemma {:induction false} AndPartialValue(l: Expr, c: Expr, a: Assignment)
    requires c.Constant? && Operands(l, c)
    ensures Eval(AndPartial(l, c), a) == Bits.BitAnd(Eval(l, a), c.value)
    ensures Eval(OrPartial(l, c), a) == Bits.BitOr(Eval(l, a), c.value)
  {
    EvalBound(l, a);
    PartialValues(Eval(l, a), c.value, c.bits);
    assert Eval(Binary(And, l, c), a) == Bits.BitAnd(Eval(l, a), c.value);
    assert Eval(Binary(Or, l, c), a) == Bits.BitOr(Eval(l, a), c.value);
  }

  lemma {:induction false} AndValue(l: Expr, r: Expr, a: Assignment)
    requires Operands(l, r)
    ensures Eval(AndCreate(l, r), a) == Bits.BitAnd(Eval(l, a), Eval(r, a))
  {
    if l.Constant? && !r.Constant? {
      AndPartialValue(r, l, a);
      Bits.BitwiseCommute(Eval(l, a), Eval(r, a));
    } else if r.Constant? && !l.Constant? {
      AndPartialValue(l, r, a);
    } else {
      EvalBound(l, a);
      EvalBound(r, a);
      assert Eval(Binary(And, l, r), a) == Bits.BitAnd(Eval(l, a), Eval(r, a));
    }
  }

  lemma {:induction false} OrValue(l: Expr, r: Expr, a: Assignment)
    requires Operands(l, r)
    ensures Eval(OrCreate(l, r), a) == Bits.BitOr(Eval(l, a), Eval(r, a))
  {
    if l.Constant? && !r.Constant? {
      AndPartialValue(r, l, a);
      Bits.BitwiseCommute(Eval(l, a), Eval(r, a));
    } else if r.Constant? && !l.Constant? {
      AndPartialValue(l, r, a);
    } else {
      EvalBound(l, a);
      EvalBound(r, a);
      assert Eval(Binary(Or, l, r), a) == Bits.BitOr(Eval(l, a), Eval(r, a));
    }
  }

  // --- Eq -----------------------------------------------------------------------------

  function EqAlloc(l: Expr, r: Expr): (e: Expr)
    requires Operands(l, r)
    ensures IsBool(e) && Weight(e) <= 1 + Weight(l) + Weight(r)
  {
    if l == r then Bool(true) else Binary(Eq, l, r)
  }

  function EqCreate(l: Expr, r: Expr): (e: Expr)
    requires Operands(l, r)
    ensures IsBool(e) && Weight(e) <= 1 + Weight(l) + Weight(r)
    decreases Weight(l) + Weight(r), 0
  {
    if l.Constant? && r.Constant? then ConstBinary(Eq, l, r)
    else if l.Constant? then EqPartialR(l, r)
    else if r.Constant? then EqPartialR(r, l)
    else EqAlloc(l, r)
  }

  /** Boolean negation. */
  function IsZero(e: Expr): (r: Expr)
    requires WellTyped(e)
    ensures IsBool(r) && Weight(r) <= 2 + Weight(e)
    decreases 1 + Weight(e), 1
  {
    PositiveWidth(e);
    EqCreate(e, Constant(0, Width(e)))
  }

  function EqPartialR(c: Expr, r: Expr): (e: Expr)
    requires c.Constant? && Operands(c, r)
    ensures IsBool(e) && Weight(e) <= 2 + Weight(r)
    decreases Weight(r), 1
  {
    if c.bits == 1 then
      if c.value == 1 then r
      else if r.Binary? && r.op.Eq? && r.left == Bool(false) then r.right
      else if r.Binary? && r.op.Or? then AndCreate(IsZero(r.left), IsZero(r.right))
      else EqAlloc(c, r)
    else if r.SExt? then
      PositiveWidth(r.src);
      var t := ConstZExt(c, Width(r.src));
      if c == ConstSExt(t, c.bits) then EqCreate(r.src, t) else Bool(false)
    else if r.ZExt? then
      PositiveWidth(r.src);
      var t := ConstZExt(c, Width(r.src));
      if c == ConstZExt(t, c.bits) then EqCreate(r.src, t) else Bool(false)
    else if r.Binary? && r.op.Add? && r.left.Constant? then
      EqPartialR(ConstBinary(Sub, c, r.left), r.right)
    else if r.Binary? && r.op.Sub? && r.left.Constant? then
      EqPartialR(ConstBinary(Sub, r.left, c), r.right)
    else EqAlloc(c, r)
  }

  lemma {:induction false} EqAllocValue(l: Expr, r: Expr, a: Assignment)
    requires Operands(l, r)
    ensures Holds(EqAlloc(l, r), a) <==> Eval(l, a) == Eval(r, a)
  {
    EvalBound(l, a);
    EvalBound(r, a);
    assert Holds(Binary(Eq, l, r), a) <==> Eval(l, a) == Eval(r, a);
  }

  lemma {:induction false} EqValue(l: Expr, r: Expr, a: Assignment)
    requires Operands(l, r)
    ensures Holds(EqCreate(l, r), a) <==> Eval(l, a) == Eval(r, a)
    decreases Weight(l) + Weight(r), 0
  {
    if l.Constant? && r.Constant? {
      assert EqCreate(l, r) == ConstBinary(Eq, l, r);
    } else if l.Constant? {
      EqPartialRValue(l, r, a);
      assert EqCreate(l, r) == EqPartialR(l, r);
    } else if r.Constant? {
      EqPartialRValue(r, l, a);
      assert EqCreate(l, r) == EqPartialR(r, l);
    } else {
      EqAllocValue(l, r, a);
      assert EqCreate(l, r) == EqAlloc(l, r);
    }
  }

  lemma {:induction false} IsZeroValue(e: Expr, a: Assignment)
    requires WellTyped(e)
    ensures Holds(IsZero(e), a) <==> Eval(e, a) == 0
    decreases 1 + Weight(e), 1
  {
    PositiveWidth(e);
    EqValue(e, Constant(0, Width(e)), a);
  }

  lemma {:induction false} EqPartialRValue(c: Expr, r: Expr, a: Assignment)
    requires c.Constant? && Operands(c, r)
    ensures Holds(EqPartialR(c, r), a) <==> c.value == Eval(r, a)
    decreases Weight(r), 1
  {
    if c.bits == 1 {
      EqBoolValue(c, r, a);
    } else if r.SExt? {
      EqThroughSExt(c, r, a);
    } else if r.ZExt? {
      EqThroughZExt(c, r, a);
    } else if r.Binary? && (r.op.Add? || r.op.Sub?) && r.left.Constant? {
      EqThroughSum(c, r, a);
    } else {
      EqAllocValue(c, r, a);
      assert EqPartialR(c, r) == EqAlloc(c, r);
    }
  }

  lemma {:induction false} EqBoolValue(c: Expr, r: Expr, a: Assignment)
    requires c.Constant? && Operands(c, r) && c.bits == 1
    ensures Holds(EqPartialR(c, r), a) <==> c.value == Eval(r, a)
    decreases Weight(r), 0, 1
  {
    BoolValue(r, a);
    BoolValue(c, a);
    if c.value == 1 {
      assert EqPartialR(c, r) == r;
    } else if r.Binary? && r.op.Eq? && r.left == Bool(false) {
      DoubleNegation(r.right, a);
      assert EqPartialR(c, r) == r.right;
    } else if r.Binary? && r.op.Or? {
      DeMorgan(r.left, r.right, a);
      assert EqPartialR(c, r) == AndCreate(IsZero(r.left), IsZero(r.right));
    } else {
      EqAllocValue(c, r, a);
      assert EqPartialR(c, r) == EqAlloc(c, r);
    }
  }

  lemma {:induction false} DoubleNegation(e: Expr, a: Assignment)
    requires IsBool(e)
    ensures Eval(Binary(Eq, Bool(false), e), a) == 0 <==> Holds(e, a)
  {
    BoolValue(e, a);
    BoolValue(Bool(false), a);
    EvalBound(e, a);
    EvalBound(Bool(false), a);
  }

  lemma {:induction false} DeMorgan(p: Expr, q: Expr, a: Assignment)
    requires IsBool(p) && IsBool(q)
    ensures Holds(AndCreate(IsZero(p), IsZero(q)), a) <==> Eval(Binary(Or, p, q), a) == 0
    decreases 3 + Weight(p) + Weight(q), 0, 0
  {
    IsZeroValue(p, a);
    IsZeroValue(q, a);
    AndValue(IsZero(p), IsZero(q), a);
    TwoBits(IsZero(p), IsZero(q), a);
    OrOfBools(p, q, a);
  }

  lemma {:induction false} OrOfBools(p: Expr, q: Expr, a: Assignment)
    requires IsBool(p) && IsBool(q)
    ensures Eval(Binary(Or, p, q), a) == 0 <==> Eval(p, a) == 0 && Eval(q, a) == 0
  {
    EvalBound(p, a);
    EvalBound(q, a);
    TwoBits(p, q, a);
  }

  lemma {:induction false} TwoBits(p: Expr, q: Expr, a: Assignment)
    requires IsBool(p) && IsBool(q)
    ensures Bits.BitAnd(Eval(p, a), Eval(q, a)) == FromBool(Holds(p, a) && Holds(q, a))
    ensures Bits.BitOr(Eval(p, a), Eval(q, a)) == FromBool(Holds(p, a) || Holds(q, a))
    ensures Bits.BitXor(Eval(p, a), Eval(q, a)) == FromBool(Holds(p, a) != Holds(q, a))
    ensures !Holds(p, a) <==> Eval(p, a) == 0
    ensures !Holds(q, a) <==> Eval(q, a) == 0
  {
    BoolValue(p, a);
    BoolValue(q, a);
    Bits.SingleBits(Eval(p, a), Eval(q, a));
  }

  lemma {:induction false} EqThroughSum(c: Expr, r: Expr, a: Assignment)
    requires c.Constant? && Operands(c, r) && c.bits != 1
    requires r.Binary? && (r.op.Add? || r.op.Sub?) && r.left.Constant?
    ensures Holds(EqPartialR(c, r), a) <==> c.value == Eval(r, a)
    decreases Weight(r), 0
  {
    var moved := if r.op.Add? then ConstBinary(Sub, c, r.left) else ConstBinary(Sub, r.left, c);
    EqPartialRValue(moved, r.right, a);
    EvalBound(r.right, a);
    assert moved.value == Eval(r.right, a) <==> c.value == Eval(r, a);
  }

  lemma {:induction false} EqThroughSExt(c: Expr, r: Expr, a: Assignment)
    requires c.Constant? && Operands(c, r) && r.SExt? && c.bits != 1
    ensures Holds(EqPartialR(c, r), a) <==> c.value == Eval(r, a)
    decreases Weight(r), 0
  {
    var from, to, s := Width(r.src), c.bits, Eval(r.src, a);
    PositiveWidth(r.src);
    EvalBound(r.src, a);
    var t := ConstZExt(c, from);
    Bits.Pow2Monotone(from, to);
    Bits.SignExtendTruncates(s, from, to);
    if c == ConstSExt(t, to) {
      Bits.SignExtendTruncates(t.value, from, to);
      EqValue(r.src, t, a);
    }
  }

  lemma {:induction false} EqThroughZExt(c: Expr, r: Expr, a: Assignment)
    requires c.Constant? && Operands(c, r) && r.ZExt? && c.bits != 1
    ensures Holds(EqPartialR(c, r), a) <==> c.value == Eval(r, a)
    decreases Weight(r), 0
  {
    var from, to, s := Width(r.src), c.bits, Eval(r.src, a);
    PositiveWidth(r.src);
    EvalBound(r.src, a);
    var t := ConstZExt(c, from);
    Bits.Pow2Monotone(from, to);
    Bits.TruncWhole(s, from);
    Bits.TruncWhole(t.value, to);
    if c == ConstZExt(t, to) {
      EqValue(r.src, t, a);
    }
  }

  // --- Xor -----------------------------------------------------------------------------

  function XorPartialR(c: Expr, r: Expr): (e: Expr)
    requires c.Constant? && Operands(c, r)
    ensures WellTyped(e) && Width(e) == Width(r)
    ensures Weight(e) <= 2 + Weight(r)
  {
    if c.value == 0 then r
    else if c.bits == 1 then EqPartialR(Bool(false), r)
    else Binary(Xor, c, r)
  }

  function XorCreate(l: Expr, r: Expr): (e: Expr)
    requires Operands(l, r)
    ensures WellTyped(e) && Width(e) == Width(l)
    ensures Weight(e) <= 1 + Weight(l) + Weight(r)
  {
    if l.Constant? && r.Constant? then ConstBinary(Xor, l, r)
    else if l.Constant? then XorPartialR(l, r)
    else if r.Constant? then XorPartialR(r, l)
    else Binary(Xor, l, r)
  }

  lemma {:induction false} XorPartialRValue(c: Expr, r: Expr, a: Assignment)
    requires c.Constant? && Operands(c, r)
    ensures Eval(XorPartialR(c, r), a) == Bits.BitXor(c.value, Eval(r, a))
  {
    if c.value == 0 {
      assert XorPartialR(c, r) == r;
    } else if c.bits == 1 {
      EqPartialRValue(Bool(false), r, a);
      BoolValue(EqPartialR(Bool(false), r), a);
      TwoBits(c, r, a);
    } else {
      EvalBound(r, a);
      assert Eval(Binary(Xor, c, r), a) == Bits.BitXor(c.value, Eval(r, a));
    }
  }

  lemma {:induction false} XorValue(l: Expr, r: Expr, a: Assignment)
    requires Operands(l, r)
    ensures Eval(XorCreate(l, r), a) == Bits.BitXor(Eval(l, a), Eval(r, a))
  {
    if l.Constant? && !r.Constant? {
      XorPartialRValue(l, r, a);
    } else if r.Constant? && !l.Constant? {
      XorPartialRValue(r, l, a);
      Bits.BitwiseCommute(Eval(l, a), Eval(r, a));
    } else {
      EvalBound(l, a);
      EvalBound(r, a);
      assert Eval(Binary(Xor, l, r), a) == Bits.BitXor(Eval(l, a), Eval(r, a));
    }
  }

  /** The Boolean connectives on what the constructors return. */
  lemma {:induction false} Connectives(l: Expr, r: Expr, a: Assignment)
    requires IsBool(l) && IsBool(r)
    ensures Holds(AndCreate(l, r), a) <==> Holds(l, a) && Holds(r, a)
    ensures Holds(OrCreate(l, r), a) <==> Holds(l, a) || Holds(r, a)
    ensures Holds(XorCreate(l, r), a) <==> Holds(l, a) != Holds(r, a)
    ensures Holds(IsZero(l), a) <==> !Holds(l, a)
  {
    hide Eval, AndCreate, OrCreate, XorCreate, IsZero, WellTyped, Width, Weight;
    AndValue(l, r, a);
    OrValue(l, r, a);
    XorValue(l, r, a);
    IsZeroValue(l, a);
    TwoBits(l, r, a);
  }
}
