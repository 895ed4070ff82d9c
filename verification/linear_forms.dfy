/** The mutually recursive Add and Sub constructors, which hoist the constant of a linear
    formula to the left operand of its root. */
module LinearForms {
  import Bits
  import opened Exprs
  import opened Booleans

  /** k + x with a constant k. */
  predicate IsConstPlus(e: Expr) {
    e.Binary? && e.op.Add? && e.left.Constant?
  }

  /** k - x with a constant k. */
  predicate IsConstMinus(e: Expr) {
    e.Binary? && e.op.Sub? && e.left.Constant?
  }

  /** Constants on the left are handled first, constants on the right are moved there. */
  function Rank(l: Expr, r: Expr): (n: nat) {
    if l.Constant? then 0 else if r.Constant? then 1 else 2
  }

  /** What every linear constructor promises about its result. */
  predicate Formed(e: Expr, l: Expr, r: Expr) {
    && WellTyped(e) && Width(e) == Width(l)
    && Weight(e) <= 1 + Weight(l) + Weight(r)
    && (1 < Width(l) ==> Size(e) <= 1 + Size(l) + Size(r))
  }

  // --- The constructors -------------------------------------------------------------------

  function AddCreate(l: Expr, r: Expr): (e: Expr)
    requires Operands(l, r)
    ensures Formed(e, l, r)
    decreases Weight(l) + Weight(r), Rank(l, r), 1
  {
    if l.Constant? && r.Constant? then ConstBinary(Add, l, r)
    else if l.Constant? then AddPartialR(l, r)
    else if r.Constant? then AddPartialR(r, l)
    else AddBoth(l, r)
  }

  function AddPartialR(c: Expr, r: Expr): (e: Expr)
    requires c.Constant? && Operands(c, r)
    ensures Formed(e, c, r)
    decreases 1 + Weight(r), 0, 0
  {
    if c.bits == 1 then XorPartialR(c, r)
    else if c.value == 0 then r
    else if IsConstPlus(r) then AddCreate(ConstBinary(Add, c, r.left), r.right)
    else if IsConstMinus(r) then SubCreate(ConstBinary(Add, c, r.left), r.right)
    else Binary(Add, c, r)
  }

  function AddBoth(l: Expr, r: Expr): (e: Expr)
    requires Operands(l, r) && !l.Constant? && !r.Constant?
    ensures Formed(e, l, r)
    decreases Weight(l) + Weight(r), 2, 0
  {
    if Width(l) == 1 then XorCreate(l, r)
    else if IsConstPlus(l) then AddCreate(l.left, AddCreate(l.right, r))
    else if IsConstMinus(l) then AddCreate(l.left, SubCreate(r, l.right))
    else if IsConstPlus(r) then AddCreate(r.left, AddCreate(l, r.right))
    else if IsConstMinus(r) then AddCreate(r.left, SubCreate(l, r.right))
    else Binary(Add, l, r)
  }

  function SubCreate(l: Expr, r: Expr): (e: Expr)
    requires Operands(l, r)
    ensures Formed(e, l, r)
    decreases Weight(l) + Weight(r), Rank(l, r), 1
  {
    if l.Constant? && r.Constant? then ConstBinary(Sub, l, r)
    else if l.Constant? then SubPartialR(l, r)
    else if r.Constant? then AddPartialR(ConstBinary(Sub, Constant(0, r.bits), r), l)
    else SubBoth(l, r)
  }

  function SubPartialR(c: Expr, r: Expr): (e: Expr)
    requires c.Constant? && Operands(c, r)
    ensures Formed(e, c, r)
    decreases 1 + Weight(r), 0, 0
  {
    if c.bits == 1 then XorPartialR(c, r)
    else if IsConstPlus(r) then SubCreate(ConstBinary(Sub, c, r.left), r.right)
    else if IsConstMinus(r) then AddCreate(ConstBinary(Sub, c, r.left), r.right)
    else Binary(Sub, c, r)
  }

  function SubBoth(l: Expr, r: Expr): (e: Expr)
    requires Operands(l, r) && !l.Constant? && !r.Constant?
    ensures Formed(e, l, r)
    decreases Weight(l) + Weight(r), 2, 0
  {
    PositiveWidth(l);
    if Width(l) == 1 then XorCreate(l, r)
    else if l == r then Constant(0, Width(l))
    else if IsConstPlus(l) || IsConstMinus(l) then SubHoistLeft(l, r)
    else if IsConstPlus(r) || IsConstMinus(r) then SubHoistRight(l, r)
    else Binary(Sub, l, r)
  }

  function SubHoistLeft(l: Expr, r: Expr): (e: Expr)
    requires Operands(l, r) && 1 < Width(l) && (IsConstPlus(l) || IsConstMinus(l)) && !r.Constant?
    ensures Formed(e, l, r)
    decreases Weight(l) + Weight(r), 1, 2
  {
    if IsConstPlus(l) then AddCreate(l.left, SubCreate(l.right, r))
    else SubCreate(l.left, AddCreate(l.right, r))
  }

  function SubHoistRight(l: Expr, r: Expr): (e: Expr)
    requires Operands(l, r) && 1 < Width(l) && (IsConstPlus(r) || IsConstMinus(r)) && !l.Constant?
    ensures Formed(e, l, r)
    decreases Weight(l) + Weight(r), 1, 2
  {
    if IsConstPlus(r) then SubCreate(SubCreate(l, r.right), r.left)
    else SubCreate(AddCreate(l, r.right), r.left)
  }

  // --- They compute sums and differences ----------------------------------------------------

  /** On Booleans both operations are exclusive or. */
  lemma {:induction false} BooleanSum(x: nat, y: nat)
    requires x < 2 && y < 2
    ensures Bits.Pow2(1) == 2
    ensures Bits.AddMod(x, y, 1) == Bits.SubMod(x, y, 1) == Bits.BitXor(x, y)
  {
    Bits.Pow2Double(0);
    Bits.SingleBits(x, y);
  }

  lemma {:induction false} SumNode(l: Expr, r: Expr, a: Assignment)
    requires Operands(l, r)
    ensures Eval(r, a) < Bits.Pow2(Width(l))
    ensures Eval(Binary(Add, l, r), a) == Bits.AddMod(Eval(l, a), Eval(r, a), Width(l))
    ensures Eval(Binary(Sub, l, r), a) == Bits.SubMod(Eval(l, a), Eval(r, a), Width(l))
  {
    EvalBound(l, a);
    EvalBound(r, a);
  }

  lemma {:induction false} AddValue(l: Expr, r: Expr, a: Assignment)
    requires Operands(l, r)
    ensures Eval(AddCreate(l, r), a) == Bits.AddMod(Eval(l, a), Eval(r, a), Width(l))
    decreases Weight(l) + Weight(r), Rank(l, r), 1
  {
    EvalBound(l, a);
    EvalBound(r, a);
    if l.Constant? {
      if !r.Constant? {
        AddPartialRValue(l, r, a);
      }
    } else if r.Constant? {
      AddPartialRValue(r, l, a);
    } else {
      AddBothValue(l, r, a);
    }
  }

  lemma {:induction false} AddPartialRValue(c: Expr, r: Expr, a: Assignment)
    requires c.Constant? && Operands(c, r)
    ensures Eval(AddPartialR(c, r), a) == Bits.AddMod(c.value, Eval(r, a), c.bits)
    decreases 1 + Weight(r), 0, 0
  {
    EvalBound(r, a);
    if c.bits == 1 {
      BooleanSum(0, 0);
      BooleanSum(c.value, Eval(r, a));
      XorPartialRValue(c, r, a);
    } else if c.value == 0 {
    } else if IsConstPlus(r) {
      EvalBound(r.right, a);
      AddValue(ConstBinary(Add, c, r.left), r.right, a);
      Bits.AddLaws(c.value, r.left.value, Eval(r.right, a), c.bits);
    } else if IsConstMinus(r) {
      EvalBound(r.right, a);
      SubValue(ConstBinary(Add, c, r.left), r.right, a);
      Bits.AddSubLaws(c.value, r.left.value, Eval(r.right, a), c.bits);
    }
  }

  lemma {:induction false} AddBothValue(l: Expr, r: Expr, a: Assignment)
    requires Operands(l, r) && !l.Constant? && !r.Constant?
    ensures Eval(AddBoth(l, r), a) == Bits.AddMod(Eval(l, a), Eval(r, a), Width(l))
    decreases Weight(l) + Weight(r), 2, 0
  {
    EvalBound(l, a);
    EvalBound(r, a);
    PositiveWidth(l);
    if Width(l) == 1 {
      BooleanSum(0, 0);
      BooleanSum(Eval(l, a), Eval(r, a));
      XorValue(l, r, a);
      assert AddBoth(l, r) == XorCreate(l, r);
    } else if IsConstPlus(l) || IsConstMinus(l) {
      HoistFromLeftOfAdd(l, r, a);
    } else if IsConstPlus(r) || IsConstMinus(r) {
      HoistFromRightOfAdd(l, r, a);
    } else {
      assert AddBoth(l, r) == Binary(Add, l, r);
      SumNode(l, r, a);
    }
  }

  lemma {:induction false} HoistFromLeftOfAdd(l: Expr, r: Expr, a: Assignment)
    requires Operands(l, r) && !r.Constant? && 1 < Width(l) && (IsConstPlus(l) || IsConstMinus(l))
    ensures Eval(AddBoth(l, r), a) == Bits.AddMod(Eval(l, a), Eval(r, a), Width(l))
    decreases Weight(l) + Weight(r), 1, 2
  {
    EvalBound(r, a);
    EvalBound(l.right, a);
    var k, x, y, w := l.left.value, Eval(l.right, a), Eval(r, a), Width(l);
    if IsConstPlus(l) {
      AddValue(l.right, r, a);
      AddValue(l.left, AddCreate(l.right, r), a);
      Bits.AddLaws(k, x, y, w);
    } else {
      SubValue(r, l.right, a);
      AddValue(l.left, SubCreate(r, l.right), a);
      Bits.SubAddLaws(k, x, y, w);
    }
  }

  lemma {:induction false} HoistFromRightOfAdd(l: Expr, r: Expr, a: Assignment)
    requires Operands(l, r) && !l.Constant? && 1 < Width(l) && (IsConstPlus(r) || IsConstMinus(r))
    requires !IsConstPlus(l) && !IsConstMinus(l)
    ensures Eval(AddBoth(l, r), a) == Bits.AddMod(Eval(l, a), Eval(r, a), Width(l))
    decreases Weight(l) + Weight(r), 1, 2
  {
    EvalBound(l, a);
    EvalBound(r.left, a);
    EvalBound(r.right, a);
    var k, x, y, w := r.left.value, Eval(l, a), Eval(r.right, a), Width(l);
    Bits.AddLaws(x, k, y, w);
    if IsConstPlus(r) {
      AddValue(l, r.right, a);
      AddValue(r.left, AddCreate(l, r.right), a);
      Bits.AddLaws(k, x, y, w);
    } else {
      SubValue(l, r.right, a);
      AddValue(r.left, SubCreate(l, r.right), a);
      Bits.AddSubLaws(x, k, y, w);
      Bits.AddSubLaws(k, x, y, w);
    }
  }

  lemma {:induction false} SubValue(l: Expr, r: Expr, a: Assignment)
    requires Operands(l, r)
    ensures Eval(r, a) < Bits.Pow2(Width(l))
    ensures Eval(SubCreate(l, r), a) == Bits.SubMod(Eval(l, a), Eval(r, a), Width(l))
    decreases Weight(l) + Weight(r), Rank(l, r), 1
  {
    EvalBound(l, a);
    EvalBound(r, a);
    if l.Constant? {
      if !r.Constant? {
        SubPartialRValue(l, r, a);
      }
    } else if r.Constant? {
      AddPartialRValue(ConstBinary(Sub, Constant(0, r.bits), r), l, a);
      Bits.NegLaw(Eval(l, a), r.value, r.bits);
    } else {
      SubBothValue(l, r, a);
    }
  }

  lemma {:induction false} SubPartialRValue(c: Expr, r: Expr, a: Assignment)
    requires c.Constant? && Operands(c, r)
    ensures Eval(r, a) < Bits.Pow2(c.bits)
    ensures Eval(SubPartialR(c, r), a) == Bits.SubMod(c.value, Eval(r, a), c.bits)
    decreases 1 + Weight(r), 0, 0
  {
    EvalBound(r, a);
    if c.bits == 1 {
      BooleanSum(0, 0);
      BooleanSum(c.value, Eval(r, a));
      XorPartialRValue(c, r, a);
    } else if IsConstPlus(r) {
      EvalBound(r.right, a);
      SubValue(ConstBinary(Sub, c, r.left), r.right, a);
      Bits.SubSubLaws(c.value, r.left.value, Eval(r.right, a), c.bits);
    } else if IsConstMinus(r) {
      EvalBound(r.right, a);
      AddValue(ConstBinary(Sub, c, r.left), r.right, a);
      Bits.SubAddLaws(c.value, r.left.value, Eval(r.right, a), c.bits);
    }
  }

  lemma {:induction false} SubBothValue(l: Expr, r: Expr, a: Assignment)
    requires Operands(l, r) && !l.Constant? && !r.Constant?
    ensures Eval(r, a) < Bits.Pow2(Width(l))
    ensures Eval(SubBoth(l, r), a) == Bits.SubMod(Eval(l, a), Eval(r, a), Width(l))
    decreases Weight(l) + Weight(r), 2, 0
  {
    EvalBound(l, a);
    EvalBound(r, a);
    PositiveWidth(l);
    if Width(l) == 1 {
      BooleanSum(0, 0);
      BooleanSum(Eval(l, a), Eval(r, a));
      XorValue(l, r, a);
      assert SubBoth(l, r) == XorCreate(l, r);
    } else if l == r {
      assert SubBoth(l, r) == Constant(0, Width(l));
    } else if IsConstPlus(l) || IsConstMinus(l) {
      HoistFromLeftOfSub(l, r, a);
    } else if IsConstPlus(r) || IsConstMinus(r) {
      HoistFromRightOfSub(l, r, a);
    } else {
      assert SubBoth(l, r) == Binary(Sub, l, r);
      SumNode(l, r, a);
    }
  }

  lemma {:induction false} HoistFromLeftOfSub(l: Expr, r: Expr, a: Assignment)
    requires Operands(l, r) && !r.Constant? && 1 < Width(l) && l != r && (IsConstPlus(l) || IsConstMinus(l))
    ensures Eval(r, a) < Bits.Pow2(Width(l))
    ensures Eval(SubBoth(l, r), a) == Bits.SubMod(Eval(l, a), Eval(r, a), Width(l))
    decreases Weight(l) + Weight(r), 1, 2
  {
    EvalBound(r, a);
    EvalBound(l.right, a);
    var k, x, y, w := l.left.value, Eval(l.right, a), Eval(r, a), Width(l);
    if IsConstPlus(l) {
      SubValue(l.right, r, a);
      AddValue(l.left, SubCreate(l.right, r), a);
      Bits.AddSubLaws(k, x, y, w);
    } else {
      AddValue(l.right, r, a);
      SubValue(l.left, AddCreate(l.right, r), a);
      Bits.SubSubLaws(k, x, y, w);
    }
  }

  lemma {:induction false} HoistFromRightOfSub(l: Expr, r: Expr, a: Assignment)
    requires Operands(l, r) && !l.Constant? && 1 < Width(l) && l != r && (IsConstPlus(r) || IsConstMinus(r))
    requires !IsConstPlus(l) && !IsConstMinus(l)
    ensures Eval(r, a) < Bits.Pow2(Width(l))
    ensures Eval(SubBoth(l, r), a) == Bits.SubMod(Eval(l, a), Eval(r, a), Width(l))
    decreases Weight(l) + Weight(r), 1, 2
  {
    EvalBound(l, a);
    EvalBound(r, a);
    EvalBound(r.right, a);
    var k, x, y, w := r.left.value, Eval(l, a), Eval(r.right, a), Width(l);
    if IsConstPlus(r) {
      SubValue(l, r.right, a);
      SubValue(SubCreate(l, r.right), r.left, a);
      Bits.SubSubLaws(x, k, y, w);
    } else {
      AddValue(l, r.right, a);
      SubValue(AddCreate(l, r.right), r.left, a);
      Bits.SubAddLaws(x, k, y, w);
      Bits.AddSubLaws(x, y, k, w);
    }
  }

  // --- The hoisted normal form ------------------------------------------------------------------

  predicate IsLinear(e: Expr) {
    e.Binary? && (e.op.Add? || e.op.Sub?)
  }

  /** No constant anywhere in the spine of sums and differences. */
  predicate SpineFree(e: Expr) {
    !e.Constant? && (IsLinear(e) ==> SpineFree(e.left) && SpineFree(e.right))
  }

  /** A constant occurs in the spine only as the left operand of its root. */
  predicate Hoisted(e: Expr) {
    e.Constant? || SpineFree(e) || (IsLinear(e) && e.left.Constant? && SpineFree(e.right))
  }

  lemma {:induction false} AddHoisted(l: Expr, r: Expr)
    requires Operands(l, r) && 1 < Width(l) && Hoisted(l) && Hoisted(r)
    ensures Hoisted(AddCreate(l, r))
    ensures l.Constant? != r.Constant? ==> !AddCreate(l, r).Constant?
    decreases Weight(l) + Weight(r), Rank(l, r), 1
  {
    if l.Constant? {
      if !r.Constant? {
        AddPartialRHoisted(l, r);
      }
    } else if r.Constant? {
      AddPartialRHoisted(r, l);
    } else {
      AddBothHoisted(l, r);
    }
  }

  lemma {:induction false} AddBothHoisted(l: Expr, r: Expr)
    requires Operands(l, r) && 1 < Width(l) && Hoisted(l) && Hoisted(r) && !l.Constant? && !r.Constant?
    ensures Hoisted(AddBoth(l, r))
    decreases Weight(l) + Weight(r), 2, 0
  {
    if IsConstPlus(l) {
      AddHoisted(l.right, r);
      AddHoisted(l.left, AddCreate(l.right, r));
    } else if IsConstMinus(l) {
      SubHoisted(r, l.right);
      AddHoisted(l.left, SubCreate(r, l.right));
    } else if IsConstPlus(r) {
      AddHoisted(l, r.right);
      AddHoisted(r.left, AddCreate(l, r.right));
    } else if IsConstMinus(r) {
      SubHoisted(l, r.right);
      AddHoisted(r.left, SubCreate(l, r.right));
    } else {
      assert SpineFree(Binary(Add, l, r));
    }
  }

  lemma {:induction false} AddPartialRHoisted(c: Expr, r: Expr)
    requires c.Constant? && Operands(c, r) && 1 < c.bits && Hoisted(r) && !r.Constant?
    ensures Hoisted(AddPartialR(c, r)) && !AddPartialR(c, r).Constant?
    decreases 1 + Weight(r), 0, 0
  {
    assert IsConstPlus(r) || IsConstMinus(r) ==> SpineFree(r.right) && !r.right.Constant? by {
      if IsConstPlus(r) || IsConstMinus(r) {
        assert !SpineFree(r);
      }
    }
    if c.value == 0 {
      assert AddPartialR(c, r) == r;
    } else if IsConstPlus(r) {
      AddHoisted(ConstBinary(Add, c, r.left), r.right);
      assert AddPartialR(c, r) == AddCreate(ConstBinary(Add, c, r.left), r.right);
    } else if IsConstMinus(r) {
      SubHoisted(ConstBinary(Add, c, r.left), r.right);
      assert AddPartialR(c, r) == SubCreate(ConstBinary(Add, c, r.left), r.right);
    } else {
      assert SpineFree(r);
      assert AddPartialR(c, r) == Binary(Add, c, r);
    }
  }

  lemma {:induction false} SubHoisted(l: Expr, r: Expr)
    requires Operands(l, r) && 1 < Width(l) && Hoisted(l) && Hoisted(r)
    ensures Hoisted(SubCreate(l, r))
    ensures l.Constant? != r.Constant? ==> !SubCreate(l, r).Constant?
    decreases Weight(l) + Weight(r), Rank(l, r), 1
  {
    if l.Constant? {
      if !r.Constant? {
        SubPartialRHoisted(l, r);
      }
    } else if r.Constant? {
      AddPartialRHoisted(ConstBinary(Sub, Constant(0, r.bits), r), l);
    } else {
      SubBothHoisted(l, r);
    }
  }

  lemma {:induction false} SubPartialRHoisted(c: Expr, r: Expr)
    requires c.Constant? && Operands(c, r) && 1 < c.bits && Hoisted(r) && !r.Constant?
    ensures Hoisted(SubPartialR(c, r)) && !SubPartialR(c, r).Constant?
    decreases 1 + Weight(r), 0, 0
  {
    assert IsConstPlus(r) || IsConstMinus(r) ==> SpineFree(r.right) && !r.right.Constant? by {
      if IsConstPlus(r) || IsConstMinus(r) {
        assert !SpineFree(r);
      }
    }
    if IsConstPlus(r) {
      SubHoisted(ConstBinary(Sub, c, r.left), r.right);
      assert SubPartialR(c, r) == SubCreate(ConstBinary(Sub, c, r.left), r.right);
    } else if IsConstMinus(r) {
      AddHoisted(ConstBinary(Sub, c, r.left), r.right);
      assert SubPartialR(c, r) == AddCreate(ConstBinary(Sub, c, r.left), r.right);
    } else {
      assert SpineFree(r);
      assert SubPartialR(c, r) == Binary(Sub, c, r);
    }
  }

  lemma {:induction false} SubBothHoisted(l: Expr, r: Expr)
    requires Operands(l, r) && 1 < Width(l) && Hoisted(l) && Hoisted(r) && !l.Constant? && !r.Constant?
    ensures Hoisted(SubBoth(l, r))
    decreases Weight(l) + Weight(r), 2, 0
  {
    if l == r {
      assert SubBoth(l, r).Constant?;
    } else if IsConstPlus(l) {
      SubHoisted(l.right, r);
      AddHoisted(l.left, SubCreate(l.right, r));
    } else if IsConstMinus(l) {
      AddHoisted(l.right, r);
      SubHoisted(l.left, AddCreate(l.right, r));
    } else if IsConstPlus(r) {
      SubHoisted(l, r.right);
      SubHoisted(SubCreate(l, r.right), r.left);
    } else if IsConstMinus(r) {
      AddHoisted(l, r.right);
      SubHoisted(AddCreate(l, r.right), r.left);
    } else {
      assert SpineFree(Binary(Sub, l, r));
    }
  }
}
