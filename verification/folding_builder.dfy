/** The constant-folding expression builder: its Add and Sub rules, with constants allowed
    on either side of a sum. */
module FoldingBuilder {
  import Bits
  import opened Exprs
  import opened Booleans
  import opened LinearForms

  predicate IsAdd(e: Expr) {
    e.Binary? && e.op.Add?
  }

  predicate IsSub(e: Expr) {
    e.Binary? && e.op.Sub?
  }

  function Negated(c: Expr): (n: Expr)
    requires c.Constant? && WellTyped(c)
    ensures n.Constant? && WellTyped(n) && Width(n) == Width(c)
    ensures Bits.SubMod(0, c.value, c.bits) == n.value
  {
    ConstBinary(Sub, Constant(0, c.bits), c)
  }

  /** What a rule promises about its result. */
  predicate Built(e: Expr, l: Expr, r: Expr) {
    WellTyped(e) && Width(e) == Width(l) && Size(e) <= 1 + Size(l) + Size(r)
  }

  function BuildAdd(l: Expr, r: Expr): (e: Expr)
    requires Operands(l, r)
    ensures Built(e, l, r)
    decreases Size(l) + Size(r), Rank(l, r), Size(l), 1
  {
    if l.Constant? && r.Constant? then ConstBinary(Add, l, r)
    else if l.Constant? then AddToConstant(l, r)
    else if r.Constant? then AddToConstant(r, l)
    else AddTerms(l, r)
  }

  function AddToConstant(c: Expr, r: Expr): (e: Expr)
    requires c.Constant? && Operands(c, r) && !r.Constant?
    ensures Built(e, c, r)
    decreases 1 + Size(r), 0, 0, 0
  {
    if c.value == 0 then r
    else if IsAdd(r) && r.left.Constant? then BuildAdd(ConstBinary(Add, c, r.left), r.right)
    else if IsAdd(r) && r.right.Constant? then BuildAdd(ConstBinary(Add, c, r.right), r.left)
    else if IsSub(r) && r.left.Constant? then BuildSub(ConstBinary(Add, c, r.left), r.right)
    else if IsSub(r) && r.right.Constant? then BuildAdd(ConstBinary(Sub, c, r.right), r.left)
    else Binary(Add, c, r)
  }

  function AddTerms(l: Expr, r: Expr): (e: Expr)
    requires Operands(l, r) && !l.Constant? && !r.Constant?
    ensures Built(e, l, r)
    decreases Size(l) + Size(r), 2, Size(l), 0
  {
    if IsAdd(l) then BuildAdd(l.left, BuildAdd(l.right, r))
    else if IsSub(l) then BuildAdd(l.left, BuildSub(r, l.right))
    else if IsAdd(r) || IsSub(r) then AddPulled(l, r)
    else Binary(Add, l, r)
  }

  function AddPulled(l: Expr, r: Expr): (e: Expr)
    requires Operands(l, r) && !l.Constant? && (IsAdd(r) || IsSub(r))
    ensures Built(e, l, r)
    decreases Size(l) + Size(r), 2, Size(l), -1
  {
    if IsAdd(r) && r.left.Constant? then BuildAdd(r.left, BuildAdd(l, r.right))
    else if IsAdd(r) && r.right.Constant? then BuildAdd(r.right, BuildAdd(l, r.left))
    else if IsSub(r) && r.left.Constant? then BuildAdd(r.left, BuildSub(l, r.right))
    else if IsSub(r) && r.right.Constant? then BuildAdd(Negated(r.right), BuildAdd(l, r.left))
    else Binary(Add, l, r)
  }

  function BuildSub(l: Expr, r: Expr): (e: Expr)
    requires Operands(l, r)
    ensures Built(e, l, r)
    decreases Size(l) + Size(r), Rank(l, r), Size(l), 1
  {
    if l.Constant? && r.Constant? then ConstBinary(Sub, l, r)
    else if l.Constant? then SubFromConstant(l, r)
    else if r.Constant? then AddToConstant(Negated(r), l)
    else SubTerms(l, r)
  }

  function SubFromConstant(c: Expr, r: Expr): (e: Expr)
    requires c.Constant? && Operands(c, r) && !r.Constant?
    ensures Built(e, c, r)
    decreases 1 + Size(r), 0, 0, 0
  {
    if IsAdd(r) && r.left.Constant? then BuildSub(ConstBinary(Sub, c, r.left), r.right)
    else if IsAdd(r) && r.right.Constant? then BuildSub(ConstBinary(Sub, c, r.right), r.left)
    else if IsSub(r) && r.left.Constant? then BuildAdd(ConstBinary(Sub, c, r.left), r.right)
    else if IsSub(r) && r.right.Constant? then BuildSub(ConstBinary(Add, c, r.right), r.left)
    else Binary(Sub, c, r)
  }

  function SubTerms(l: Expr, r: Expr): (e: Expr)
    requires Operands(l, r) && !l.Constant? && !r.Constant?
    ensures Built(e, l, r)
    decreases Size(l) + Size(r), 2, Size(l), 0
  {
    if IsAdd(l) then BuildAdd(l.left, BuildSub(l.right, r))
    else if IsSub(l) then BuildSub(l.left, BuildAdd(l.right, r))
    else if IsAdd(r) && r.left.Constant? then BuildAdd(Negated(r.left), BuildSub(l, r.right))
    else if IsAdd(r) && r.right.Constant? then BuildAdd(Negated(r.right), BuildSub(l, r.left))
    else if IsSub(r) && r.left.Constant? then BuildAdd(Negated(r.left), BuildAdd(l, r.right))
    else if IsSub(r) && r.right.Constant? then BuildAdd(r.right, BuildSub(l, r.left))
    else Binary(Sub, l, r)
  }

  // --- The rules compute sums and differences -----------------------------------------------

  lemma {:induction false} BuildAddValue(l: Expr, r: Expr, a: Assignment)
    requires Operands(l, r)
    ensures Eval(BuildAdd(l, r), a) == Bits.AddMod(Eval(l, a), Eval(r, a), Width(l))
    decreases Size(l) + Size(r), Rank(l, r), Size(l), 1
  {
    EvalBound(l, a);
    EvalBound(r, a);
    Bits.AddLaws(Eval(l, a), Eval(r, a), 0, Width(l));
    if l.Constant? && r.Constant? {
      SumNode(l, r, a);
    } else if l.Constant? {
      AddToConstantValue(l, r, a);
    } else if r.Constant? {
      AddToConstantValue(r, l, a);
    } else {
      AddTermsValue(l, r, a);
    }
  }

  /** The values of a sum or difference and of its operands. */
  lemma {:induction false} Parts(e: Expr, a: Assignment)
    requires WellTyped(e) && (IsAdd(e) || IsSub(e))
    ensures Operands(e.left, e.right) && Width(e.left) == Width(e)
    ensures Eval(e.left, a) < Bits.Pow2(Width(e)) && Eval(e.right, a) < Bits.Pow2(Width(e))
    ensures IsAdd(e) ==> Eval(e, a) == Bits.AddMod(Eval(e.left, a), Eval(e.right, a), Width(e))
    ensures IsSub(e) ==> Eval(e, a) == Bits.SubMod(Eval(e.left, a), Eval(e.right, a), Width(e))
  {
    EvalBound(e.left, a);
    EvalBound(e.right, a);
  }

  lemma {:induction false} AddToConstantValue(c: Expr, r: Expr, a: Assignment)
    requires c.Constant? && Operands(c, r) && !r.Constant?
    ensures Eval(AddToConstant(c, r), a) == Bits.AddMod(c.value, Eval(r, a), c.bits)
    decreases 1 + Size(r), 0, 0, 0
  {
    EvalBound(r, a);
    if c.value == 0 {
    } else if IsAdd(r) && (r.left.Constant? || r.right.Constant?) {
      AddToConstantSum(c, r, a);
    } else if IsSub(r) && (r.left.Constant? || r.right.Constant?) {
      AddToConstantDifference(c, r, a);
    } else {
      SumNode(c, r, a);
    }
  }

  lemma {:induction false} AddToConstantSum(c: Expr, r: Expr, a: Assignment)
    requires c.Constant? && Operands(c, r) && c.value != 0 && IsAdd(r) && (r.left.Constant? || r.right.Constant?)
    ensures Eval(AddToConstant(c, r), a) == Bits.AddMod(c.value, Eval(r, a), c.bits)
    decreases Size(r), 0, 0, 1
  {
    Parts(r, a);
    var k, x := if r.left.Constant? then r.left else r.right, if r.left.Constant? then r.right else r.left;
    BuildAddValue(ConstBinary(Add, c, k), x, a);
    Bits.AddLaws(c.value, k.value, Eval(x, a), c.bits);
    Bits.AddLaws(k.value, Eval(x, a), 0, c.bits);
  }

  lemma {:induction false} AddToConstantDifference(c: Expr, r: Expr, a: Assignment)
    requires c.Constant? && Operands(c, r) && c.value != 0 && IsSub(r) && (r.left.Constant? || r.right.Constant?)
    ensures Eval(AddToConstant(c, r), a) == Bits.AddMod(c.value, Eval(r, a), c.bits)
    decreases Size(r), 0, 0, 1
  {
    Parts(r, a);
    if r.left.Constant? {
      BuildSubValue(ConstBinary(Add, c, r.left), r.right, a);
      Bits.AddSubLaws(c.value, r.left.value, Eval(r.right, a), c.bits);
    } else {
      BuildAddValue(ConstBinary(Sub, c, r.right), r.left, a);
      Bits.SubAddLaws(c.value, r.right.value, Eval(r.left, a), c.bits);
    }
  }

  lemma {:induction false} AddTermsValue(l: Expr, r: Expr, a: Assignment)
    requires Operands(l, r) && !l.Constant? && !r.Constant?
    ensures Eval(AddTerms(l, r), a) == Bits.AddMod(Eval(l, a), Eval(r, a), Width(l))
    decreases Size(l) + Size(r), 2, Size(l), 0
  {
    if IsAdd(l) || IsSub(l) {
      AddTermsReassociate(l, r, a);
    } else if IsAdd(r) && (r.left.Constant? || r.right.Constant?) {
      AddTermsPullSum(l, r, a);
    } else if IsSub(r) && (r.left.Constant? || r.right.Constant?) {
      AddTermsPullDifference(l, r, a);
    } else {
      SumNode(l, r, a);
    }
  }

  lemma {:induction false} AddTermsReassociate(l: Expr, r: Expr, a: Assignment)
    requires Operands(l, r) && !r.Constant? && (IsAdd(l) || IsSub(l))
    ensures Eval(AddTerms(l, r), a) == Bits.AddMod(Eval(l, a), Eval(r, a), Width(l))
    decreases Size(l) + Size(r), 2, Size(l), -1
  {
    Parts(l, a);
    EvalBound(r, a);
    var p, q, z, w := Eval(l.left, a), Eval(l.right, a), Eval(r, a), Width(l);
    if IsAdd(l) {
      BuildAddValue(l.right, r, a);
      BuildAddValue(l.left, BuildAdd(l.right, r), a);
      Bits.AddLaws(p, q, z, w);
    } else {
      BuildSubValue(r, l.right, a);
      BuildAddValue(l.left, BuildSub(r, l.right), a);
      Bits.SubAddLaws(p, q, z, w);
    }
  }

  lemma {:induction false} AddTermsPullSum(l: Expr, r: Expr, a: Assignment)
    requires Operands(l, r) && !l.Constant? && !IsAdd(l) && !IsSub(l)
    requires IsAdd(r) && (r.left.Constant? || r.right.Constant?)
    ensures Eval(AddTerms(l, r), a) == Bits.AddMod(Eval(l, a), Eval(r, a), Width(l))
    decreases Size(l) + Size(r), 2, Size(l), -1
  {
    Parts(r, a);
    EvalBound(l, a);
    var k, y := if r.left.Constant? then r.left else r.right, if r.left.Constant? then r.right else r.left;
    BuildAddValue(l, y, a);
    BuildAddValue(k, BuildAdd(l, y), a);
    var x, v, w := Eval(l, a), Eval(y, a), Width(l);
    Bits.AddLaws(k.value, x, v, w);
    Bits.AddLaws(x, k.value, v, w);
    Bits.AddLaws(v, k.value, 0, w);
  }

  lemma {:induction false} AddTermsPullDifference(l: Expr, r: Expr, a: Assignment)
    requires Operands(l, r) && !l.Constant? && !IsAdd(l) && !IsSub(l)
    requires IsSub(r) && (r.left.Constant? || r.right.Constant?)
    ensures Eval(AddTerms(l, r), a) == Bits.AddMod(Eval(l, a), Eval(r, a), Width(l))
    decreases Size(l) + Size(r), 2, Size(l), -1
  {
    Parts(r, a);
    EvalBound(l, a);
    var x, w := Eval(l, a), Width(l);
    if r.left.Constant? {
      var k, v := r.left.value, Eval(r.right, a);
      BuildSubValue(l, r.right, a);
      BuildAddValue(r.left, BuildSub(l, r.right), a);
      Bits.AddSubLaws(x, k, v, w);
      Bits.AddSubLaws(k, x, v, w);
      Bits.AddLaws(x, k, 0, w);
    } else {
      var k, v := r.right.value, Eval(r.left, a);
      BuildAddValue(l, r.left, a);
      BuildAddValue(Negated(r.right), BuildAdd(l, r.left), a);
      Bits.AddSubLaws(x, v, k, w);
      Bits.NegLaw(Bits.AddMod(x, v, w), k, w);
    }
  }

  lemma {:induction false} BuildSubValue(l: Expr, r: Expr, a: Assignment)
    requires Operands(l, r)
    ensures Eval(r, a) < Bits.Pow2(Width(l))
    ensures Eval(BuildSub(l, r), a) == Bits.SubMod(Eval(l, a), Eval(r, a), Width(l))
    decreases Size(l) + Size(r), Rank(l, r), Size(l), 1
  {
    EvalBound(l, a);
    EvalBound(r, a);
    if l.Constant? && r.Constant? {
      SumNode(l, r, a);
    } else if l.Constant? {
      SubFromConstantValue(l, r, a);
    } else if r.Constant? {
      AddToConstantValue(Negated(r), l, a);
      Bits.NegLaw(Eval(l, a), r.value, r.bits);
    } else {
      SubTermsValue(l, r, a);
    }
  }

  lemma {:induction false} SubFromConstantValue(c: Expr, r: Expr, a: Assignment)
    requires c.Constant? && Operands(c, r) && !r.Constant?
    ensures Eval(r, a) < Bits.Pow2(c.bits)
    ensures Eval(SubFromConstant(c, r), a) == Bits.SubMod(c.value, Eval(r, a), c.bits)
    decreases 1 + Size(r), 0, 0, 0
  {
    EvalBound(r, a);
    if IsAdd(r) && (r.left.Constant? || r.right.Constant?) {
      SubFromConstantSum(c, r, a);
    } else if IsSub(r) && (r.left.Constant? || r.right.Constant?) {
      SubFromConstantDifference(c, r, a);
    } else {
      SumNode(c, r, a);
    }
  }

  lemma {:induction false} SubFromConstantSum(c: Expr, r: Expr, a: Assignment)
    requires c.Constant? && Operands(c, r) && IsAdd(r) && (r.left.Constant? || r.right.Constant?)
    ensures Eval(r, a) < Bits.Pow2(c.bits)
    ensures Eval(SubFromConstant(c, r), a) == Bits.SubMod(c.value, Eval(r, a), c.bits)
    decreases Size(r), 0, 0, 1
  {
    EvalBound(r, a);
    Parts(r, a);
    var k, x := if r.left.Constant? then r.left else r.right, if r.left.Constant? then r.right else r.left;
    BuildSubValue(ConstBinary(Sub, c, k), x, a);
    Bits.SubSubLaws(c.value, k.value, Eval(x, a), c.bits);
    Bits.AddLaws(k.value, Eval(x, a), 0, c.bits);
  }

  lemma {:induction false} SubFromConstantDifference(c: Expr, r: Expr, a: Assignment)
    requires c.Constant? && Operands(c, r) && IsSub(r) && (r.left.Constant? || r.right.Constant?)
    ensures Eval(r, a) < Bits.Pow2(c.bits)
    ensures Eval(SubFromConstant(c, r), a) == Bits.SubMod(c.value, Eval(r, a), c.bits)
    decreases Size(r), 0, 0, 1
  {
    EvalBound(r, a);
    Parts(r, a);
    if r.left.Constant? {
      BuildAddValue(ConstBinary(Sub, c, r.left), r.right, a);
      Bits.SubAddLaws(c.value, r.left.value, Eval(r.right, a), c.bits);
    } else {
      BuildSubValue(ConstBinary(Add, c, r.right), r.left, a);
      Bits.SubAddLaws(c.value, Eval(r.left, a), r.right.value, c.bits);
      Bits.AddSubLaws(c.value, r.right.value, Eval(r.left, a), c.bits);
    }
  }

  lemma {:induction false} SubTermsValue(l: Expr, r: Expr, a: Assignment)
    requires Operands(l, r) && !l.Constant? && !r.Constant?
    ensures Eval(r, a) < Bits.Pow2(Width(l))
    ensures Eval(SubTerms(l, r), a) == Bits.SubMod(Eval(l, a), Eval(r, a), Width(l))
    decreases Size(l) + Size(r), 2, Size(l), 0
  {
    EvalBound(r, a);
    if IsAdd(l) || IsSub(l) {
      SubTermsReassociate(l, r, a);
    } else if IsAdd(r) && (r.left.Constant? || r.right.Constant?) {
      SubTermsPullSum(l, r, a);
    } else if IsSub(r) && (r.left.Constant? || r.right.Constant?) {
      SubTermsPullDifference(l, r, a);
    } else {
      SumNode(l, r, a);
    }
  }

  lemma {:induction false} SubTermsReassociate(l: Expr, r: Expr, a: Assignment)
    requires Operands(l, r) && !r.Constant? && (IsAdd(l) || IsSub(l))
    ensures Eval(r, a) < Bits.Pow2(Width(l))
    ensures Eval(SubTerms(l, r), a) == Bits.SubMod(Eval(l, a), Eval(r, a), Width(l))
    decreases Size(l) + Size(r), 2, Size(l), -1
  {
    Parts(l, a);
    EvalBound(r, a);
    var p, q, z, w := Eval(l.left, a), Eval(l.right, a), Eval(r, a), Width(l);
    if IsAdd(l) {
      BuildSubValue(l.right, r, a);
      BuildAddValue(l.left, BuildSub(l.right, r), a);
      Bits.AddSubLaws(p, q, z, w);
    } else {
      BuildAddValue(l.right, r, a);
      BuildSubValue(l.left, BuildAdd(l.right, r), a);
      Bits.SubSubLaws(p, q, z, w);
    }
  }

  lemma {:induction false} SubTermsPullSum(l: Expr, r: Expr, a: Assignment)
    requires Operands(l, r) && !l.Constant? && !IsAdd(l) && !IsSub(l)
    requires IsAdd(r) && (r.left.Constant? || r.right.Constant?)
    ensures Eval(r, a) < Bits.Pow2(Width(l))
    ensures Eval(SubTerms(l, r), a) == Bits.SubMod(Eval(l, a), Eval(r, a), Width(l))
    decreases Size(l) + Size(r), 2, Size(l), -1
  {
    EvalBound(r, a);
    Parts(r, a);
    EvalBound(l, a);
    var k, y := if r.left.Constant? then r.left else r.right, if r.left.Constant? then r.right else r.left;
    BuildSubValue(l, y, a);
    BuildAddValue(Negated(k), BuildSub(l, y), a);
    var x, v, w := Eval(l, a), Eval(y, a), Width(l);
    Bits.SubSubLaws(x, k.value, v, w);
    Bits.NegLaw(Bits.SubMod(x, v, w), k.value, w);
    Bits.AddLaws(v, k.value, 0, w);
  }

  lemma {:induction false} SubTermsPullDifference(l: Expr, r: Expr, a: Assignment)
    requires Operands(l, r) && !l.Constant? && !IsAdd(l) && !IsSub(l)
    requires IsSub(r) && (r.left.Constant? || r.right.Constant?)
    ensures Eval(r, a) < Bits.Pow2(Width(l))
    ensures Eval(SubTerms(l, r), a) == Bits.SubMod(Eval(l, a), Eval(r, a), Width(l))
    decreases Size(l) + Size(r), 2, Size(l), -1
  {
    EvalBound(r, a);
    Parts(r, a);
    EvalBound(l, a);
    var x, w := Eval(l, a), Width(l);
    if r.left.Constant? {
      var k, v := r.left.value, Eval(r.right, a);
      BuildAddValue(l, r.right, a);
      BuildAddValue(Negated(r.left), BuildAdd(l, r.right), a);
      Bits.SubAddLaws(x, k, v, w);
      Bits.AddSubLaws(x, v, k, w);
      Bits.NegLaw(Bits.AddMod(x, v, w), k, w);
    } else {
      var k, v := r.right.value, Eval(r.left, a);
      BuildSubValue(l, r.left, a);
      BuildAddValue(r.right, BuildSub(l, r.left), a);
      Bits.SubAddLaws(x, v, k, w);
      Bits.AddLaws(k, Bits.SubMod(x, v, w), 0, w);
    }
  }

  // --- Constants stay on top -----------------------------------------------------------------

  /** A constant occurs in the spine of sums and differences only next to its root, on either
      side: wherever two constants meet they are folded. */
  predicate Lifted(e: Expr) {
    || e.Constant? || SpineFree(e)
    || (IsLinear(e) && e.left.Constant? && SpineFree(e.right))
    || (IsLinear(e) && e.right.Constant? && SpineFree(e.left))
  }

  lemma {:induction false} LiftedOperands(e: Expr)
    requires Lifted(e) && IsLinear(e)
    ensures Lifted(e.left) && Lifted(e.right)
    ensures !e.left.Constant? && !e.right.Constant? ==> SpineFree(e)
  {
  }

  lemma {:induction false} BuildAddLifted(l: Expr, r: Expr)
    requires Operands(l, r) && Lifted(l) && Lifted(r)
    ensures Lifted(BuildAdd(l, r))
    decreases Size(l) + Size(r), Rank(l, r), Size(l), 1
  {
    hide Lifted;
    if l.Constant? && r.Constant? {
      FoldedLifted(BuildAdd(l, r));
    } else if l.Constant? {
      AddToConstantLifted(l, r);
    } else if r.Constant? {
      AddToConstantLifted(r, l);
    } else {
      AddTermsLifted(l, r);
    }
  }

  lemma {:induction false} FoldedLifted(e: Expr)
    requires e.Constant?
    ensures Lifted(e)
  {
  }

  /** A new root over something that has no constant next to it. */
  lemma {:induction false} RootLifted(op: BinOp, l: Expr, r: Expr)
    requires (op.Add? || op.Sub?) && Lifted(l) && Lifted(r) && !r.Constant?
    requires l.Constant? || !IsLinear(l)
    requires IsLinear(r) ==> !r.left.Constant? && !r.right.Constant?
    ensures Lifted(Binary(op, l, r))
  {
  }

  lemma {:induction false} AddToConstantLifted(c: Expr, r: Expr)
    requires c.Constant? && Operands(c, r) && !r.Constant? && Lifted(r)
    ensures Lifted(AddToConstant(c, r))
    decreases 1 + Size(r), 0, 0, 0
  {
    hide Lifted, BuildAdd, BuildSub;
    FoldedLifted(c);
    if IsLinear(r) {
      LiftedOperands(r);
    }
    if c.value == 0 {
      assert AddToConstant(c, r) == r;
    } else if IsAdd(r) && r.left.Constant? {
      FoldedLifted(ConstBinary(Add, c, r.left));
      BuildAddLifted(ConstBinary(Add, c, r.left), r.right);
    } else if IsAdd(r) && r.right.Constant? {
      FoldedLifted(ConstBinary(Add, c, r.right));
      BuildAddLifted(ConstBinary(Add, c, r.right), r.left);
    } else if IsSub(r) && r.left.Constant? {
      FoldedLifted(ConstBinary(Add, c, r.left));
      BuildSubLifted(ConstBinary(Add, c, r.left), r.right);
    } else if IsSub(r) && r.right.Constant? {
      FoldedLifted(ConstBinary(Sub, c, r.right));
      BuildAddLifted(ConstBinary(Sub, c, r.right), r.left);
    } else {
      RootLifted(Add, c, r);
    }
  }

  lemma {:induction false} AddTermsLifted(l: Expr, r: Expr)
    requires Operands(l, r) && !l.Constant? && !r.Constant? && Lifted(l) && Lifted(r)
    ensures Lifted(AddTerms(l, r))
    decreases Size(l) + Size(r), 2, Size(l), 0
  {
    hide Lifted, BuildAdd, BuildSub;
    if IsLinear(l) {
      LiftedOperands(l);
    }
    if IsAdd(l) {
      BuildAddLifted(l.right, r);
      BuildAddLifted(l.left, BuildAdd(l.right, r));
    } else if IsSub(l) {
      BuildSubLifted(r, l.right);
      BuildAddLifted(l.left, BuildSub(r, l.right));
    } else if IsAdd(r) || IsSub(r) {
      AddPulledLifted(l, r);
    } else {
      RootLifted(Add, l, r);
    }
  }

  lemma {:induction false} AddPulledLifted(l: Expr, r: Expr)
    requires Operands(l, r) && !l.Constant? && !IsLinear(l) && (IsAdd(r) || IsSub(r)) && Lifted(l) && Lifted(r)
    ensures Lifted(AddPulled(l, r))
    decreases Size(l) + Size(r), 2, Size(l), -1
  {
    hide Lifted, BuildAdd, BuildSub;
    LiftedOperands(r);
    if IsAdd(r) && r.left.Constant? {
      BuildAddLifted(l, r.right);
      BuildAddLifted(r.left, BuildAdd(l, r.right));
    } else if IsAdd(r) && r.right.Constant? {
      BuildAddLifted(l, r.left);
      BuildAddLifted(r.right, BuildAdd(l, r.left));
    } else if IsSub(r) && r.left.Constant? {
      BuildSubLifted(l, r.right);
      BuildAddLifted(r.left, BuildSub(l, r.right));
    } else if IsSub(r) && r.right.Constant? {
      BuildAddLifted(l, r.left);
      FoldedLifted(Negated(r.right));
      BuildAddLifted(Negated(r.right), BuildAdd(l, r.left));
    } else {
      RootLifted(Add, l, r);
    }
  }

  lemma {:induction false} BuildSubLifted(l: Expr, r: Expr)
    requires Operands(l, r) && Lifted(l) && Lifted(r)
    ensures Lifted(BuildSub(l, r))
    decreases Size(l) + Size(r), Rank(l, r), Size(l), 1
  {
    hide Lifted;
    if l.Constant? && r.Constant? {
      FoldedLifted(BuildSub(l, r));
    } else if l.Constant? {
      SubFromConstantLifted(l, r);
    } else if r.Constant? {
      AddToConstantLifted(Negated(r), l);
    } else {
      SubTermsLifted(l, r);
    }
  }

  lemma {:induction false} SubFromConstantLifted(c: Expr, r: Expr)
    requires c.Constant? && Operands(c, r) && !r.Constant? && Lifted(r)
    ensures Lifted(SubFromConstant(c, r))
    decreases 1 + Size(r), 0, 0, 0
  {
    hide Lifted, BuildAdd, BuildSub;
    FoldedLifted(c);
    if IsLinear(r) {
      LiftedOperands(r);
    }
    if IsAdd(r) && r.left.Constant? {
      FoldedLifted(ConstBinary(Sub, c, r.left));
      BuildSubLifted(ConstBinary(Sub, c, r.left), r.right);
    } else if IsAdd(r) && r.right.Constant? {
      FoldedLifted(ConstBinary(Sub, c, r.right));
      BuildSubLifted(ConstBinary(Sub, c, r.right), r.left);
    } else if IsSub(r) && r.left.Constant? {
      FoldedLifted(ConstBinary(Sub, c, r.left));
      BuildAddLifted(ConstBinary(Sub, c, r.left), r.right);
    } else if IsSub(r) && r.right.Constant? {
      FoldedLifted(ConstBinary(Add, c, r.right));
      BuildSubLifted(ConstBinary(Add, c, r.right), r.left);
    } else {
      RootLifted(Sub, c, r);
    }
  }

  lemma {:induction false} SubTermsLifted(l: Expr, r: Expr)
    requires Operands(l, r) && !l.Constant? && !r.Constant? && Lifted(l) && Lifted(r)
    ensures Lifted(SubTerms(l, r))
    decreases Size(l) + Size(r), 2, Size(l), 0
  {
    hide Lifted, BuildAdd, BuildSub;
    if IsLinear(l) {
      LiftedOperands(l);
    }
    if IsAdd(l) {
      BuildSubLifted(l.right, r);
      BuildAddLifted(l.left, BuildSub(l.right, r));
    } else if IsSub(l) {
      BuildAddLifted(l.right, r);
      BuildSubLifted(l.left, BuildAdd(l.right, r));
    } else {
      SubPulledLifted(l, r);
    }
  }

  lemma {:induction false} SubPulledLifted(l: Expr, r: Expr)
    requires Operands(l, r) && !l.Constant? && !r.Constant? && !IsLinear(l) && Lifted(l) && Lifted(r)
    ensures Lifted(SubTerms(l, r))
    decreases Size(l) + Size(r), 2, Size(l), -1
  {
    hide Lifted, BuildAdd, BuildSub;
    if IsLinear(r) {
      LiftedOperands(r);
    }
    if IsAdd(r) && r.left.Constant? {
      BuildSubLifted(l, r.right);
      FoldedLifted(Negated(r.left));
      BuildAddLifted(Negated(r.left), BuildSub(l, r.right));
    } else if IsAdd(r) && r.right.Constant? {
      BuildSubLifted(l, r.left);
      FoldedLifted(Negated(r.right));
      BuildAddLifted(Negated(r.right), BuildSub(l, r.left));
    } else if IsSub(r) && r.left.Constant? {
      BuildAddLifted(l, r.right);
      FoldedLifted(Negated(r.left));
      BuildAddLifted(Negated(r.left), BuildAdd(l, r.right));
    } else if IsSub(r) && r.right.Constant? {
      BuildSubLifted(l, r.left);
      BuildAddLifted(r.right, BuildSub(l, r.left));
    } else {
      RootLifted(Sub, l, r);
    }
  }
}
