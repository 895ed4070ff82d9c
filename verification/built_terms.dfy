/** Terms that are built with the constructors alone: their values, and the shape of the sums
    and differences in them. */
module BuiltTerms {
  import Bits
  import opened Exprs
  import opened Slices
  import opened Booleans
  import opened LinearForms
  import opened Constructors
  import opened ObjectLayers

  /** Everywhere in the term, a constant occurs in a spine of sums and differences only as the
      left operand of its root. */
  predicate Tidy(e: Expr)
    decreases e
  {
    match e
    case Constant(_, _) => true
    case NotOptimized(src) => Tidy(src)
    case Read(_, u, index) => TidyUpdates(u) && Tidy(index)
    case Select(c, t, f) => Tidy(c) && Tidy(t) && Tidy(f)
    case Concat(l, r) => Tidy(l) && Tidy(r)
    case Extract(src, _, _) => Tidy(src)
    case ZExt(src, _) => Tidy(src)
    case SExt(src, _) => Tidy(src)
    case Not(src) => Tidy(src)
    case Binary(_, l, r) => Tidy(l) && Tidy(r) && (IsLinear(e) && 1 < Width(l) ==> Hoisted(e))
  }

  predicate TidyUpdates(u: Updates)
    decreases u
  {
    u.Update? ==> TidyUpdates(u.next) && Tidy(u.index) && Tidy(u.value)
  }

  /** Operands of a binary constructor, both tidy. */
  predicate TidyOperands(l: Expr, r: Expr) {
    Operands(l, r) && Tidy(l) && Tidy(r)
  }

  lemma {:induction false} TidyIsHoisted(e: Expr)
    requires Tidy(e) && 1 < Width(e)
    ensures Hoisted(e)
  {
    if !IsLinear(e) && !e.Constant? {
      assert SpineFree(e);
    }
  }

  lemma {:induction false} TidyConstants()
    ensures forall c: Expr :: c.Constant? ==> Tidy(c)
  {
  }

  /** Nodes other than sums and differences are tidy if their operands are. */
  lemma {:induction false} TidyNode(op: BinOp, l: Expr, r: Expr)
    requires Tidy(l) && Tidy(r) && !op.Add? && !op.Sub?
    ensures Tidy(Binary(op, l, r))
  {
  }

  lemma {:induction false} TidyLinear(op: BinOp, l: Expr, r: Expr)
    requires Tidy(l) && Tidy(r) && Hoisted(Binary(op, l, r))
    ensures Tidy(Binary(op, l, r))
  {
  }

  lemma {:induction false} TidyParts(e: Expr)
    requires Tidy(e) && e.Binary?
    ensures Tidy(e.left) && Tidy(e.right)
  {
  }

  // --- Constructors that build no sums ------------------------------------------------------------

  lemma {:induction false} ConcatTidy(l: Expr, r: Expr)
    requires WellTyped(l) && WellTyped(r) && Tidy(l) && Tidy(r)
    ensures Tidy(ConcatCreate(l, r))
    decreases Weight(l), 1
  {
    if !(l.Constant? && r.Constant?) && l.Extract? && r.Extract? && l.src == r.src && r.offset + r.bits == l.offset {
      ExtractTidy(l.src, r.offset, Width(l) + Width(r));
    }
  }

  lemma {:induction false} ExtractTidy(e: Expr, off: nat, w: nat)
    requires WellTyped(e) && 0 < w && off + w <= Width(e) && Tidy(e)
    ensures Tidy(ExtractCreate(e, off, w))
    decreases 2 * Weight(e), 0
  {
    if w == Width(e) {
    } else if e.Constant? {
      TidyConstants();
    } else if e.Concat? {
      var wr := Width(e.right);
      if off >= wr {
        ExtractTidy(e.left, off - wr, w);
      } else if off + w <= wr {
        ExtractTidy(e.right, off, w);
      } else {
        ExtractTidy(e.left, 0, w - wr + off);
        ExtractTidy(e.right, off, wr - off);
        ConcatTidy(ExtractCreate(e.left, 0, w - wr + off), ExtractCreate(e.right, off, wr - off));
      }
    }
  }

  lemma {:induction false} ExtensionsTidy(e: Expr, w: nat)
    requires WellTyped(e) && 0 < w && Tidy(e)
    ensures Tidy(ZExtCreate(e, w)) && Tidy(SExtCreate(e, w))
  {
    if w < Width(e) {
      ExtractTidy(e, 0, w);
    }
  }

  lemma {:induction false} AndOrTidy(l: Expr, r: Expr)
    requires TidyOperands(l, r)
    ensures Tidy(AndCreate(l, r)) && Tidy(OrCreate(l, r))
  {
    hide Tidy, BinaryValue, Weight;
    TidyConstants();
    TidyNode(And, l, r);
    TidyNode(And, r, l);
    TidyNode(Or, l, r);
    TidyNode(Or, r, l);
  }

  lemma {:induction false} EqTidy(l: Expr, r: Expr)
    requires TidyOperands(l, r)
    ensures Tidy(EqCreate(l, r))
    decreases Weight(l) + Weight(r), 0
  {
    hide Tidy, BinaryValue, EqPartialR;
    TidyConstants();
    TidyNode(Eq, l, r);
    if l.Constant? && !r.Constant? {
      EqPartialRTidy(l, r);
    } else if r.Constant? && !l.Constant? {
      EqPartialRTidy(r, l);
    }
  }

  lemma {:induction false} IsZeroTidy(e: Expr)
    requires WellTyped(e) && Tidy(e)
    ensures Tidy(IsZero(e))
    decreases 1 + Weight(e), 1
  {
    PositiveWidth(e);
    EqTidy(e, Constant(0, Width(e)));
  }

  lemma {:induction false} EqPartialRTidy(c: Expr, r: Expr)
    requires c.Constant? && TidyOperands(c, r)
    ensures Tidy(EqPartialR(c, r))
    decreases Weight(r), 1
  {
    if c.bits == 1 {
      if c.value != 1 && r.Binary? && r.op.Or? {
        IsZeroTidy(r.left);
        IsZeroTidy(r.right);
        AndOrTidy(IsZero(r.left), IsZero(r.right));
      }
    } else if r.SExt? || r.ZExt? {
      PositiveWidth(r.src);
      EqTidy(r.src, ConstZExt(c, Width(r.src)));
    } else if r.Binary? && r.op.Add? && r.left.Constant? {
      EqPartialRTidy(ConstBinary(Sub, c, r.left), r.right);
    } else if r.Binary? && r.op.Sub? && r.left.Constant? {
      EqPartialRTidy(ConstBinary(Sub, r.left, c), r.right);
    }
  }

  lemma {:induction false} XorTidy(l: Expr, r: Expr)
    requires TidyOperands(l, r)
    ensures Tidy(XorCreate(l, r))
  {
    hide Tidy, BinaryValue, XorPartialR, Weight;
    TidyConstants();
    TidyNode(Xor, l, r);
    if l.Constant? && !r.Constant? {
      XorPartialRTidy(l, r);
    } else if r.Constant? && !l.Constant? {
      XorPartialRTidy(r, l);
    }
  }

  lemma {:induction false} XorPartialRTidy(c: Expr, r: Expr)
    requires c.Constant? && TidyOperands(c, r)
    ensures Tidy(XorPartialR(c, r))
  {
    if c.value != 0 && c.bits == 1 {
      EqPartialRTidy(Bool(false), r);
    }
  }

  // --- Sums and differences ---------------------------------------------------------------------

  lemma {:induction false} AddTidy(l: Expr, r: Expr)
    requires TidyOperands(l, r)
    ensures Tidy(AddCreate(l, r))
    decreases Weight(l) + Weight(r), Rank(l, r), 1
  {
    if l.Constant? {
      if !r.Constant? {
        AddPartialRTidy(l, r);
      }
    } else if r.Constant? {
      AddPartialRTidy(r, l);
    } else {
      AddBothTidy(l, r);
    }
  }

  lemma {:induction false} AddPartialRTidy(c: Expr, r: Expr)
    requires c.Constant? && TidyOperands(c, r) && !r.Constant?
    ensures Tidy(AddPartialR(c, r))
    decreases 1 + Weight(r), 0, 0
  {
    PositiveWidth(r);
    if c.bits == 1 {
      XorPartialRTidy(c, r);
    } else if c.value == 0 {
    } else if IsConstPlus(r) {
      AddTidy(ConstBinary(Add, c, r.left), r.right);
    } else if IsConstMinus(r) {
      SubTidy(ConstBinary(Add, c, r.left), r.right);
    } else {
      TidyIsHoisted(r);
      AddPartialRHoisted(c, r);
    }
  }

  lemma {:induction false} AddBothTidy(l: Expr, r: Expr)
    requires TidyOperands(l, r) && !l.Constant? && !r.Constant?
    ensures Tidy(AddBoth(l, r))
    decreases Weight(l) + Weight(r), 2, 0
  {
    hide Tidy, XorCreate, AddCreate, SubCreate, Hoisted;
    TidyConstants();
    PositiveWidth(l);
    if l.Binary? {
      TidyParts(l);
    }
    if r.Binary? {
      TidyParts(r);
    }
    if Width(l) == 1 {
      XorTidy(l, r);
    } else if IsConstPlus(l) {
      AddTidy(l.right, r);
      AddTidy(l.left, AddCreate(l.right, r));
    } else if IsConstMinus(l) {
      SubTidy(r, l.right);
      AddTidy(l.left, SubCreate(r, l.right));
    } else if IsConstPlus(r) {
      AddTidy(l, r.right);
      AddTidy(r.left, AddCreate(l, r.right));
    } else if IsConstMinus(r) {
      SubTidy(l, r.right);
      AddTidy(r.left, SubCreate(l, r.right));
    } else {
      TidyIsHoisted(l);
      TidyIsHoisted(r);
      AddBothHoisted(l, r);
      TidyLinear(Add, l, r);
    }
  }

  lemma {:induction false} SubTidy(l: Expr, r: Expr)
    requires TidyOperands(l, r)
    ensures Tidy(SubCreate(l, r))
    decreases Weight(l) + Weight(r), Rank(l, r), 1
  {
    if l.Constant? {
      if !r.Constant? {
        SubPartialRTidy(l, r);
      }
    } else if r.Constant? {
      AddPartialRTidy(ConstBinary(Sub, Constant(0, r.bits), r), l);
    } else {
      SubBothTidy(l, r);
    }
  }

  lemma {:induction false} SubPartialRTidy(c: Expr, r: Expr)
    requires c.Constant? && TidyOperands(c, r) && !r.Constant?
    ensures Tidy(SubPartialR(c, r))
    decreases 1 + Weight(r), 0, 0
  {
    PositiveWidth(r);
    if c.bits == 1 {
      XorPartialRTidy(c, r);
    } else if IsConstPlus(r) {
      SubTidy(ConstBinary(Sub, c, r.left), r.right);
    } else if IsConstMinus(r) {
      AddTidy(ConstBinary(Sub, c, r.left), r.right);
    } else {
      TidyIsHoisted(r);
      SubPartialRHoisted(c, r);
    }
  }

  lemma {:induction false} SubBothTidy(l: Expr, r: Expr)
    requires TidyOperands(l, r) && !l.Constant? && !r.Constant?
    ensures Tidy(SubBoth(l, r))
    decreases Weight(l) + Weight(r), 2, 0
  {
    hide Tidy, XorCreate, AddCreate, SubCreate, Hoisted;
    TidyConstants();
    PositiveWidth(l);
    if l.Binary? {
      TidyParts(l);
    }
    if r.Binary? {
      TidyParts(r);
    }
    if Width(l) == 1 {
      XorTidy(l, r);
    } else if l == r {
    } else if IsConstPlus(l) {
      SubTidy(l.right, r);
      AddTidy(l.left, SubCreate(l.right, r));
    } else if IsConstMinus(l) {
      AddTidy(l.right, r);
      SubTidy(l.left, AddCreate(l.right, r));
    } else if IsConstPlus(r) {
      SubTidy(l, r.right);
      SubTidy(SubCreate(l, r.right), r.left);
    } else if IsConstMinus(r) {
      AddTidy(l, r.right);
      SubTidy(AddCreate(l, r.right), r.left);
    } else {
      TidyIsHoisted(l);
      TidyIsHoisted(r);
      SubBothHoisted(l, r);
      TidyLinear(Sub, l, r);
    }
  }

  // --- The other operators --------------------------------------------------------------------------

  lemma {:induction false} CompareTidy(op: BinOp, l: Expr, r: Expr)
    requires TidyOperands(l, r) && IsCompare(op)
    ensures Tidy(CompareCreate(op, l, r))
  {
    hide Tidy, EqCreate, LessCreate, Weight;
    TidyConstants();
    if op.Eq? || op.Ne? {
      EqTidy(l, r);
      EqTidy(Bool(false), EqCreate(l, r));
    } else if op.Ugt? || op.Uge? || op.Sgt? || op.Sge? {
      LessTidy(Swapped(op), r, l);
    } else {
      LessTidy(op, l, r);
    }
  }

  lemma {:induction false} LessTidy(op: BinOp, l: Expr, r: Expr)
    requires TidyOperands(l, r) && (op.Ult? || op.Ule? || op.Slt? || op.Sle?)
    ensures Tidy(LessCreate(op, l, r))
  {
    hide Tidy, AndCreate, OrCreate, IsZero, BinaryValue, Weight;
    TidyConstants();
    if l.Constant? && r.Constant? {
    } else if Width(l) == 1 {
      IsZeroTidy(l);
      IsZeroTidy(r);
      AndOrTidy(IsZero(l), r);
      AndOrTidy(l, IsZero(r));
    } else {
      TidyNode(op, l, r);
    }
  }

  lemma {:induction false} BinaryTidy(op: BinOp, l: Expr, r: Expr)
    requires TidyOperands(l, r)
    ensures Tidy(BinaryCreate(op, l, r))
  {
    hide Tidy, CompareCreate, AddCreate, SubCreate, XorCreate, AndCreate, OrCreate, MulCreate, DivideCreate, IsZero,
         Weight;
    TidyConstants();
    if IsCompare(op) {
      CompareTidy(op, l, r);
    } else if op.Add? {
      AddTidy(l, r);
    } else if op.Sub? {
      SubTidy(l, r);
    } else if op.Xor? {
      XorTidy(l, r);
    } else if op.And? || op.Or? {
      AndOrTidy(l, r);
    } else if op.Mul? {
      MulTidy(l, r);
    } else {
      TidyNode(op, l, r);
      DivideOrShiftTidy(op, l, r);
    }
  }

  lemma {:induction false} MulTidy(l: Expr, r: Expr)
    requires TidyOperands(l, r)
    ensures Tidy(MulCreate(l, r))
  {
    hide Tidy, BinaryValue, Weight;
    TidyConstants();
    TidyNode(Mul, l, r);
    TidyNode(Mul, r, l);
    TidyNode(And, l, r);
    TidyNode(And, r, l);
  }

  lemma {:induction false} DivideOrShiftTidy(op: BinOp, l: Expr, r: Expr)
    requires TidyOperands(l, r) && Tidy(Binary(op, l, r)) && (NeverBoolean(op) || op.Shl? || op.LShr?)
    ensures NeverBoolean(op) ==> Tidy(DivideCreate(op, l, r))
    ensures op.Shl? || op.LShr? ==> Tidy(ShiftCreate(op, l, r))
  {
    hide Tidy, AndCreate, IsZero, BinaryValue, Weight;
    TidyConstants();
    if Width(l) == 1 {
      IsZeroTidy(r);
      AndOrTidy(l, IsZero(r));
    }
  }

  lemma {:induction false} SelectNodeTidy(c: Expr, t: Expr, f: Expr)
    requires Tidy(c) && Tidy(t) && Tidy(f)
    ensures Tidy(Select(c, t, f))
  {
  }

  lemma {:induction false} SelectTidy(c: Expr, t: Expr, f: Expr)
    requires IsBool(c) && TidyOperands(t, f) && Tidy(c)
    ensures Tidy(SelectCreate(c, t, f))
  {
    hide Tidy, AndCreate, OrCreate, IsZero, Weight;
    assert Tidy(Select(c, t, f)) by {
      SelectNodeTidy(c, t, f);
    }
    IsZeroTidy(c);
    if Width(t) == 1 {
      AndOrTidy(c, f);
      AndOrTidy(IsZero(c), f);
      AndOrTidy(IsZero(c), t);
      AndOrTidy(c, t);
    }
  }

  lemma {:induction false} ReadTidy(root: Array, u: Updates, index: Expr)
    requires root.Valid() && UpdatesWellTyped(root, u) && WellTyped(index) && Width(index) == root.domain
    requires TidyUpdates(u) && Tidy(index)
    ensures Tidy(ReadCreate(root, u, index))
  {
    RollbackTidy(root, u, index);
  }

  lemma {:induction false} RollbackTidy(root: Array, u: Updates, index: Expr)
    requires UpdatesWellTyped(root, u) && WellTyped(index) && Width(index) == root.domain && TidyUpdates(u)
    ensures Rollback(root, u, index).Some? ==> Tidy(Rollback(root, u, index).value)
    decreases u
  {
    if u.Update? {
      RollbackTidy(root, u.next, index);
    }
  }

  // --- Whole terms -----------------------------------------------------------------------------------

  /** The term with every node made by its constructor. */
  function Built(e: Expr): (b: Expr)
    requires WellTyped(e)
    ensures WellTyped(b) && Width(b) == Width(e)
    decreases e
  {
    match e
    case Constant(_, _) => e
    case NotOptimized(src) => NotOptimized(Built(src))
    case Read(root, u, index) => ReadCreate(root, BuiltUpdates(root, u), Built(index))
    case Select(c, t, f) => SelectCreate(Built(c), Built(t), Built(f))
    case Concat(l, r) => ConcatCreate(Built(l), Built(r))
    case Extract(src, off, bits) => ExtractCreate(Built(src), off, bits)
    case ZExt(src, bits) => PositiveWidth(e); ZExtCreate(Built(src), bits)
    case SExt(src, bits) => PositiveWidth(e); SExtCreate(Built(src), bits)
    case Not(src) => NotCreate(Built(src))
    case Binary(op, l, r) => BinaryCreate(op, Built(l), Built(r))
  }

  function BuiltUpdates(root: Array, u: Updates): (b: Updates)
    requires UpdatesWellTyped(root, u)
    ensures UpdatesWellTyped(root, b)
    decreases u
  {
    match u
    case NoUpdate => NoUpdate
    case Update(next, index, value) => Update(BuiltUpdates(root, next), Built(index), Built(value))
  }

  /** Whatever the constructors fold, hoist, cut and cancel on the way, the term has the value
      of the plain one. */
  lemma {:induction false} BuiltValue(e: Expr, a: Assignment)
    requires WellTyped(e)
    ensures Eval(Built(e), a) == Eval(e, a)
    decreases e
  {
    hide ReadCreate, SelectCreate, ConcatCreate, ExtractCreate, ZExtCreate, SExtCreate, NotCreate, BinaryCreate,
         BinaryValue;
    match e
    case Constant(_, _) =>
    case NotOptimized(src) => BuiltValue(src, a);
    case Read(root, u, index) =>
      BuiltValue(index, a);
      BuiltReadValue(root, u, Eval(index, a), a);
      ReadCreateValue(root, BuiltUpdates(root, u), Built(index), a);
    case Select(c, t, f) =>
      BuiltValue(c, a);
      BuiltValue(t, a);
      BuiltValue(f, a);
      SelectValue(Built(c), Built(t), Built(f), a);
    case Concat(l, r) => BuiltValue(l, a); BuiltValue(r, a); ConcatValue(Built(l), Built(r), a);
    case Extract(src, off, bits) => BuiltValue(src, a); ExtractValue(Built(src), off, bits, a);
    case ZExt(src, bits) => BuiltValue(src, a); BuiltZExtValue(src, bits, a);
    case SExt(src, bits) => BuiltValue(src, a); PositiveWidth(e); SExtValue(Built(src), bits, a);
    case Not(src) => BuiltValue(src, a); NotCreateValue(Built(src), a);
    case Binary(op, l, r) => BuiltValue(l, a); BuiltValue(r, a); BinaryCreateValue(op, Built(l), Built(r), a);
  }

  lemma {:induction false} NotCreateValue(e: Expr, a: Assignment)
    requires WellTyped(e)
    ensures Eval(NotCreate(e), a) == Bits.Complement(Eval(e, a), Width(e))
  {
  }

  lemma {:induction false} BuiltZExtValue(src: Expr, bits: nat, a: Assignment)
    requires WellTyped(ZExt(src, bits)) && Eval(Built(src), a) == Eval(src, a)
    ensures 0 < bits && Eval(ZExtCreate(Built(src), bits), a) == Eval(src, a)
  {
    PositiveWidth(ZExt(src, bits));
    ZExtValue(Built(src), bits, a);
    EvalBound(ZExt(src, bits), a);
    Bits.TruncWhole(Eval(src, a), bits);
  }

  lemma {:induction false} BuiltReadValue(root: Array, u: Updates, i: nat, a: Assignment)
    requires UpdatesWellTyped(root, u)
    ensures ReadValue(root, BuiltUpdates(root, u), i, a) == ReadValue(root, u, i, a)
    decreases u
  {
    if u.Update? {
      BuiltReadValue(root, u.next, i, a);
      BuiltValue(u.index, a);
      BuiltValue(u.value, a);
    }
  }

  /** Everything the constructors build is tidy. */
  lemma {:induction false} BuiltTidy(e: Expr)
    requires WellTyped(e)
    ensures Tidy(Built(e))
    decreases e
  {
    hide ReadCreate, SelectCreate, ConcatCreate, ExtractCreate, ZExtCreate, SExtCreate, BinaryCreate;
    match e
    case Constant(_, _) =>
    case NotOptimized(src) => BuiltTidy(src);
    case Read(root, u, index) =>
      BuiltTidy(index);
      BuiltUpdatesTidy(root, u);
      ReadTidy(root, BuiltUpdates(root, u), Built(index));
    case Select(c, t, f) =>
      BuiltTidy(c);
      BuiltTidy(t);
      BuiltTidy(f);
      SelectTidy(Built(c), Built(t), Built(f));
    case Concat(l, r) => BuiltTidy(l); BuiltTidy(r); ConcatTidy(Built(l), Built(r));
    case Extract(src, off, bits) => BuiltTidy(src); ExtractTidy(Built(src), off, bits);
    case ZExt(src, bits) => BuiltTidy(src); PositiveWidth(e); ExtensionsTidy(Built(src), bits);
    case SExt(src, bits) => BuiltTidy(src); PositiveWidth(e); ExtensionsTidy(Built(src), bits);
    case Not(src) => BuiltTidy(src);
    case Binary(op, l, r) => BuiltTidy(l); BuiltTidy(r); BinaryTidy(op, Built(l), Built(r));
  }

  lemma {:induction false} BuiltUpdatesTidy(root: Array, u: Updates)
    requires UpdatesWellTyped(root, u)
    ensures TidyUpdates(BuiltUpdates(root, u))
    decreases u
  {
    if u.Update? {
      BuiltUpdatesTidy(root, u.next);
      BuiltTidy(u.index);
      BuiltTidy(u.value);
    }
  }

  /** So an object can be accessed at any offset that was built, whatever its width, unless it
      is cut to a constant that is out of bounds. */
  lemma {:induction false} BuiltAccessible(e: Expr, size: nat, n: nat, little: bool)
    requires WellTyped(e) && n <= Bits.Pow2(INDEX_BITS)
    ensures var index := ZExtCreate(Built(e), INDEX_BITS);
            Accessible(size, index, n, little) <==> (index.Constant? ==> index.value + n <= size)
  {
    var index := ZExtCreate(Built(e), INDEX_BITS);
    BuiltTidy(e);
    ExtensionsTidy(Built(e), INDEX_BITS);
    TidyIsHoisted(index);
    if !index.Constant? {
      HoistedStaysSymbolic(index, n, little);
    }
  }
}
