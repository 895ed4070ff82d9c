/** Translation of expressions to SMT-LIB. The printer is asked for a term of sort Bool or of
    a bit-vector sort and inserts the casts between the two. */
module SmtPrinter {
  import Bits
  import opened Exprs
  import opened Booleans
  import opened Constructors
  import opened SmtTerms

  datatype Sort = SortBool | SortBitVector

  datatype DisplayMode = BinaryMode | HexMode | DecimalMode

  /** The sort in which an expression is printed without a cast. */
  function GetSort(e: Expr): (s: Sort) {
    match e
    case NotOptimized(src) => GetSort(src)
    case Constant(_, bits) => if bits == 1 then SortBool else SortBitVector
    case Not(_) => if Width(e) == 1 then SortBool else SortBitVector
    case Binary(op, _, _) =>
      if IsCompare(op) then SortBool
      else if op.And? || op.Or? || op.Xor? then if Width(e) == 1 then SortBool else SortBitVector
      else SortBitVector
    case _ => SortBitVector
  }

  // --- Constants ----------------------------------------------------------------------------

  /** The digits of a number, without leading zeros. */
  function Digits(v: nat, radix: nat): (ds: seq<nat>)
    requires radix == 2 || radix == 16
    ensures 0 < |ds|
  {
    if v < radix then [v] else Digits(v / radix, radix) + [v % radix]
  }

  /** Zeros in front up to length n; the difference of the lengths is a 32-bit unsigned number. */
  function Padded(ds: seq<nat>, n: nat): (r: seq<nat>) {
    seq((n - |ds|) % 0x1_0000_0000, _ => 0) + ds
  }

  function PrintConstant(v: nat, w: nat, mode: DisplayMode): (t: Term) {
    if w == 1 then if v == 0 then FalseTerm else TrueTerm
    else
      match mode
      case BinaryMode => BinaryLiteral(Padded(Digits(v, 2), w))
      case HexMode => HexLiteral(Padded(Digits(v, 16), w / 4))
      case DecimalMode => Decimal(v, w)
  }

  lemma {:induction false} DigitsNumber(v: nat, radix: nat)
    requires radix == 2 || radix == 16
    ensures Number(Digits(v, radix), radix) == v
    ensures forall i :: 0 <= i < |Digits(v, radix)| ==> Digits(v, radix)[i] < radix
  {
    if v >= radix {
      DigitsNumber(v / radix, radix);
      assert Digits(v, radix)[..|Digits(v, radix)| - 1] == Digits(v / radix, radix);
    } else {
      assert Digits(v, radix)[..0] == [];
    }
  }

  lemma {:induction false} DigitsLength(v: nat, radix: nat, n: nat)
    requires 0 < n && ((radix == 2 && v < Bits.Pow2(n)) || (radix == 16 && v < Bits.Pow2(4 * n)))
    ensures |Digits(v, radix)| <= n
    decreases n
  {
    if v >= radix {
      if radix == 2 {
        Bits.Pow2Double(n - 1);
        Bits.Pow2Double(0);
        if n > 1 {
          DigitsLength(v / 2, 2, n - 1);
        }
      } else {
        Bits.Pow2Double(4 * n - 1);
        Bits.Pow2Double(4 * n - 2);
        Bits.Pow2Double(4 * n - 3);
        Bits.Pow2Double(4 * n - 4);
        Bits.Pow2Double(0);
        if n > 1 {
          DigitsLength(v / 16, 16, n - 1);
        }
      }
    }
  }

  lemma {:induction false} PaddedNumber(ds: seq<nat>, zeros: seq<nat>, radix: nat)
    requires radix == 2 || radix == 16
    requires forall i :: 0 <= i < |zeros| ==> zeros[i] == 0
    ensures Number(zeros + ds, radix) == Number(ds, radix)
    decreases |zeros| + |ds|
  {
    if ds != [] {
      assert (zeros + ds)[..|zeros + ds| - 1] == zeros + ds[..|ds| - 1];
      PaddedNumber(ds[..|ds| - 1], zeros, radix);
    } else if zeros != [] {
      assert (zeros + ds)[..|zeros + ds| - 1] == zeros[..|zeros| - 1] + ds;
      PaddedNumber(ds, zeros[..|zeros| - 1], radix);
    }
  }

  lemma {:induction false} PaddedLiteral(v: nat, radix: nat, n: nat)
    requires radix == 2 || radix == 16
    requires |Digits(v, radix)| <= n < 0x1_0000_0000
    ensures |Padded(Digits(v, radix), n)| == n
    ensures Number(Padded(Digits(v, radix), n), radix) == v
    ensures forall i :: 0 <= i < n ==> Padded(Digits(v, radix), n)[i] < radix
  {
    var ds := Digits(v, radix);
    DigitsNumber(v, radix);
    PaddedNumber(ds, seq(n - |ds|, _ => 0), radix);
    assert Padded(ds, n) == seq(n - |ds|, _ => 0) + ds;
  }

  /** What a constant is printed as. */
  function ConstantValue(v: nat, w: nat): (r: Value) {
    if w == 1 then Truth(v != 0) else Word(v, w)
  }

  /** Decimal and binary constants are always right; hexadecimal ones have the right sort
      exactly when the width is a multiple of four. */
  lemma {:induction false} ConstantMeaning(v: nat, w: nat, mode: DisplayMode, env: Environment, a: Assignment)
    requires 0 < w < 0x1_0000_0000 && v < Bits.Pow2(w)
    ensures Meaning(PrintConstant(v, w, mode), env, a) == Some(ConstantValue(v, w))
       <==> mode != HexMode || w == 1 || w % 4 == 0
  {
    if w > 1 {
      if mode == BinaryMode {
        DigitsLength(v, 2, w);
        PaddedLiteral(v, 2, w);
      } else if mode == HexMode && w % 4 == 0 {
        DigitsLength(v, 16, w / 4);
        PaddedLiteral(v, 16, w / 4);
      }
    }
  }

  /** In hexadecimal, six bits are cut to one digit of four. */
  lemma {:induction false} HexCutsWidth(env: Environment, a: Assignment)
    ensures ConstantValue(5, 6) == Word(5, 6)
    ensures Meaning(PrintConstant(5, 6, HexMode), env, a) == Some(Word(5, 4))
  {
    hide Meaning, Digits;
    var ds: seq<nat> := [5];
    FiveDigit(env, a);
    assert PrintConstant(5, 6, HexMode) == HexLiteral(Padded(ds, 1)) && Padded(ds, 1) == ds;
  }

  lemma {:induction false} FiveDigit(env: Environment, a: Assignment)
    ensures Digits(5, 16) == [5] && Meaning(HexLiteral([5]), env, a) == Some(Word(5, 4))
  {
    var ds: seq<nat> := [5];
    assert ds[..0] == [] && Number(ds[..0], 16) == 0;
    assert Number(ds, 16) == 5;
  }

  // --- Expressions ---------------------------------------------------------------------------

  /** The expressions that have names, which stand for them at their own sort. */
  type Abbreviations = map<Expr, nat>

  function Keyword(op: BinOp): (k: BvOp)
    requires !IsCompare(op)
  {
    if op.Add? then BvAdd
    else if op.Sub? then BvSub
    else if op.Mul? then BvMul
    else if op.UDiv? then BvUDiv
    else if op.SDiv? then BvSDiv
    else if op.URem? then BvURem
    else if op.SRem? then BvSRem
    else if op.And? then BvAnd
    else if op.Or? then BvOr
    else if op.Xor? then BvXor
    else if op.Shl? then BvShl
    else if op.LShr? then BvLShr
    else BvAShr
  }

  function PredKeyword(op: BinOp): (k: BvPred)
    requires IsCompare(op) && !op.Eq? && !op.Ne?
  {
    if op.Ult? then BvUlt
    else if op.Ule? then BvUle
    else if op.Ugt? then BvUgt
    else if op.Uge? then BvUge
    else if op.Slt? then BvSlt
    else if op.Sle? then BvSle
    else if op.Sgt? then BvSgt
    else BvSge
  }

  function CoreKeyword(op: BinOp): (k: CoreOp)
    requires op.And? || op.Or? || op.Xor?
  {
    if op.And? then CoreAnd else if op.Or? then CoreOr else CoreXor
  }

  /** A bit-vector from a truth value, or whether a bit-vector is not zero. */
  function CastTo(t: Term, s: Sort, w: nat): (c: Term) {
    if s == SortBitVector then Ite(t, Decimal(1, 1), Decimal(0, 1)) else Pred(BvUgt, t, Decimal(0, w))
  }

  function Print(e: Expr, s: Sort, bs: Abbreviations, mode: DisplayMode): (t: Term)
    requires WellTyped(e)
    decreases Size(e), if GetSort(e) != s then 2 else 1
  {
    if GetSort(e) != s then CastTo(Print(e, GetSort(e), bs, mode), s, Width(e))
    else if e in bs then Variable(bs[e])
    else PrintFull(e, s, bs, mode)
  }

  function PrintFull(e: Expr, s: Sort, bs: Abbreviations, mode: DisplayMode): (t: Term)
    requires WellTyped(e)
    decreases Size(e), 0
  {
    match e
    case Constant(v, bits) => PrintConstant(v, bits, mode)
    case NotOptimized(src) => Print(src, s, bs, mode)
    case Read(root, updates, index) =>
      SelectTerm(PrintArray(root, updates, bs, mode), Print(index, SortBitVector, bs, mode))
    case Select(c, x, y) => Ite(Print(c, SortBool, bs, mode), Print(x, s, bs, mode), Print(y, s, bs, mode))
    case Concat(l, r) => ConcatTerm(Print(l, SortBitVector, bs, mode), Print(r, SortBitVector, bs, mode))
    case Extract(src, off, bits) => ExtractTerm(off + bits - 1, off, Print(src, SortBitVector, bs, mode))
    case ZExt(src, bits) => ZeroExtend(bits - Width(src), Print(src, SortBitVector, bs, mode))
    case SExt(src, bits) => SignExtend(bits - Width(src), Print(src, SortBitVector, bs, mode))
    case Not(src) => if s == SortBitVector then BvNot(Print(src, s, bs, mode)) else CoreNot(Print(src, s, bs, mode))
    case Binary(op, l, r) =>
      if op.Eq? then Equal(Print(l, GetSort(l), bs, mode), Print(r, GetSort(l), bs, mode))
      else if op.Ne? then Distinct(Print(l, GetSort(l), bs, mode), Print(r, GetSort(l), bs, mode))
      else if (op.And? || op.Or? || op.Xor?) && s == SortBool then
        Core(CoreKeyword(op), Print(l, s, bs, mode), Print(r, s, bs, mode))
      else if op.AShr? then PrintAShr(l, r, bs, mode)
      else if IsCompare(op) then
        Pred(PredKeyword(op), Print(l, SortBitVector, bs, mode), Print(r, SortBitVector, bs, mode))
      else Bv(Keyword(op), Print(l, SortBitVector, bs, mode), Print(r, SortBitVector, bs, mode))
  }

  /** Shifting by the width or more is zero for the expression but not for bvashr. */
  function PrintAShr(l: Expr, r: Expr, bs: Abbreviations, mode: DisplayMode): (t: Term)
    requires WellTyped(l) && WellTyped(r) && 1 < Width(l)
    decreases Size(l) + Size(r), 3
  {
    Bits.WidthFits(Width(l));
    var w := Width(l);
    Ite(Pred(BvUge, Print(r, SortBitVector, bs, mode), Print(Constant(w, w), SortBitVector, bs, mode)),
        Print(Constant(0, w), SortBitVector, bs, mode),
        Bv(BvAShr, Print(l, SortBitVector, bs, mode), Print(r, SortBitVector, bs, mode)))
  }

  function PrintArray(root: Array, u: Updates, bs: Abbreviations, mode: DisplayMode): (t: ArrayTerm)
    requires root.Valid() && UpdatesWellTyped(root, u)
    decreases 1 + UpdatesSize(u), 0
  {
    match u
    case NoUpdate => ArrayName(root)
    case Update(next, index, value) =>
      StoreTerm(PrintArray(root, next, bs, mode),
                Print(index, SortBitVector, bs, mode), Print(value, SortBitVector, bs, mode))
  }

  // --- The translation preserves meaning ---------------------------------------------------------

  /** The value of an expression at a sort; any bit-vector but zero counts as true. */
  function ValueAt(e: Expr, s: Sort, a: Assignment): (v: Value) {
    if s == SortBool then Truth(Eval(e, a) != 0) else Word(Eval(e, a), Width(e))
  }

  /** The constants that get printed come out right in this mode. */
  predicate Displays(e: Expr, mode: DisplayMode)
    decreases e
  {
    match e
    case Constant(_, bits) => WidthDisplays(bits, mode)
    case NotOptimized(src) => Displays(src, mode)
    case Read(_, updates, index) => UpdatesDisplay(updates, mode) && Displays(index, mode)
    case Select(c, x, y) => Displays(c, mode) && Displays(x, mode) && Displays(y, mode)
    case Concat(l, r) => Displays(l, mode) && Displays(r, mode)
    case Extract(src, _, _) => Displays(src, mode)
    case ZExt(src, _) => Displays(src, mode)
    case SExt(src, _) => Displays(src, mode)
    case Not(src) => Displays(src, mode)
    case Binary(op, l, r) => Displays(l, mode) && Displays(r, mode) && (op.AShr? ==> WidthDisplays(Width(l), mode))
  }

  predicate UpdatesDisplay(u: Updates, mode: DisplayMode)
    decreases u
  {
    match u
    case NoUpdate => true
    case Update(next, index, value) => UpdatesDisplay(next, mode) && Displays(index, mode) && Displays(value, mode)
  }

  predicate WidthDisplays(w: nat, mode: DisplayMode) {
    w < 0x1_0000_0000 && (mode != HexMode || w == 1 || w % 4 == 0)
  }

  /** The names in use, how constants are written, and what everything stands for. */
  datatype Context = Context(bs: Abbreviations, mode: DisplayMode, env: Environment, a: Assignment) {
    /** Every name stands for its expression at the expression's own sort. */
    ghost predicate Bound() {
      forall e :: e in bs ==> bs[e] in env && env[bs[e]] == ValueAt(e, GetSort(e), a)
    }
  }

  predicate Printable(e: Expr, mode: DisplayMode) {
    WellTyped(e) && Displays(e, mode)
  }

  /** The printed term is well sorted and has the value of the expression. */
  ghost predicate Prints(e: Expr, s: Sort, c: Context)
    requires WellTyped(e)
  {
    Meaning(Print(e, s, c.bs, c.mode), c.env, c.a) == Some(ValueAt(e, s, c.a))
  }

  ghost predicate PrintsFull(e: Expr, s: Sort, c: Context)
    requires WellTyped(e)
  {
    Meaning(PrintFull(e, s, c.bs, c.mode), c.env, c.a) == Some(ValueAt(e, s, c.a))
  }

  lemma {:induction false} SortOfBool(e: Expr)
    requires WellTyped(e) && GetSort(e) == SortBool
    ensures Width(e) == 1
    decreases e
  {
    if e.NotOptimized? {
      SortOfBool(e.src);
    }
  }

  lemma {:induction false} CastMeaning(t: Term, s: Sort, v: nat, w: nat, env: Environment, a: Assignment)
    requires 0 < w && v < Bits.Pow2(w)
    requires s == SortBitVector ==> w == 1 && Meaning(t, env, a) == Some(Truth(v != 0))
    requires s == SortBool ==> Meaning(t, env, a) == Some(Word(v, w))
    ensures Meaning(CastTo(t, s, w), env, a) == Some(if s == SortBool then Truth(v != 0) else Word(v, w))
  {
    Bits.Pow2Double(0);
    assert Meaning(Decimal(1, 1), env, a) == Some(Word(1, 1)) && Meaning(Decimal(0, 1), env, a) == Some(Word(0, 1));
    assert Meaning(Decimal(0, w), env, a) == Some(Word(0, w));
  }

  lemma {:induction false} CastPrinted(e: Expr, s: Sort, c: Context)
    requires WellTyped(e) && GetSort(e) != s && Prints(e, GetSort(e), c)
    ensures Prints(e, s, c)
  {
    hide Meaning, PrintFull, Eval, CastTo, WellTyped;
    EvalBound(e, c.a);
    PositiveWidth(e);
    if s == SortBitVector {
      SortOfBool(e);
    }
    CastMeaning(Print(e, GetSort(e), c.bs, c.mode), s, Eval(e, c.a), Width(e), c.env, c.a);
  }

  lemma {:induction false} NamedPrinted(e: Expr, c: Context)
    requires WellTyped(e) && c.Bound() && e in c.bs
    ensures Prints(e, GetSort(e), c)
  {
  }

  /** Printing at either sort yields a well-sorted term with the value of the expression. */
  lemma {:induction false} PrintMeaning(e: Expr, s: Sort, c: Context)
    requires Printable(e, c.mode) && c.Bound()
    ensures Prints(e, s, c)
    decreases Size(e), if GetSort(e) != s then 2 else 1
  {
    hide Meaning, PrintFull, ValueAt, WellTyped, Displays, GetSort, Eval;
    if GetSort(e) != s {
      PrintMeaning(e, GetSort(e), c);
      CastPrinted(e, s, c);
    } else if e in c.bs {
      NamedPrinted(e, c);
    } else {
      FullMeaning(e, s, c);
    }
  }

  lemma {:induction false} FullMeaning(e: Expr, s: Sort, c: Context)
    requires Printable(e, c.mode) && c.Bound() && GetSort(e) == s
    ensures PrintsFull(e, s, c)
    decreases Size(e), 0
  {
    hide PrintsFull, Printable, GetSort, Eval;
    match e
    case Constant(v, bits) => ConstantPrinted(v, bits, s, c);
    case NotOptimized(src) => NotOptimizedPrinted(src, s, c);
    case Read(root, updates, index) => ReadPrinted(root, updates, index, s, c);
    case Select(cond, x, y) => SelectPrinted(cond, x, y, s, c);
    case Concat(l, r) => ConcatPrinted(l, r, s, c);
    case Extract(src, off, bits) => ExtractPrinted(src, off, bits, s, c);
    case ZExt(src, bits) => ZExtPrinted(src, bits, s, c);
    case SExt(src, bits) => SExtPrinted(src, bits, s, c);
    case Not(src) => NotPrinted(src, s, c);
    case Binary(op, l, r) =>
      if op.Eq? || op.Ne? {
        EqualityPrinted(op, l, r, s, c);
      } else if op.AShr? {
        AShrPrinted(l, r, s, c);
      } else if (op.And? || op.Or? || op.Xor?) && s == SortBool {
        ConnectivePrinted(op, l, r, s, c);
      } else {
        OperatorPrinted(op, l, r, s, c);
      }
  }

  lemma {:induction false} ConstantPrinted(v: nat, bits: nat, s: Sort, c: Context)
    requires Printable(Constant(v, bits), c.mode) && c.Bound() && GetSort(Constant(v, bits)) == s
    ensures PrintsFull(Constant(v, bits), s, c)
    decreases 0, 0
  {
    ConstantMeaning(v, bits, c.mode, c.env, c.a);
  }

  lemma {:induction false} NotOptimizedPrinted(src: Expr, s: Sort, c: Context)
    requires Printable(NotOptimized(src), c.mode) && c.Bound() && GetSort(NotOptimized(src)) == s
    ensures PrintsFull(NotOptimized(src), s, c)
    decreases Size(src), 3
  {
    hide Print, Context.Bound;
    PrintMeaning(src, s, c);
    assert ValueAt(NotOptimized(src), s, c.a) == ValueAt(src, s, c.a);
  }

  lemma {:induction false} ReadPrinted(root: Array, u: Updates, index: Expr, s: Sort, c: Context)
    requires Printable(Read(root, u, index), c.mode) && c.Bound() && GetSort(Read(root, u, index)) == s
    ensures PrintsFull(Read(root, u, index), s, c)
    decreases UpdatesSize(u) + Size(index), 3
  {
    hide Print, PrintArray, ValueAt, Eval, Context.Bound, SelectMeaning, ReadValue;
    ArrayPrinted(root, u, c);
    PrintMeaning(index, SortBitVector, c);
    ReadValueAt(root, u, index, c.a);
  }

  lemma {:induction false} SelectPrinted(cond: Expr, x: Expr, y: Expr, s: Sort, c: Context)
    requires Printable(Select(cond, x, y), c.mode) && c.Bound() && GetSort(Select(cond, x, y)) == s
    ensures PrintsFull(Select(cond, x, y), s, c)
    decreases Size(cond) + Size(x) + Size(y), 3
  {
    hide Print, PrintArray, ValueAt, Eval, Context.Bound, IteMeaning;
    PrintMeaning(cond, SortBool, c);
    PrintMeaning(x, s, c);
    PrintMeaning(y, s, c);
    SelectValueAt(cond, x, y, s, c.a);
  }

  lemma {:induction false} ConcatPrinted(l: Expr, r: Expr, s: Sort, c: Context)
    requires Printable(Concat(l, r), c.mode) && c.Bound() && GetSort(Concat(l, r)) == s
    ensures PrintsFull(Concat(l, r), s, c)
    decreases Size(l) + Size(r), 3
  {
    hide Print, PrintArray, ValueAt, Eval, Context.Bound, ConcatMeaning;
    PrintMeaning(l, SortBitVector, c);
    PrintMeaning(r, SortBitVector, c);
    ConcatValueAt(l, r, c.a);
  }

  lemma {:induction false} ExtractPrinted(src: Expr, off: nat, bits: nat, s: Sort, c: Context)
    requires Printable(Extract(src, off, bits), c.mode) && c.Bound() && GetSort(Extract(src, off, bits)) == s
    ensures PrintsFull(Extract(src, off, bits), s, c)
    decreases Size(src), 3
  {
    hide Print, PrintArray, ValueAt, Eval, Context.Bound, ExtractMeaning;
    PrintMeaning(src, SortBitVector, c);
    ExtractValueAt(src, off, bits, c.a);
  }

  lemma {:induction false} ZExtPrinted(src: Expr, bits: nat, s: Sort, c: Context)
    requires Printable(ZExt(src, bits), c.mode) && c.Bound() && GetSort(ZExt(src, bits)) == s
    ensures PrintsFull(ZExt(src, bits), s, c)
    decreases Size(src), 3
  {
    hide Print, PrintArray, ValueAt, Eval, Context.Bound, ZeroExtendMeaning;
    PrintMeaning(src, SortBitVector, c);
    ExtensionValueAt(src, bits, c.a);
  }

  lemma {:induction false} SExtPrinted(src: Expr, bits: nat, s: Sort, c: Context)
    requires Printable(SExt(src, bits), c.mode) && c.Bound() && GetSort(SExt(src, bits)) == s
    ensures PrintsFull(SExt(src, bits), s, c)
    decreases Size(src), 3
  {
    hide Print, PrintArray, ValueAt, Eval, Context.Bound, SignExtendMeaning;
    PrintMeaning(src, SortBitVector, c);
    ExtensionValueAt(src, bits, c.a);
  }

  lemma {:induction false} NotPrinted(src: Expr, s: Sort, c: Context)
    requires Printable(Not(src), c.mode) && c.Bound() && GetSort(Not(src)) == s
    ensures PrintsFull(Not(src), s, c)
    decreases Size(src), 3
  {
    hide Print, PrintArray, ValueAt, Eval, Context.Bound, BvNotMeaning, NotMeaning;
    PrintMeaning(src, s, c);
    NotValueAt(src, c.a);
  }

  lemma {:induction false} EqualityPrinted(op: BinOp, l: Expr, r: Expr, s: Sort, c: Context)
    requires Printable(Binary(op, l, r), c.mode) && c.Bound() && GetSort(Binary(op, l, r)) == s
    requires op.Eq? || op.Ne?
    ensures PrintsFull(Binary(op, l, r), s, c)
    decreases Size(l) + Size(r), 3
  {
    hide Print, PrintArray, ValueAt, Eval, Context.Bound, EqualMeaning, NotMeaning;
    PrintMeaning(l, GetSort(l), c);
    PrintMeaning(r, GetSort(l), c);
    EqualityMeaning(op, l, r, c.a);
  }

  lemma {:induction false} ConnectivePrinted(op: BinOp, l: Expr, r: Expr, s: Sort, c: Context)
    requires Printable(Binary(op, l, r), c.mode) && c.Bound() && GetSort(Binary(op, l, r)) == s
    requires (op.And? || op.Or? || op.Xor?) && s == SortBool
    ensures PrintsFull(Binary(op, l, r), s, c)
    decreases Size(l) + Size(r), 3
  {
    hide Print, PrintArray, ValueAt, Eval, Context.Bound, CoreMeaning, CoreKeyword;
    PrintMeaning(l, s, c);
    PrintMeaning(r, s, c);
    ConnectiveMeaning(op, l, r, c.a);
  }

  lemma {:induction false} AShrPrinted(l: Expr, r: Expr, s: Sort, c: Context)
    requires Printable(Binary(AShr, l, r), c.mode) && c.Bound() && GetSort(Binary(AShr, l, r)) == s
    ensures PrintsFull(Binary(AShr, l, r), s, c)
    decreases Size(l) + Size(r), 3
  {
    hide Print, PrintArray, ValueAt, Eval, Context.Bound, IteMeaning, PredMeaning, BvMeaning;
    PrintMeaning(l, SortBitVector, c);
    PrintMeaning(r, SortBitVector, c);
    WidthPrinted(Width(l), c);
    AShrMeaning(l, r, c.a);
    AShrTerm(l, r, c);
  }

  /** How the guarded shift is put together. */
  lemma {:induction false} AShrTerm(l: Expr, r: Expr, c: Context)
    requires WellTyped(l) && WellTyped(r) && 1 < Width(l) < Bits.Pow2(Width(l))
    ensures var (w, m) := (Width(l), t => Meaning(t, c.env, c.a));
            var (x, y) := (Print(l, SortBitVector, c.bs, c.mode), Print(r, SortBitVector, c.bs, c.mode));
            m(PrintAShr(l, r, c.bs, c.mode)) ==
            IteMeaning(PredMeaning(BvUge, m(y), m(Print(Constant(w, w), SortBitVector, c.bs, c.mode))),
                       m(Print(Constant(0, w), SortBitVector, c.bs, c.mode)), BvMeaning(BvAShr, m(x), m(y)))
  {
    hide Print, IteMeaning, PredMeaning, BvMeaning;
    var x, y := Print(l, SortBitVector, c.bs, c.mode), Print(r, SortBitVector, c.bs, c.mode);
    var limit := Print(Constant(Width(l), Width(l)), SortBitVector, c.bs, c.mode);
    assert Meaning(Pred(BvUge, y, limit), c.env, c.a)
        == PredMeaning(BvUge, Meaning(y, c.env, c.a), Meaning(limit, c.env, c.a));
  }

  lemma {:induction false} OperatorPrinted(op: BinOp, l: Expr, r: Expr, s: Sort, c: Context)
    requires Printable(Binary(op, l, r), c.mode) && c.Bound() && GetSort(Binary(op, l, r)) == s
    requires !op.Eq? && !op.Ne? && !op.AShr? && !((op.And? || op.Or? || op.Xor?) && s == SortBool)
    ensures PrintsFull(Binary(op, l, r), s, c)
    decreases Size(l) + Size(r), 3
  {
    hide Print, PrintArray, ValueAt, Eval, Context.Bound, PredMeaning, BvMeaning, Keyword, PredKeyword;
    PrintMeaning(l, SortBitVector, c);
    PrintMeaning(r, SortBitVector, c);
    OperatorMeaning(op, l, r, c.a);
  }

  /** The width and zero as constants of that width. */
  lemma {:induction false} WidthPrinted(w: nat, c: Context)
    requires 1 < w && WidthDisplays(w, c.mode) && c.Bound()
    ensures w < Bits.Pow2(w)
    ensures Meaning(Print(Constant(w, w), SortBitVector, c.bs, c.mode), c.env, c.a) == Some(Word(w, w))
    ensures Meaning(Print(Constant(0, w), SortBitVector, c.bs, c.mode), c.env, c.a) == Some(Word(0, w))
    decreases 1, 3
  {
    hide Meaning, Print, Context.Bound;
    Bits.WidthFits(w);
    PrintMeaning(Constant(w, w), SortBitVector, c);
    PrintMeaning(Constant(0, w), SortBitVector, c);
  }

  /** The array with its updates holds what the read expression would find. */
  lemma {:induction false} ArrayPrinted(root: Array, u: Updates, c: Context)
    requires root.Valid() && UpdatesWellTyped(root, u) && UpdatesDisplay(u, c.mode) && c.Bound()
    ensures HoldsUpdates(ArrayMeaning(PrintArray(root, u, c.bs, c.mode), c.env, c.a), root, u, c.a)
    decreases 1 + UpdatesSize(u), 0
  {
    hide Print, Eval, Context.Bound, WellTyped, Displays, Meaning;
    match u
    case NoUpdate =>
    case Update(next, index, value) =>
      ArrayPrinted(root, next, c);
      PrintMeaning(index, SortBitVector, c);
      PrintMeaning(value, SortBitVector, c);
  }

  ghost predicate HoldsUpdates(m: Option<ArrayValue>, root: Array, u: Updates, a: Assignment) {
    && m.Some? && m.value.domain == root.domain && m.value.range == root.range
    && forall i: nat :: m.value.cells(i) == ReadValue(root, u, i, a)
  }

  // --- Each operator on values --------------------------------------------------------------------

  lemma {:induction false} ReadValueAt(root: Array, u: Updates, index: Expr, a: Assignment)
    requires WellTyped(Read(root, u, index))
    ensures forall m :: HoldsUpdates(m, root, u, a) ==>
              SelectMeaning(m, Some(ValueAt(index, SortBitVector, a)))
              == Some(ValueAt(Read(root, u, index), SortBitVector, a))
  {
  }

  lemma {:induction false} SelectValueAt(cond: Expr, x: Expr, y: Expr, s: Sort, a: Assignment)
    requires WellTyped(Select(cond, x, y))
    ensures IteMeaning(Some(ValueAt(cond, SortBool, a)), Some(ValueAt(x, s, a)), Some(ValueAt(y, s, a)))
         == Some(ValueAt(Select(cond, x, y), s, a))
  {
    BoolValue(cond, a);
  }

  lemma {:induction false} ConcatValueAt(l: Expr, r: Expr, a: Assignment)
    ensures ConcatMeaning(Some(ValueAt(l, SortBitVector, a)), Some(ValueAt(r, SortBitVector, a)))
         == Some(ValueAt(Concat(l, r), SortBitVector, a))
  {
  }

  lemma {:induction false} ExtractValueAt(src: Expr, off: nat, bits: nat, a: Assignment)
    requires WellTyped(Extract(src, off, bits))
    ensures ExtractMeaning(off + bits - 1, off, Some(ValueAt(src, SortBitVector, a)))
         == Some(ValueAt(Extract(src, off, bits), SortBitVector, a))
  {
  }

  lemma {:induction false} ExtensionValueAt(src: Expr, bits: nat, a: Assignment)
    requires WellTyped(src) && Width(src) <= bits
    ensures ZeroExtendMeaning(bits - Width(src), Some(ValueAt(src, SortBitVector, a)))
         == Some(ValueAt(ZExt(src, bits), SortBitVector, a))
    ensures SignExtendMeaning(bits - Width(src), Some(ValueAt(src, SortBitVector, a)))
         == Some(ValueAt(SExt(src, bits), SortBitVector, a))
  {
  }

  lemma {:induction false} NotValueAt(src: Expr, a: Assignment)
    requires WellTyped(src)
    ensures BvNotMeaning(Some(ValueAt(src, SortBitVector, a))) == Some(ValueAt(Not(src), SortBitVector, a))
    ensures Width(src) == 1 ==> NotMeaning(Some(ValueAt(src, SortBool, a))) == Some(ValueAt(Not(src), SortBool, a))
  {
    EvalBound(src, a);
    Bits.Pow2Double(0);
  }

  /** Equality at the sort of the left operand. */
  lemma {:induction false} EqualityMeaning(op: BinOp, l: Expr, r: Expr, a: Assignment)
    requires WellTyped(Binary(op, l, r)) && (op.Eq? || op.Ne?)
    ensures var m := EqualMeaning(Some(ValueAt(l, GetSort(l), a)), Some(ValueAt(r, GetSort(l), a)));
            (if op.Eq? then m else NotMeaning(m)) == Some(ValueAt(Binary(op, l, r), SortBool, a))
  {
    EvalBound(l, a);
    EvalBound(r, a);
    if GetSort(l) == SortBool {
      SortOfBool(l);
      BoolValue(l, a);
      BoolValue(r, a);
    }
  }

  /** The connectives of Bool are the bitwise operators on single bits. */
  lemma {:induction false} ConnectiveMeaning(op: BinOp, l: Expr, r: Expr, a: Assignment)
    requires IsBool(l) && IsBool(r) && (op.And? || op.Or? || op.Xor?)
    ensures CoreMeaning(CoreKeyword(op), Some(ValueAt(l, SortBool, a)), Some(ValueAt(r, SortBool, a)))
         == Some(ValueAt(Binary(op, l, r), SortBool, a))
  {
    EvalBound(l, a);
    EvalBound(r, a);
    TwoBits(l, r, a);
  }

  lemma {:induction false} OperatorMeaning(op: BinOp, l: Expr, r: Expr, a: Assignment)
    requires WellTyped(Binary(op, l, r)) && !op.Eq? && !op.Ne? && !op.AShr?
    ensures IsCompare(op) ==>
              PredMeaning(PredKeyword(op), Some(ValueAt(l, SortBitVector, a)), Some(ValueAt(r, SortBitVector, a)))
              == Some(ValueAt(Binary(op, l, r), SortBool, a))
    ensures !IsCompare(op) ==>
              BvMeaning(Keyword(op), Some(ValueAt(l, SortBitVector, a)), Some(ValueAt(r, SortBitVector, a)))
              == Some(ValueAt(Binary(op, l, r), SortBitVector, a))
  {
    EvalBound(l, a);
    EvalBound(r, a);
    KeywordValue(op, Eval(l, a), Eval(r, a), Width(l));
  }

  /** Each operator is printed as the one that computes it. */
  lemma {:induction false} KeywordValue(op: BinOp, x: nat, y: nat, w: nat)
    requires x < Bits.Pow2(w) && y < Bits.Pow2(w) && !op.Eq? && !op.Ne? && !op.AShr?
    ensures IsCompare(op) ==> BinaryValue(op, x, y, w) == FromBool(PredHolds(PredKeyword(op), x, y, w))
    ensures !IsCompare(op) ==> BinaryValue(op, x, y, w) == BvValue(Keyword(op), x, y, w)
  {
    hide Bits.AddMod, Bits.SubMod, Bits.MulMod, Bits.UDiv, Bits.SDiv, Bits.URem, Bits.SRem, Bits.BitAnd, Bits.BitOr,
         Bits.BitXor, Bits.Shl, Bits.LShr, Bits.Signed;
  }

  /** The guard of the shift makes up for the difference between the two definitions. */
  lemma {:induction false} AShrMeaning(l: Expr, r: Expr, a: Assignment)
    requires WellTyped(Binary(AShr, l, r)) && Width(l) < 0x1_0000_0000
    ensures var (x, y) := (Some(ValueAt(l, SortBitVector, a)), Some(ValueAt(r, SortBitVector, a)));
            IteMeaning(PredMeaning(BvUge, y, Some(Word(Width(l), Width(l)))), Some(Word(0, Width(l))),
                       BvMeaning(BvAShr, x, y)) ==
            Some(ValueAt(Binary(AShr, l, r), SortBitVector, a))
  {
    EvalBound(l, a);
    EvalBound(r, a);
    ShiftFills(Eval(l, a), Eval(r, a), Width(l));
  }

  lemma {:induction false} ShiftFills(x: nat, y: nat, w: nat)
    requires x < Bits.Pow2(w) && y < Bits.Pow2(w)
    ensures BinaryValue(AShr, x, y, w) == if y < w then BvValue(BvAShr, x, y, w) else 0
  {
  }
}
