/** The constructors that cut and join bit ranges: Concat, Extract, ZExt and SExt. */
module Slices {
  import Bits
  import BitLaws
  import opened Exprs

  // --- Folding of constants -----------------------------------------------------------

  /** Shift the left constant past the right one and merge the bits. */
  function ConstConcat(l: Expr, r: Expr): (c: Expr)
    requires l.Constant? && r.Constant? && WellTyped(l) && WellTyped(r)
    ensures c.Constant? && WellTyped(c) && Width(c) == Width(l) + Width(r)
  {
    var w := l.bits + r.bits;
    Bits.Pow2Monotone(r.bits, w);
    Bits.BitwiseBounded(Bits.Shl(l.value, r.bits, w), r.value, w);
    Constant(Bits.BitOr(Bits.Shl(l.value, r.bits, w), r.value), w)
  }

  function ConstExtract(c: Expr, off: nat, w: nat): (r: Expr)
    requires c.Constant? && WellTyped(c) && 0 < w && off + w <= c.bits
    ensures r.Constant? && WellTyped(r) && Width(r) == w
  {
    Constant(Bits.Trunc(Bits.AShr(c.value, off, c.bits), w), w)
  }

  /** Zero extension or truncation to any width. */
  function ConstZExt(c: Expr, w: nat): (r: Expr)
    requires c.Constant? && WellTyped(c) && 0 < w
    ensures r.Constant? && WellTyped(r) && Width(r) == w
  {
    Constant(Bits.Trunc(c.value, w), w)
  }

  /** Sign extension or truncation to any width. */
  function ConstSExt(c: Expr, w: nat): (r: Expr)
    requires c.Constant? && WellTyped(c) && 0 < w
    ensures r.Constant? && WellTyped(r) && Width(r) == w
  {
    Bits.Pow2Monotone(if c.bits <= w then c.bits else w, w);
    Constant(if c.bits <= w then Bits.SignExtend(c.value, c.bits, w) else Bits.Trunc(c.value, w), w)
  }

  lemma {:induction false} ConstConcatValue(l: Expr, r: Expr)
    requires l.Constant? && r.Constant? && WellTyped(l) && WellTyped(r)
    ensures ConstConcat(l, r).value == Bits.Join(l.value, r.value, r.bits)
  {
    var w := l.bits + r.bits;
    Bits.JoinBound(l.value, 0, l.bits, r.bits);
    Bits.TruncWhole(Bits.Join(l.value, 0, r.bits), w);
    Bits.MergeDisjointBits(l.value, r.value, r.bits);
  }

  // --- Concat and Extract ---------------------------------------------------------------

  function ConcatCreate(l: Expr, r: Expr): (e: Expr)
    requires WellTyped(l) && WellTyped(r)
    ensures WellTyped(e) && Width(e) == Width(l) + Width(r)
    ensures Weight(e) <= 1 + Weight(l) + Weight(r)
    decreases Weight(l), 1
  {
    if l.Constant? && r.Constant? then ConstConcat(l, r)
    else if l.Extract? && r.Extract? && l.src == r.src && r.offset + r.bits == l.offset then
      ExtractCreate(l.src, r.offset, Width(l) + Width(r))
    else Concat(l, r)
  }

  function ExtractCreate(e: Expr, off: nat, w: nat): (r: Expr)
    requires WellTyped(e) && 0 < w && off + w <= Width(e)
    ensures WellTyped(r) && Width(r) == w
    ensures Weight(r) <= 2 * Weight(e)
    decreases 2 * Weight(e), 0
  {
    if w == Width(e) then e
    else if e.Constant? then ConstExtract(e, off, w)
    else if e.Concat? then
      var wr := Width(e.right);
      if off >= wr then ExtractCreate(e.left, off - wr, w)
      else if off + w <= wr then ExtractCreate(e.right, off, w)
      else
        ConcatCreate(ExtractCreate(e.left, 0, w - wr + off), ExtractCreate(e.right, off, wr - off))
    else Extract(e, off, w)
  }

  lemma {:induction false} ConcatValue(l: Expr, r: Expr, a: Assignment)
    requires WellTyped(l) && WellTyped(r)
    ensures Eval(ConcatCreate(l, r), a) == Bits.Join(Eval(l, a), Eval(r, a), Width(r))
    decreases Weight(l), 3
  {
    hide Eval, ExtractCreate, ConstConcat, Weight;
    JoinNodes(l, r, a);
    if l.Constant? && r.Constant? {
      ConstConcatValue(l, r);
      assert Eval(ConstConcat(l, r), a) == ConstConcat(l, r).value;
    } else if l.Extract? && r.Extract? && l.src == r.src && r.offset + r.bits == l.offset {
      FuseValue(l, r, a);
    } else {
      assert ConcatCreate(l, r) == Concat(l, r);
    }
  }

  lemma {:induction false} JoinNodes(l: Expr, r: Expr, a: Assignment)
    ensures Eval(Concat(l, r), a) == Bits.Join(Eval(l, a), Eval(r, a), Width(r))
    ensures forall c: Expr :: c.Constant? ==> Eval(c, a) == c.value
  {
  }

  /** Adjacent extracts of one term fuse into a single extract. */
  lemma {:induction false} FuseValue(l: Expr, r: Expr, a: Assignment)
    requires WellTyped(l) && WellTyped(r) && l.Extract? && r.Extract?
    requires l.src == r.src && r.offset + r.bits == l.offset
    ensures Eval(ExtractCreate(l.src, r.offset, l.bits + r.bits), a)
         == Bits.Join(Eval(l, a), Eval(r, a), r.bits)
    decreases Weight(l), 2
  {
    hide Eval, ExtractCreate;
    ExtractNode(l, a);
    ExtractNode(r, a);
    ExtractValue(l.src, r.offset, l.bits + r.bits, a);
    Bits.SliceSplit(Eval(l.src, a), r.offset, r.bits, l.bits);
  }

  lemma {:induction false} ExtractNode(e: Expr, a: Assignment)
    requires e.Extract?
    ensures Eval(e, a) == Bits.Slice(Eval(e.src, a), e.offset, e.bits)
  {
  }

  lemma {:induction false} ExtractValue(e: Expr, off: nat, w: nat, a: Assignment)
    requires WellTyped(e) && 0 < w && off + w <= Width(e)
    ensures Eval(ExtractCreate(e, off, w), a) == Bits.Slice(Eval(e, a), off, w)
    decreases 2 * Weight(e), 1
  {
    EvalBound(e, a);
    if w == Width(e) {
      Bits.TruncWhole(Eval(e, a), w);
    } else if e.Constant? {
      Bits.SliceByAShr(e.value, e.bits, off, w);
    } else if e.Concat? {
      if off >= Width(e.right) {
        ExtractValue(e.left, off - Width(e.right), w, a);
        Bits.SliceHigh(Eval(e.left, a), Eval(e.right, a), Width(e.right), off, w);
      } else if off + w <= Width(e.right) {
        ExtractValue(e.right, off, w, a);
        Bits.SliceLow(Eval(e.left, a), Eval(e.right, a), Width(e.right), off, w);
      } else {
        ExtractStraddleValue(e, off, w, a);
      }
    }
  }

  lemma {:induction false} ExtractStraddleValue(e: Expr, off: nat, w: nat, a: Assignment)
    requires WellTyped(e) && e.Concat? && off < Width(e.right) < off + w < Width(e) + off && off + w <= Width(e)
    ensures Eval(ExtractCreate(e, off, w), a) == Bits.Slice(Eval(e, a), off, w)
    decreases 2 * Weight(e), 0
  {
    hide Eval;
    var wr := Width(e.right);
    var high, low := ExtractCreate(e.left, 0, w - wr + off), ExtractCreate(e.right, off, wr - off);
    JoinNodes(e.left, e.right, a);
    ExtractValue(e.left, 0, w - wr + off, a);
    ExtractValue(e.right, off, wr - off, a);
    ConcatValue(high, low, a);
    Bits.SliceStraddle(Eval(e.left, a), Eval(e.right, a), wr, off, w);
  }

  // --- Extensions -------------------------------------------------------------------------

  function ZExtCreate(e: Expr, w: nat): (r: Expr)
    requires WellTyped(e) && 0 < w
    ensures WellTyped(r) && Width(r) == w
    ensures Weight(r) <= 1 + 2 * Weight(e)
  {
    if w == Width(e) then e
    else if w < Width(e) then ExtractCreate(e, 0, w)
    else if e.Constant? then ConstZExt(e, w)
    else ZExt(e, w)
  }

  function SExtCreate(e: Expr, w: nat): (r: Expr)
    requires WellTyped(e) && 0 < w
    ensures WellTyped(r) && Width(r) == w
    ensures Weight(r) <= 1 + 2 * Weight(e)
  {
    if w == Width(e) then e
    else if w < Width(e) then ExtractCreate(e, 0, w)
    else if e.Constant? then ConstSExt(e, w)
    else SExt(e, w)
  }

  /** Zero extension keeps the value; towards a smaller width both extensions truncate. */
  lemma {:induction false} ZExtValue(e: Expr, w: nat, a: Assignment)
    requires WellTyped(e) && 0 < w
    ensures Eval(ZExtCreate(e, w), a) == Bits.Trunc(Eval(e, a), w)
  {
    var v := Eval(e, a);
    if w < Width(e) {
      ExtractValue(e, 0, w, a);
    } else {
      EvalBound(e, a);
      Bits.Pow2Monotone(Width(e), w);
      Bits.TruncWhole(v, w);
    }
  }

  lemma {:induction false} SExtValue(e: Expr, w: nat, a: Assignment)
    requires WellTyped(e) && 0 < w
    ensures Eval(SExtCreate(e, w), a)
         == if Width(e) <= w then Bits.SignExtend(Eval(e, a), Width(e), w) else Bits.Trunc(Eval(e, a), w)
    ensures Width(e) <= w ==> Bits.Signed(Eval(SExtCreate(e, w), a), w) == Bits.Signed(Eval(e, a), Width(e))
  {
    hide Bits.Signed, Bits.Trunc;
    var v := Eval(e, a);
    PositiveWidth(e);
    EvalBound(e, a);
    if w < Width(e) {
      ExtractValue(e, 0, w, a);
    } else {
      BitLaws.SignExtendSigned(v, Width(e), w);
    }
  }

  // --- Joining many parts -------------------------------------------------------------------

  predicate AllWellTyped(kids: seq<Expr>) {
    forall i :: 0 <= i < |kids| ==> WellTyped(kids[i])
  }

  function WidthOf(kids: seq<Expr>): (w: nat) {
    if kids == [] then 0 else Width(kids[0]) + WidthOf(kids[1..])
  }

  /** The kids' values as one number, the first kid most significant. */
  function JoinAll(kids: seq<Expr>, a: Assignment): (v: nat)
    requires AllWellTyped(kids)
  {
    if kids == [] then 0
    else Bits.Join(Eval(kids[0], a), JoinAll(kids[1..], a), WidthOf(kids[1..]))
  }

  /** ConcatExpr::createN: a chain that leans to the right, built from its end. */
  method ConcatN(kids: seq<Expr>) returns (r: Expr)
    requires kids != [] && AllWellTyped(kids)
    ensures WellTyped(r) && Width(r) == WidthOf(kids)
    ensures forall a :: Eval(r, a) == JoinAll(kids, a)
  {
    var n := |kids|;
    r := kids[n - 1];
    assert kids[n - 1..] == [r];
    assert kids[n - 1..][1..] == [];
    var i := n - 1;
    while i > 0
      invariant 0 <= i < n
      invariant WellTyped(r) && Width(r) == WidthOf(kids[i..])
      invariant forall a :: Eval(r, a) == JoinAll(kids[i..], a)
    {
      i := i - 1;
      assert kids[i..][1..] == kids[i + 1..];
      forall a ensures Eval(ConcatCreate(kids[i], r), a) == JoinAll(kids[i..], a) {
        ConcatValue(kids[i], r, a);
      }
      r := ConcatCreate(kids[i], r);
    }
    assert kids[0..] == kids;
  }
}
