/** The optional rewriting of a comparison with a constant-array element into comparisons of
    the index. */
module ConstArrayOpt {
  import Bits
  import opened Exprs
  import opened Booleans

  const MAX_MATCHES: nat := 100

  /** The positions of a value among the first n elements. */
  function Matches(root: Array, v: nat, n: nat): (ps: seq<nat>)
    requires n <= |root.constants|
  {
    if n == 0 then []
    else if root.constants[n - 1] == v then Matches(root, v, n - 1) + [n - 1]
    else Matches(root, v, n - 1)
  }

  lemma {:induction false} MatchesMonotone(root: Array, v: nat, m: nat, n: nat)
    requires m <= n <= |root.constants|
    ensures |Matches(root, v, m)| <= |Matches(root, v, n)|
    decreases n
  {
    if m < n {
      MatchesMonotone(root, v, m, n - 1);
    }
  }

  /** The index has one of the first n positions and the element there is the constant. */
  predicate Found(root: Array, v: nat, n: nat, i: nat) {
    i < n <= |root.constants| && root.constants[i] == v
  }

  /** A disjunction of index comparisons for a read from a constant array without updates that
      has the constant at most a hundred times, and the plain comparison for any other. */
  method TryConstArrayOpt(c: Expr, r: Expr) returns (e: Expr)
    requires r.Read? && c.Constant? && Operands(c, r)
    requires !r.root.IsSymbolic() ==> r.root.size <= Bits.Pow2(r.root.domain)
    ensures IsBool(e)
    ensures r.root.IsSymbolic() || r.updates.Update? || |Matches(r.root, c.value, r.root.size)| > MAX_MATCHES ==>
              forall a :: Holds(e, a) <==> c.value == Eval(r, a)
    ensures !r.root.IsSymbolic() && r.updates.NoUpdate? && |Matches(r.root, c.value, r.root.size)| <= MAX_MATCHES ==>
              forall a :: Holds(e, a) <==> Found(r.root, c.value, r.root.size, Eval(r.index, a))
  {
    hide EqCreate, OrCreate, Holds, Eval;
    PlainComparison(c, r);
    if r.root.IsSymbolic() || r.updates.Update? {
      return EqAlloc(c, r);
    }
    var numMatches := 0;
    e := Bool(false);
    Nowhere();
    for i := 0 to r.root.size
      invariant numMatches == |Matches(r.root, c.value, i)| <= MAX_MATCHES && IsBool(e)
      invariant forall a :: Holds(e, a) <==> Found(r.root, c.value, i, Eval(r.index, a))
    {
      if r.root.constants[i] == c.value {
        numMatches := numMatches + 1;
        MatchesMonotone(r.root, c.value, i + 1, r.root.size);
        if numMatches > MAX_MATCHES {
          return EqAlloc(c, r);
        }
        var mayBe := EqCreate(r.index, Constant(i, r.root.domain));
        forall a ensures Holds(OrCreate(e, mayBe), a) <==> Holds(e, a) || Eval(r.index, a) == i {
          EqValue(r.index, Constant(i, r.root.domain), a);
          IndexValue(i, r.root.domain, a);
          Connectives(e, mayBe, a);
        }
        e := OrCreate(e, mayBe);
      }
    }
  }

  lemma {:induction false} PlainComparison(c: Expr, r: Expr)
    requires c.Constant? && Operands(c, r)
    ensures IsBool(EqAlloc(c, r)) && forall a :: Holds(EqAlloc(c, r), a) <==> c.value == Eval(r, a)
  {
    forall a ensures Holds(EqAlloc(c, r), a) <==> c.value == Eval(r, a) {
      EqAllocValue(c, r, a);
    }
  }

  lemma {:induction false} Nowhere()
    ensures forall a :: !Holds(Bool(false), a)
  {
  }

  lemma {:induction false} IndexValue(i: nat, w: nat, a: Assignment)
    ensures Eval(Constant(i, w), a) == i
  {
  }

  // --- When it is right -------------------------------------------------------------------

  /** The array occurs in the expression or in its update lists. */
  predicate Mentions(e: Expr, root: Array)
    decreases e
  {
    match e
    case Constant(_, _) => false
    case NotOptimized(src) => Mentions(src, root)
    case Read(other, updates, index) => other == root || UpdatesMention(updates, root) || Mentions(index, root)
    case Select(c, t, f) => Mentions(c, root) || Mentions(t, root) || Mentions(f, root)
    case Concat(l, r) => Mentions(l, root) || Mentions(r, root)
    case Extract(src, _, _) => Mentions(src, root)
    case ZExt(src, _) => Mentions(src, root)
    case SExt(src, _) => Mentions(src, root)
    case Not(src) => Mentions(src, root)
    case Binary(_, l, r) => Mentions(l, root) || Mentions(r, root)
  }

  predicate UpdatesMention(u: Updates, root: Array)
    decreases u
  {
    u.Update? && (UpdatesMention(u.next, root) || Mentions(u.index, root) || Mentions(u.value, root))
  }

  function Rebound(a: Assignment, root: Array, cells: seq<nat>): (b: Assignment) {
    Assignment(a.bindings[root := cells])
  }

  /** What an array holds does not matter to an expression that does not mention it. */
  lemma {:induction false} Unaffected(e: Expr, root: Array, a: Assignment, cells: seq<nat>)
    requires !Mentions(e, root)
    ensures Eval(e, Rebound(a, root, cells)) == Eval(e, a)
    decreases e
  {
    match e
    case Constant(_, _) =>
    case NotOptimized(src) => Unaffected(src, root, a, cells);
    case Read(other, u, index) =>
      Unaffected(index, root, a, cells);
      ReadUnaffected(other, u, Eval(index, a), root, a, cells);
    case Select(c, t, f) => Unaffected(c, root, a, cells); Unaffected(t, root, a, cells); Unaffected(f, root, a, cells);
    case Concat(l, r) => Unaffected(l, root, a, cells); Unaffected(r, root, a, cells);
    case Extract(src, _, _) => Unaffected(src, root, a, cells);
    case ZExt(src, _) => Unaffected(src, root, a, cells);
    case SExt(src, _) => Unaffected(src, root, a, cells);
    case Not(src) => Unaffected(src, root, a, cells);
    case Binary(_, l, r) => Unaffected(l, root, a, cells); Unaffected(r, root, a, cells);
  }

  lemma {:induction false} ReadUnaffected(other: Array, u: Updates, i: nat, root: Array, a: Assignment, cells: seq<nat>)
    requires other != root && !UpdatesMention(u, root)
    ensures ReadValue(other, u, i, Rebound(a, root, cells)) == ReadValue(other, u, i, a)
    decreases u
  {
    if u.Update? {
      Unaffected(u.index, root, a, cells);
      Unaffected(u.value, root, a, cells);
      ReadUnaffected(other, u.next, i, root, a, cells);
    }
  }

  /** The disjunction means the comparison under this assignment. */
  ghost predicate RightUnder(c: Expr, r: Expr, a: Assignment)
    requires r.Read? && c.Constant?
  {
    Found(r.root, c.value, r.root.size, Eval(r.index, a)) <==> c.value == Eval(r, a)
  }

  /** A read of a constant array that the rewriting applies to, and a constant to compare it with. */
  predicate Rewritable(c: Expr, r: Expr) {
    r.Read? && c.Constant? && Operands(c, r) && !r.root.IsSymbolic() && r.updates.NoUpdate?
  }

  lemma {:induction false} RightInside(c: Expr, r: Expr, a: Assignment)
    requires Rewritable(c, r) && Eval(r.index, a) < r.root.size
    ensures RightUnder(c, r, a)
  {
    assert Eval(r, a) == ReadValue(r.root, NoUpdate, Eval(r.index, a), a);
  }

  /** With the constant in the cell beyond the array that the index points to, it is wrong. */
  lemma {:induction false} WrongOutside(c: Expr, r: Expr, a: Assignment, b: Assignment)
    requires Rewritable(c, r) && r.root.size <= Eval(r.index, a) == Eval(r.index, b)
    requires b == Rebound(a, r.root, seq(Eval(r.index, a) + 1, _ => c.value))
    ensures !RightUnder(c, r, b)
  {
    assert Eval(r, b) == ReadValue(r.root, NoUpdate, Eval(r.index, b), b);
    Bits.TruncWhole(c.value, r.root.range);
  }

  /** Over all inputs the disjunction means the comparison exactly when the index, which does
      not read the array itself, is always in bounds. */
  lemma {:induction false} RightInBounds(c: Expr, r: Expr)
    requires Rewritable(c, r) && !Mentions(r.index, r.root)
    ensures (forall a :: RightUnder(c, r, a)) <==> forall a :: Eval(r.index, a) < r.root.size
  {
    hide Eval, Mentions, WellTyped;
    if a :| r.root.size <= Eval(r.index, a) {
      var cells := seq(Eval(r.index, a) + 1, _ => c.value);
      Unaffected(r.index, r.root, a, cells);
      WrongOutside(c, r, a, Rebound(a, r.root, cells));
    }
    forall a | Eval(r.index, a) < r.root.size ensures RightUnder(c, r, a) {
      RightInside(c, r, a);
    }
  }

  /** An index byte beyond an array of one element: the element is not seven, what is read is. */
  lemma {:induction false} WrongBeyondEnd() returns (c: Expr, r: Expr, a: Assignment)
    ensures Rewritable(c, r) && !Mentions(r.index, r.root) && Eval(r.index, a) == 1 && r.root.constants == [0]
    ensures !Found(r.root, c.value, r.root.size, Eval(r.index, a)) && c.value == 7 == Eval(r, a)
  {
    Bits.Pow2Widths();
    var root, input := Array(0, 1, 8, 8, [0]), Array(1, 1, 8, 8, []);
    c, r := Constant(7, 8), Read(root, NoUpdate, Read(input, NoUpdate, Constant(0, 8)));
    a := Assignment(map[input := [1], root := [0, 7]]);
    Bits.TruncWhole(1, 8);
    Bits.TruncWhole(7, 8);
    assert Eval(Constant(0, 8), a) == 0;
    assert Eval(r.index, a) == ReadValue(input, NoUpdate, 0, a) == 1;
    assert Eval(r, a) == ReadValue(root, NoUpdate, 1, a) == 7;
  }
}
