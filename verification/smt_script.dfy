/** The whole script: arrays are declared by name, definitions fix the elements of the constant
    ones, and one assertion asks for a counterexample. */
module SmtScripts {
  import Bits
  import opened Exprs
  import opened Booleans
  import opened Constraints
  import opened Constructors
  import opened SmtAssert
  import opened SmtPrinter
  import opened SmtTerms

  // --- Array names -------------------------------------------------------------------------------

  /** The arrays whose names occur in a term. */
  function Roots(t: Term): (rs: set<Array>)
    decreases t
  {
    match t
    case Bv(_, l, r) => Roots(l) + Roots(r)
    case BvNot(x) => Roots(x)
    case Pred(_, l, r) => Roots(l) + Roots(r)
    case Core(_, l, r) => Roots(l) + Roots(r)
    case CoreNot(x) => Roots(x)
    case Equal(l, r) => Roots(l) + Roots(r)
    case Distinct(l, r) => Roots(l) + Roots(r)
    case Ite(c, x, y) => Roots(c) + Roots(x) + Roots(y)
    case ConcatTerm(l, r) => Roots(l) + Roots(r)
    case ExtractTerm(_, _, x) => Roots(x)
    case ZeroExtend(_, x) => Roots(x)
    case SignExtend(_, x) => Roots(x)
    case SelectTerm(arr, index) => ArrayRoots(arr) + Roots(index)
    case Let(bindings, body) => BindingRoots(bindings) + Roots(body)
    case _ => {}
  }

  function ArrayRoots(t: ArrayTerm): (rs: set<Array>)
    decreases t
  {
    match t
    case ArrayName(root) => {root}
    case StoreTerm(arr, index, value) => ArrayRoots(arr) + Roots(index) + Roots(value)
  }

  function BindingRoots(bs: Bindings): (rs: set<Array>)
    decreases bs
  {
    match bs
    case NoBinding => {}
    case Bind(_, term, rest) => Roots(term) + BindingRoots(rest)
  }

  /** The term as a solver reads it: a name stands for an array about which only what is
      asserted is known. */
  function Declare(t: Term): (d: Term)
    decreases t
  {
    match t
    case Bv(op, l, r) => Bv(op, Declare(l), Declare(r))
    case BvNot(x) => BvNot(Declare(x))
    case Pred(p, l, r) => Pred(p, Declare(l), Declare(r))
    case Core(op, l, r) => Core(op, Declare(l), Declare(r))
    case CoreNot(x) => CoreNot(Declare(x))
    case Equal(l, r) => Equal(Declare(l), Declare(r))
    case Distinct(l, r) => Distinct(Declare(l), Declare(r))
    case Ite(c, x, y) => Ite(Declare(c), Declare(x), Declare(y))
    case ConcatTerm(l, r) => ConcatTerm(Declare(l), Declare(r))
    case ExtractTerm(high, low, x) => ExtractTerm(high, low, Declare(x))
    case ZeroExtend(extra, x) => ZeroExtend(extra, Declare(x))
    case SignExtend(extra, x) => SignExtend(extra, Declare(x))
    case SelectTerm(arr, index) => SelectTerm(DeclareArray(arr), Declare(index))
    case Let(bindings, body) => Let(DeclareBindings(bindings), Declare(body))
    case _ => t
  }

  function DeclareArray(t: ArrayTerm): (d: ArrayTerm)
    decreases t
  {
    match t
    case ArrayName(root) => ArrayName(Declared(root))
    case StoreTerm(arr, index, value) => StoreTerm(DeclareArray(arr), Declare(index), Declare(value))
  }

  function DeclareBindings(bs: Bindings): (d: Bindings)
    decreases bs
  {
    match bs
    case NoBinding => NoBinding
    case Bind(name, term, rest) => Bind(name, Declare(term), DeclareBindings(rest))
  }

  /** The declared arrays have in d the contents that the arrays have in a. */
  ghost predicate Matches(roots: set<Array>, d: Assignment, a: Assignment) {
    forall root, i: nat :: root in roots ==> InitialValue(Declared(root), i, d) == InitialValue(root, i, a)
  }

  ghost predicate SameArray(x: Option<ArrayValue>, y: Option<ArrayValue>) {
    (x.None? && y.None?)
    || (x.Some? && y.Some? && x.value.domain == y.value.domain && x.value.range == y.value.range
        && forall i: nat :: x.value.cells(i) == y.value.cells(i))
  }

  lemma {:induction false} SameSelect(x: Option<ArrayValue>, y: Option<ArrayValue>, i: Option<Value>)
    requires SameArray(x, y)
    ensures SelectMeaning(x, i) == SelectMeaning(y, i)
  {
  }

  lemma {:induction false} SameStore(x: Option<ArrayValue>, y: Option<ArrayValue>, i: Option<Value>, v: Option<Value>)
    requires SameArray(x, y)
    ensures SameArray(StoreMeaning(x, i, v), StoreMeaning(y, i, v))
  {
  }

  /** With matching contents a term means the same before and after its arrays are declared. */
  lemma {:induction false} DeclareMeaning(t: Term, env: Environment, roots: set<Array>, d: Assignment,
                                          a: Assignment)
    requires Roots(t) <= roots && Matches(roots, d, a)
    ensures Meaning(Declare(t), env, d) == Meaning(t, env, a)
    decreases t
  {
    hide Matches, BvMeaning, PredMeaning, CoreMeaning, EqualMeaning, NotMeaning, IteMeaning, ConcatMeaning,
         ExtractMeaning,
         ZeroExtendMeaning, SignExtendMeaning, BvNotMeaning, SelectMeaning, Literal;
    match t
    case Bv(_, l, r) => DeclareMeaning(l, env, roots, d, a); DeclareMeaning(r, env, roots, d, a);
    case BvNot(x) => DeclareMeaning(x, env, roots, d, a);
    case Pred(_, l, r) => DeclareMeaning(l, env, roots, d, a); DeclareMeaning(r, env, roots, d, a);
    case Core(_, l, r) => DeclareMeaning(l, env, roots, d, a); DeclareMeaning(r, env, roots, d, a);
    case CoreNot(x) => DeclareMeaning(x, env, roots, d, a);
    case Equal(l, r) => DeclareMeaning(l, env, roots, d, a); DeclareMeaning(r, env, roots, d, a);
    case Distinct(l, r) => DeclareMeaning(l, env, roots, d, a); DeclareMeaning(r, env, roots, d, a);
    case Ite(c, x, y) =>
      DeclareMeaning(c, env, roots, d, a);
      DeclareMeaning(x, env, roots, d, a);
      DeclareMeaning(y, env, roots, d, a);
    case ConcatTerm(l, r) => DeclareMeaning(l, env, roots, d, a); DeclareMeaning(r, env, roots, d, a);
    case ExtractTerm(_, _, x) => DeclareMeaning(x, env, roots, d, a);
    case ZeroExtend(_, x) => DeclareMeaning(x, env, roots, d, a);
    case SignExtend(_, x) => DeclareMeaning(x, env, roots, d, a);
    case SelectTerm(arr, index) =>
      DeclareArrayMeaning(arr, env, roots, d, a);
      DeclareMeaning(index, env, roots, d, a);
      SameSelect(ArrayMeaning(DeclareArray(arr), env, d), ArrayMeaning(arr, env, a), Meaning(index, env, a));
    case Let(bindings, body) =>
      DeclareBindingsMeaning(bindings, env, roots, d, a);
      var more := BindingsMeaning(bindings, env, a);
      if more.Some? {
        DeclareMeaning(body, env + more.value, roots, d, a);
      }
    case _ =>
  }

  lemma {:induction false} DeclareArrayMeaning(t: ArrayTerm, env: Environment, roots: set<Array>, d: Assignment,
                                          a: Assignment)
    requires ArrayRoots(t) <= roots && Matches(roots, d, a)
    ensures SameArray(ArrayMeaning(DeclareArray(t), env, d), ArrayMeaning(t, env, a))
    decreases t
  {
    if t.StoreTerm? {
      DeclareArrayMeaning(t.arr, env, roots, d, a);
      DeclareMeaning(t.index, env, roots, d, a);
      DeclareMeaning(t.value, env, roots, d, a);
      SameStore(ArrayMeaning(DeclareArray(t.arr), env, d), ArrayMeaning(t.arr, env, a), Meaning(t.index, env, a),
                Meaning(t.value, env, a));
    }
  }

  lemma {:induction false} DeclareBindingsMeaning(bs: Bindings, env: Environment, roots: set<Array>, d: Assignment,
                                          a: Assignment)
    requires BindingRoots(bs) <= roots && Matches(roots, d, a)
    ensures BindingsMeaning(DeclareBindings(bs), env, d) == BindingsMeaning(bs, env, a)
    decreases bs
  {
    if bs.Bind? {
      DeclareMeaning(bs.term, env, roots, d, a);
      DeclareBindingsMeaning(bs.rest, env, roots, d, a);
    }
  }

  // --- Satisfiability ------------------------------------------------------------------------------

  /** Arrays with different contents have different names, and the definitions can be shown. */
  predicate Definable(roots: set<Array>, mode: DisplayMode) {
    && (forall r, s :: r in roots && s in roots && Declared(r) == Declared(s) ==> r == s)
    && (forall r :: r in roots ==> r.Valid())
    && forall r :: r in roots && !r.IsSymbolic() ==>
         |r.constants| <= Bits.Pow2(r.domain) && r.range < 0x1_0000_0000 && ElementsDisplay(r, mode)
  }

  /** The contents of the declared arrays satisfy every definition and the assertion. */
  ghost predicate Satisfied(roots: set<Array>, assertion: Term, mode: DisplayMode, d: Assignment) {
    && (forall root :: root in roots ==> Defines(root, mode, d))
    && Meaning(Declare(assertion), map[], d) == Some(Truth(true))
  }

  /** The cells of an array, as many as have a value of their own. */
  function CellsOf(root: Array, a: Assignment): (cells: seq<nat>) {
    var n := if root in a.bindings && |a.bindings[root]| > |root.constants| then |a.bindings[root]|
             else |root.constants|;
    seq(n, i requires 0 <= i < n => InitialValue(root, i, a))
  }

  /** The declared arrays filled in from the arrays. */
  function FillIn(roots: set<Array>, a: Assignment): (d: Assignment)
    requires forall r, s :: r in roots && s in roots && Declared(r) == Declared(s) ==> r == s
  {
    Assignment(map root | root in roots :: Declared(root) := CellsOf(root, a))
  }

  /** The arrays' cells taken back from the declared arrays. */
  function TakeBack(roots: set<Array>, d: Assignment): (a: Assignment) {
    Assignment(map root | root in roots :: if Declared(root) in d.bindings then d.bindings[Declared(root)] else [])
  }

  lemma {:induction false} FilledIn(roots: set<Array>, a: Assignment, mode: DisplayMode)
    requires Definable(roots, mode)
    ensures Matches(roots, FillIn(roots, a), a) && forall root :: root in roots ==>
              Defines(root, mode, FillIn(roots, a))
  {
    hide ElementDefinition, Meaning, ElementsDisplay;
    var d := FillIn(roots, a);
    forall root, i: nat | root in roots ensures InitialValue(Declared(root), i, d) == InitialValue(root, i, a) {
      FilledCell(root, a, i);
      assert Declared(root) in d.bindings && d.bindings[Declared(root)] == CellsOf(root, a);
    }
    forall root, i | root in roots && 0 <= i < |root.constants|
      ensures Meaning(ElementDefinition(root, i, mode), map[], d) == Some(Truth(true))
    {
      assert InitialValue(Declared(root), i, d) == InitialValue(root, i, a) == root.constants[i];
      ElementDefined(root, i, mode, d);
    }
  }

  lemma {:induction false} FilledCell(root: Array, a: Assignment, i: nat)
    requires root.Valid()
    ensures Bits.Trunc(InitialValue(root, i, a), root.range) == InitialValue(root, i, a)
    ensures |CellsOf(root, a)| <= i ==> InitialValue(root, i, a) == 0
  {
    if i < |root.constants| {
      Bits.TruncWhole(root.constants[i], root.range);
    } else if root in a.bindings && i < |a.bindings[root]| {
      Bits.TruncWhole(Bits.Trunc(a.bindings[root][i], root.range), root.range);
    } else {
      Bits.TruncWhole(0, root.range);
    }
  }

  lemma {:induction false} TakenBack(roots: set<Array>, d: Assignment, mode: DisplayMode)
    requires Definable(roots, mode) && forall root :: root in roots ==> Defines(root, mode, d)
    ensures Matches(roots, d, TakeBack(roots, d))
  {
    hide ElementDefinition, Meaning, ElementsDisplay;
    var a := TakeBack(roots, d);
    forall root, i: nat | root in roots ensures InitialValue(Declared(root), i, d) == InitialValue(root, i, a) {
      if i < |root.constants| {
        ElementDefined(root, i, mode, d);
      }
    }
  }

  /** The script is satisfiable exactly when some input meets the constraints and refutes the
      query, and its models are those inputs: what is taken back from a model is one, and any
      one of them can be filled in. */
  lemma {:induction false} ScriptMeaning(cs: seq<Expr>, query: Expr, levels: seq<seq<Named>>, mode: DisplayMode)
    requires AllBool(cs) && IsBool(query) && Displays(QueryAssert(cs, query), mode)
    requires LevelsPrintable(levels, mode) && Unique(levels, {})
    requires Definable(Roots(PrintAssert(QueryAssert(cs, query), levels, mode)), mode)
    ensures var t := PrintAssert(QueryAssert(cs, query), levels, mode);
            && (forall d :: Satisfied(Roots(t), t, mode, d) ==>
                  Satisfies(cs, TakeBack(Roots(t), d)) && !Holds(query, TakeBack(Roots(t), d)))
            && (forall a :: Satisfies(cs, a) && !Holds(query, a) ==> Satisfied(Roots(t), t, mode, FillIn(Roots(t), a)))
            && ((exists d :: Satisfied(Roots(t), t, mode, d)) <==> exists a :: Satisfies(cs, a) && !Holds(query, a))
  {
    hide QueryAssert, PrintAssert, Meaning, Displays, Unique, LevelsPrintable, Satisfies, Holds, Roots, Declare, FillIn,
         TakeBack, Defines, Matches;
    var t := PrintAssert(QueryAssert(cs, query), levels, mode);
    var roots := Roots(t);
    forall d | Satisfied(roots, t, mode, d)
      ensures Satisfies(cs, TakeBack(roots, d)) && !Holds(query, TakeBack(roots, d))
    {
      TakenBack(roots, d, mode);
      DeclareMeaning(t, map[], roots, d, TakeBack(roots, d));
      QueryMeaning(cs, query, levels, mode, TakeBack(roots, d));
    }
    forall a | Satisfies(cs, a) && !Holds(query, a) ensures Satisfied(roots, t, mode, FillIn(roots, a)) {
      FilledIn(roots, a, mode);
      DeclareMeaning(t, map[], roots, FillIn(roots, a), a);
      QueryMeaning(cs, query, levels, mode, a);
    }
  }
}
