/** A query from start to end: scan, arrange the shared expressions in levels, declare and
    define the arrays, and assert. */
module SmtQueries {
  import Bits
  import opened Exprs
  import opened Booleans
  import opened Constraints
  import opened Constructors
  import opened LayeredAsserts
  import opened LetLayers
  import opened Slices
  import opened SmtAssert
  import opened SmtNames
  import opened SmtPlaces
  import opened SmtPrinter
  import opened SmtScans
  import opened SmtScripts
  import opened SmtTerms

  // --- What is printed is part of the query -----------------------------------------------------

  /** The arrays of the expressions that have names. */
  ghost function NamedArrays(bs: Abbreviations): (rs: set<Array>) {
    set e, r | e in bs && r in Arrays(e) :: r
  }

  /** The printed arrays are those that occur, except in what is named. */
  ghost predicate Shown(printed: set<Array>, occurring: set<Array>, bs: Abbreviations) {
    printed <= occurring <= printed + NamedArrays(bs)
  }

  lemma {:induction false} NameArrays(bs: Abbreviations, e: Expr)
    requires e in bs
    ensures Arrays(e) <= NamedArrays(bs)
  {
  }

  /** No array is printed that does not occur in the expression, and all are that do, except
      below the names that stand for parts of it. */
  lemma {:induction false} PrintRoots(e: Expr, s: Sort, bs: Abbreviations, mode: DisplayMode)
    requires WellTyped(e)
    ensures Shown(Roots(Print(e, s, bs, mode)), Arrays(e), bs)
    decreases Size(e), if GetSort(e) != s then 2 else 1
  {
    hide PrintFull, NamedArrays;
    if GetSort(e) != s {
      PrintRoots(e, GetSort(e), bs, mode);
    } else if e in bs {
      NameArrays(bs, e);
    } else {
      FullRoots(e, s, bs, mode);
    }
  }

  lemma {:induction false} FullRoots(e: Expr, s: Sort, bs: Abbreviations, mode: DisplayMode)
    requires WellTyped(e)
    ensures Shown(Roots(PrintFull(e, s, bs, mode)), Arrays(e), bs)
    decreases Size(e), 0
  {
    hide Print, NamedArrays, Roots, PrintConstant, PrintAShr, Keyword, PredKeyword, CoreKeyword;
    match e
    case Constant(v, bits) => ConstantRoots(v, bits, mode);
    case NotOptimized(src) => PrintRoots(src, s, bs, mode);
    case Read(root, u, index) => ReadRoots(root, u, index, s, bs, mode);
    case Select(c, x, y) => SelectRoots(c, x, y, s, bs, mode);
    case Concat(l, r) => ConcatRoots(l, r, s, bs, mode);
    case Extract(_, _, _) => UnaryRoots(e, s, bs, mode);
    case ZExt(_, _) => UnaryRoots(e, s, bs, mode);
    case SExt(_, _) => UnaryRoots(e, s, bs, mode);
    case Not(_) => UnaryRoots(e, s, bs, mode);
    case Binary(op, l, r) => BinaryRoots(op, l, r, s, bs, mode);
  }

  lemma {:induction false} ReadRoots(root: Array, u: Updates, index: Expr, s: Sort, bs: Abbreviations,
                                     mode: DisplayMode)
    requires WellTyped(Read(root, u, index))
    ensures Shown(Roots(PrintFull(Read(root, u, index), s, bs, mode)), {root} + UpdateArrays(u) + Arrays(index), bs)
    decreases UpdatesSize(u) + Size(index), 9
  {
    hide Print, NamedArrays, PrintArray, UpdateArrays, Arrays;
    PrintArrayRoots(root, u, bs, mode);
    PrintRoots(index, SortBitVector, bs, mode);
  }

  lemma {:induction false} ConcatRoots(l: Expr, r: Expr, s: Sort, bs: Abbreviations, mode: DisplayMode)
    requires WellTyped(Concat(l, r))
    ensures Shown(Roots(PrintFull(Concat(l, r), s, bs, mode)), Arrays(l) + Arrays(r), bs)
    decreases Size(l) + Size(r), 9
  {
    hide Print, NamedArrays, Arrays;
    PrintRoots(l, SortBitVector, bs, mode);
    PrintRoots(r, SortBitVector, bs, mode);
  }

  lemma {:induction false} UnaryRoots(e: Expr, s: Sort, bs: Abbreviations, mode: DisplayMode)
    requires WellTyped(e) && (e.Extract? || e.ZExt? || e.SExt? || e.Not?)
    ensures Shown(Roots(PrintFull(e, s, bs, mode)), Arrays(e.src), bs)
    decreases Size(e.src), 9
  {
    hide Print, NamedArrays, Arrays;
    PrintRoots(e.src, if e.Not? then s else SortBitVector, bs, mode);
  }

  lemma {:induction false} SelectRoots(c: Expr, x: Expr, y: Expr, s: Sort, bs: Abbreviations, mode: DisplayMode)
    requires WellTyped(Select(c, x, y))
    ensures Shown(Roots(PrintFull(Select(c, x, y), s, bs, mode)), Arrays(c) + Arrays(x) + Arrays(y), bs)
    decreases Size(c) + Size(x) + Size(y), 9
  {
    hide Print, NamedArrays, Arrays;
    PrintRoots(c, SortBool, bs, mode);
    PrintRoots(x, s, bs, mode);
    PrintRoots(y, s, bs, mode);
  }

  lemma {:induction false} ConstantRoots(v: nat, w: nat, mode: DisplayMode)
    ensures Roots(PrintConstant(v, w, mode)) == {}
  {
  }

  lemma {:induction false} BinaryRoots(op: BinOp, l: Expr, r: Expr, s: Sort, bs: Abbreviations, mode: DisplayMode)
    requires WellTyped(Binary(op, l, r))
    ensures Shown(Roots(PrintFull(Binary(op, l, r), s, bs, mode)), Arrays(l) + Arrays(r), bs)
    decreases Size(l) + Size(r), 9
  {
    hide Print, NamedArrays, PrintConstant, Keyword, PredKeyword, CoreKeyword, Arrays;
    if op.Eq? || op.Ne? {
      PrintRoots(l, GetSort(l), bs, mode);
      PrintRoots(r, GetSort(l), bs, mode);
    } else if op.AShr? {
      AShrRoots(l, r, bs, mode);
    } else {
      PrintRoots(l, SortBitVector, bs, mode);
      PrintRoots(r, SortBitVector, bs, mode);
      PrintRoots(l, s, bs, mode);
      PrintRoots(r, s, bs, mode);
    }
  }

  lemma {:induction false} AShrRoots(l: Expr, r: Expr, bs: Abbreviations, mode: DisplayMode)
    requires WellTyped(l) && WellTyped(r) && 1 < Width(l) < Bits.Pow2(Width(l))
    ensures Shown(Roots(PrintAShr(l, r, bs, mode)), Arrays(l) + Arrays(r), bs)
    decreases Size(l) + Size(r), 8
  {
    hide Print, NamedArrays, Arrays;
    var w := Width(l);
    NumberRoots(w, w, bs, mode);
    NumberRoots(0, w, bs, mode);
    PrintRoots(l, SortBitVector, bs, mode);
    PrintRoots(r, SortBitVector, bs, mode);
  }

  lemma {:induction false} NumberRoots(v: nat, w: nat, bs: Abbreviations, mode: DisplayMode)
    requires WellTyped(Constant(v, w)) && 1 < w
    ensures Roots(Print(Constant(v, w), SortBitVector, bs, mode)) == {}
  {
    ConstantRoots(v, w, mode);
  }

  lemma {:induction false} PrintArrayRoots(root: Array, u: Updates, bs: Abbreviations, mode: DisplayMode)
    requires root.Valid() && UpdatesWellTyped(root, u)
    ensures Shown(ArrayRoots(PrintArray(root, u, bs, mode)), {root} + UpdateArrays(u), bs)
    decreases 1 + UpdatesSize(u), 0
  {
    hide Print, NamedArrays, Arrays;
    if u.Update? {
      PrintArrayRoots(root, u.next, bs, mode);
      PrintRoots(u.index, SortBitVector, bs, mode);
      PrintRoots(u.value, SortBitVector, bs, mode);
    }
  }

  lemma {:induction false} LevelRoots(level: seq<Named>, bs: Abbreviations, mode: DisplayMode, rs: set<Array>)
    requires forall i :: 0 <= i < |level| ==> WellTyped(level[i].e) && Arrays(level[i].e) <= rs
    ensures BindingRoots(PrintLevel(level, bs, mode)) <= rs
    ensures forall i :: 0 <= i < |level| ==>
              Arrays(level[i].e) <= BindingRoots(PrintLevel(level, bs, mode)) + NamedArrays(bs)
  {
    hide Print, Arrays, NamedArrays;
    if level != [] {
      PrintRoots(level[0].e, GetSort(level[0].e), bs, mode);
      LevelRoots(level[1..], bs, mode, rs);
    }
  }

  /** The named expressions have no other arrays. */
  ghost predicate LevelsWithin(levels: seq<seq<Named>>, rs: set<Array>) {
    forall i, j :: 0 <= i < |levels| && 0 <= j < |levels[i]| ==> Arrays(levels[i][j].e) <= rs
  }

  lemma {:induction false} FirstLevel(levels: seq<seq<Named>>, mode: DisplayMode, rs: set<Array>)
    requires LevelsPrintable(levels, mode) && LevelsWithin(levels, rs) && levels != []
    ensures LevelsPrintable(levels[1..], mode) && LevelsWithin(levels[1..], rs)
    ensures forall j :: 0 <= j < |levels[0]| ==> Printable(levels[0][j].e, mode) && Arrays(levels[0][j].e) <= rs
  {
    hide Printable, Arrays;
  }

  lemma {:induction false} ExtendedArrays(bs: Abbreviations, level: seq<Named>, rs: set<Array>)
    requires NamedArrays(bs) <= rs && forall i :: 0 <= i < |level| ==> Arrays(level[i].e) <= rs
    ensures NamedArrays(Extended(bs, level)) <= rs
  {
    hide Arrays;
    forall e | e in Extended(bs, level) ensures Arrays(e) <= rs {
      ExtendedFrom(bs, level, e);
      if e in bs {
        NameArrays(bs, e);
      }
    }
  }

  lemma {:induction false} LetRoots(bindings: Bindings, body: Term)
    ensures Roots(Let(bindings, body)) == BindingRoots(bindings) + Roots(body)
  {
  }

  lemma {:induction false} NestedRoots(e: Expr, levels: seq<seq<Named>>, bs: Abbreviations, mode: DisplayMode,
                                       rs: set<Array>)
    requires WellTyped(e) && LevelsPrintable(levels, mode) && Arrays(e) <= rs
    requires LevelsWithin(levels, rs)
    ensures Roots(PrintNested(e, levels, bs, mode)) <= rs
    ensures Arrays(e) <= Roots(PrintNested(e, levels, bs, mode)) + NamedArrays(bs)
    decreases |levels|
  {
    hide Print, Arrays, NamedArrays, PrintLevel, Extended, LevelsPrintable, LevelsWithin, Roots, WellTyped;
    if levels == [] {
      PrintRoots(e, SortBool, bs, mode);
    } else {
      FirstLevel(levels, mode, rs);
      LetRoots(PrintLevel(levels[0], bs, mode), PrintNested(e, levels[1..], Extended(bs, levels[0]), mode));
      LevelRoots(levels[0], bs, mode, rs);
      ExtendedArrays(bs, levels[0], BindingRoots(PrintLevel(levels[0], bs, mode)) + NamedArrays(bs));
      NestedRoots(e, levels[1..], Extended(bs, levels[0]), mode, rs);
    }
  }

  // --- The negated query ------------------------------------------------------------------------------

  lemma {:induction false} NodeArraysOf(op: BinOp, l: Expr, r: Expr)
    ensures Arrays(Binary(op, l, r)) == Arrays(l) + Arrays(r)
    ensures forall c: Expr :: c.Constant? ==> Arrays(c) == {}
  {
  }

  lemma {:induction false} KidsArrays(e: Expr)
    ensures e.Binary? ==> Arrays(e) == Arrays(e.left) + Arrays(e.right)
    ensures e.ZExt? || e.SExt? ==> Arrays(e) == Arrays(e.src)
  {
  }

  lemma {:induction false} EqArrays(l: Expr, r: Expr)
    requires Operands(l, r)
    ensures Arrays(EqCreate(l, r)) <= Arrays(l) + Arrays(r)
    decreases Weight(l) + Weight(r), 0
  {
    hide EqPartialR, BinaryValue, Arrays;
    NodeArraysOf(Eq, l, r);
    if l.Constant? && !r.Constant? {
      EqPartialRArrays(l, r);
    } else if r.Constant? && !l.Constant? {
      EqPartialRArrays(r, l);
    }
  }

  lemma {:induction false} IsZeroArrays(e: Expr)
    requires WellTyped(e)
    ensures Arrays(IsZero(e)) <= Arrays(e)
    decreases 1 + Weight(e), 1
  {
    PositiveWidth(e);
    EqArrays(e, Constant(0, Width(e)));
  }

  lemma {:induction false} EqPartialRArrays(c: Expr, r: Expr)
    requires c.Constant? && Operands(c, r)
    ensures Arrays(EqPartialR(c, r)) <= Arrays(r)
    decreases Weight(r), 1
  {
    hide Arrays, BinaryValue, AndCreate, EqCreate, IsZero, ConstSExt;
    NodeArraysOf(Eq, c, r);
    KidsArrays(r);
    if c.bits == 1 {
      if c.value != 1 && r.Binary? && r.op.Or? {
        IsZeroArrays(r.left);
        IsZeroArrays(r.right);
        AndArrays(IsZero(r.left), IsZero(r.right));
      }
    } else if r.SExt? || r.ZExt? {
      PositiveWidth(r.src);
      EqArrays(r.src, ConstZExt(c, Width(r.src)));
    } else if r.Binary? && r.op.Add? && r.left.Constant? {
      EqPartialRArrays(ConstBinary(Sub, c, r.left), r.right);
    } else if r.Binary? && r.op.Sub? && r.left.Constant? {
      EqPartialRArrays(ConstBinary(Sub, r.left, c), r.right);
    }
  }

  lemma {:induction false} AndArrays(l: Expr, r: Expr)
    requires Operands(l, r)
    ensures Arrays(AndCreate(l, r)) <= Arrays(l) + Arrays(r)
  {
    hide Arrays;
    NodeArraysOf(And, l, r);
    NodeArraysOf(And, r, l);
  }

  lemma {:induction false} QueryArrays(cs: seq<Expr>, query: Expr)
    requires AllBool(cs) && IsBool(query)
    ensures Arrays(QueryAssert(cs, query)) <= ArraysOfAll(cs) + Arrays(query)
  {
    hide Arrays, IsZero, AndCreate;
    if cs == [] {
      IsZeroArrays(query);
    } else {
      var rest, c := cs[..|cs| - 1], cs[|cs| - 1];
      QueryArrays(rest, query);
      AndArrays(QueryAssert(rest, query), c);
    }
  }

  // --- What is named can be printed --------------------------------------------------------------------

  lemma {:induction false} SubtermPrintable(e: Expr, mode: DisplayMode)
    requires Printable(e, mode)
    ensures forall t :: t in Subterms(e) ==> Printable(t, mode)
    decreases e
  {
    match e
    case Constant(_, _) =>
    case NotOptimized(src) => SubtermPrintable(src, mode);
    case Read(root, u, index) => UpdatePrintable(root, u, mode); SubtermPrintable(index, mode);
    case Select(c, t, f) => SubtermPrintable(c, mode); SubtermPrintable(t, mode); SubtermPrintable(f, mode);
    case Concat(l, r) => SubtermPrintable(l, mode); SubtermPrintable(r, mode);
    case Extract(src, _, _) => SubtermPrintable(src, mode);
    case ZExt(src, _) => SubtermPrintable(src, mode);
    case SExt(src, _) => SubtermPrintable(src, mode);
    case Not(src) => SubtermPrintable(src, mode);
    case Binary(_, l, r) => SubtermPrintable(l, mode); SubtermPrintable(r, mode);
  }

  lemma {:induction false} UpdatePrintable(root: Array, u: Updates, mode: DisplayMode)
    requires UpdatesWellTyped(root, u) && UpdatesDisplay(u, mode)
    ensures forall t :: t in UpdateSubterms(u) ==> Printable(t, mode)
    decreases u
  {
    if u.Update? {
      UpdatePrintable(root, u.next, mode);
      SubtermPrintable(u.index, mode);
      SubtermPrintable(u.value, mode);
    }
  }

  lemma {:induction false} AllSubtermsPrintable(es: seq<Expr>, mode: DisplayMode)
    requires forall k :: 0 <= k < |es| ==> Printable(es[k], mode)
    ensures forall t :: t in SubtermsOfAll(es) ==> Printable(t, mode)
  {
    hide Printable, Subterms;
    if es != [] {
      AllSubtermsPrintable(es[..|es| - 1], mode);
      SubtermPrintable(es[|es| - 1], mode);
    }
  }

  // --- The script ----------------------------------------------------------------------------------------

  /** The script can be given to a solver: every array is declared, those that are constant are
      defined, and the definitions and the assertion together are satisfiable exactly when some
      input meets the constraints and refutes the query. */
  ghost predicate Asks(cs: seq<Expr>, query: Expr, t: Term, mode: DisplayMode) {
    (exists d :: Satisfied(Roots(t), t, mode, d)) <==> exists a :: Satisfies(cs, a) && !Holds(query, a)
  }

  /** All of it. The arrays of the query are all declared exactly when those in the update lists
      that the scan skipped are. They are the arrays that are printed, unless putting the
      assertion together drops some. Named are exactly the expressions that stand at two
      places, each once, and a name stands wherever such an expression would be printed. */
  method PrintQuery(cs: seq<Expr>, query: Expr, mode: DisplayMode)
    returns (declared: set<Array>, t: Term, ghost skipped: set<Updates>, named: seq<seq<Named>>)
    requires AllBool(cs) && IsBool(query) && Displays(QueryAssert(cs, query), mode)
    requires (forall k :: 0 <= k < |cs| ==> Printable(cs[k], mode)) && Printable(query, mode)
    ensures declared == ScannedAll(cs + [query]).used && skipped == ScannedAll(cs + [query]).skipped
    ensures ArraysOfAll(cs + [query]) <= declared <==> SkippedArrays(skipped) <= declared
    ensures Arrays(QueryAssert(cs, query)) <= Roots(t) <= ArraysOfAll(cs + [query])
    ensures Arrays(QueryAssert(cs, query)) == ArraysOfAll(cs + [query]) ==>
              (Roots(t) <= declared <==> SkippedArrays(skipped) <= declared)
    ensures Definable(Roots(t), mode) ==> Asks(cs, query, t, mode)
    ensures SharedNamed(named, cs + [query]) && Unique(named, {})
    ensures NamesKept(t, QueryAssert(cs, query), named, map[])
  {
    hide NamesKept, NamesJust, SharedNamed, LevelsShared, Displays, QueryAssert, ArraysOfAll, SkippedArrays, ScannedAll,
         Satisfies, Holds, Satisfied, Definable, Roots, Unique, Printable, Arrays, NamedArrays, LevelsWithin,
         LevelsPrintable;
    var es := cs + [query];
    var scanner := new Scanner();
    scanner.ScanAll(es);
    declared, skipped := scanner.usedArrays, scanner.skipped;
    AllDeclared(es);
    AllSubtermsPrintable(es, mode);
    AllSubtermArrays(es);
    SharedNotConstant(es);
    named := NameShared(scanner.bindings, mode, ArraysOfAll(es));
    NamedAreShared(named, es);
    t := PrintAssert(QueryAssert(cs, query), named, mode);
    NoNames();
    NestedNames(QueryAssert(cs, query), named, map[], mode);
    QueryArrays(cs, query);
    assert es[..|es| - 1] == cs;
    OneMoreExpr(es);
    NestedRoots(QueryAssert(cs, query), named, map[], mode, ArraysOfAll(es));
    if Definable(Roots(t), mode) {
      ScriptMeaning(cs, query, named, mode);
    }
  }

  /** The expressions that stand at two places have names, each one, and no others have. */
  ghost predicate SharedNamed(named: seq<seq<Named>>, es: seq<Expr>) {
    && (forall x :: (exists i, j :: NamedAt(named, x, i, j)) <==> Shared(x, es, ScannedAll(es)))
    && forall x, i, j, i', j' :: NamedAt(named, x, i, j) && NamedAt(named, x, i', j') ==> i == i' && j == j'
  }

  lemma {:induction false} NamedAreShared(named: seq<seq<Named>>, es: seq<Expr>)
    requires NamesJust(named, ScannedAll(es).bindings)
    ensures SharedNamed(named, es)
  {
    hide ScannedAll, Shared;
    SharedExactly(es);
  }

  lemma {:induction false} SharedNotConstant(es: seq<Expr>)
    ensures forall x :: x in ScannedAll(es).bindings ==> !x.Constant?
  {
    hide ScannedAll;
    SharedExactly(es);
  }

  /** Levels and numbers for the shared expressions. */
  method NameShared(names: set<Expr>, mode: DisplayMode, ghost rs: set<Array>) returns (named: seq<seq<Named>>)
    requires forall x :: x in names ==> Printable(x, mode) && Arrays(x) <= rs && !x.Constant?
    ensures NamesJust(named, names) && Unique(named, {}) && LevelsPrintable(named, mode)
    ensures LevelsShared(named) && LevelsWithin(named, rs)
  {
    hide Printable, Arrays, Layered, Members, NumberedLevels, NamesJust, Unique, LevelsPrintable, LevelsShared,
         LevelsWithin;
    var levels := ScanBindingExprDeps(names);
    named := NumberedLevels(levels, 1);
    NumberedPrintable(levels, 1, names, mode);
    NumberedUnique(levels, 1, {});
    NumberedJust(levels, 1, names);
    SharedLevels(named, names);
    LevelArrays(levels, 1, rs);
  }

  lemma {:induction false} NoNames()
    ensures NamedArrays(map[]) == {} && NoConstants(map[])
  {
  }

  lemma {:induction false} OneMoreExpr(es: seq<Expr>)
    requires es != []
    ensures ArraysOfAll(es) == ArraysOfAll(es[..|es| - 1]) + Arrays(es[|es| - 1])
  {
  }

  lemma {:induction false} LevelArrays(levels: seq<seq<Expr>>, counter: nat, rs: set<Array>)
    requires forall e :: e in Members(levels) ==> Arrays(e) <= rs
    ensures LevelsWithin(NumberedLevels(levels, counter), rs)
  {
    hide Arrays, Members, NumberedLevels;
    var named: seq<seq<Named>> := NumberedLevels(levels, counter);
    NumberedCount(levels, counter);
    forall i: nat, j: nat | i < |named| && j < |named[i]| ensures Arrays(named[i][j].e) <= rs {
      NumberedAt(levels, counter, i);
      MemberOfLevel(levels, i, j);
    }
  }

  /** A query with an array that is printed although it is not declared. */
  lemma {:induction false} UndeclaredPrinted(mode: DisplayMode) returns (query: Expr, other: Array)
    ensures IsBool(query) && other in Roots(PrintAssert(QueryAssert([], query), [], mode))
    ensures other !in ScannedAll([] + [query]).used
  {
    query, other := UndeclaredArray();
    assert [] + [query] == [query];
    NegatedLess(query);
    NestedRoots(QueryAssert([], query), [], map[], mode, Arrays(QueryAssert([], query)));
    NoNames();
  }

  lemma {:induction false} NegatedLess(e: Expr)
    requires IsBool(e) && e.Binary? && e.op.Ult?
    ensures Arrays(QueryAssert([], e)) == Arrays(e)
  {
    hide Arrays;
    NodeArraysOf(Eq, Bool(false), e);
    assert QueryAssert([], e) == IsZero(e) == EqPartialR(Bool(false), e) == Binary(Eq, Bool(false), e);
  }
}
