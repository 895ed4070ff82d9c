/** Names in printed terms: wherever a named expression would be printed, its name stands. */
module SmtNames {
  import Bits
  import opened Exprs
  import opened LayeredAsserts
  import opened LetLayers
  import opened SmtAssert
  import opened SmtPrinter
  import opened SmtTerms

  /** The names that occur in a term and are not given in it. */
  function FreeNames(t: Term): (ns: set<nat>)
    decreases t
  {
    match t
    case Variable(n) => {n}
    case Bv(_, l, r) => FreeNames(l) + FreeNames(r)
    case BvNot(x) => FreeNames(x)
    case Pred(_, l, r) => FreeNames(l) + FreeNames(r)
    case Core(_, l, r) => FreeNames(l) + FreeNames(r)
    case CoreNot(x) => FreeNames(x)
    case Equal(l, r) => FreeNames(l) + FreeNames(r)
    case Distinct(l, r) => FreeNames(l) + FreeNames(r)
    case Ite(c, x, y) => FreeNames(c) + FreeNames(x) + FreeNames(y)
    case ConcatTerm(l, r) => FreeNames(l) + FreeNames(r)
    case ExtractTerm(_, _, x) => FreeNames(x)
    case ZeroExtend(_, x) => FreeNames(x)
    case SignExtend(_, x) => FreeNames(x)
    case SelectTerm(arr, index) => ArrayFreeNames(arr) + FreeNames(index)
    case Let(bindings, body) => BindingFreeNames(bindings) + (FreeNames(body) - BoundNames(bindings))
    case _ => {}
  }

  function ArrayFreeNames(t: ArrayTerm): (ns: set<nat>)
    decreases t
  {
    match t
    case ArrayName(_) => {}
    case StoreTerm(arr, index, value) => ArrayFreeNames(arr) + FreeNames(index) + FreeNames(value)
  }

  function BindingFreeNames(bs: Bindings): (ns: set<nat>)
    decreases bs
  {
    match bs
    case NoBinding => {}
    case Bind(_, term, rest) => FreeNames(term) + BindingFreeNames(rest)
  }

  function BoundNames(bs: Bindings): (ns: set<nat>) {
    match bs
    case NoBinding => {}
    case Bind(n, _, rest) => {n} + BoundNames(rest)
  }

  /** The names of the named expressions that are met from the top, not looking inside those met. */
  function UsedNames(e: Expr, bs: Abbreviations): (ns: set<nat>)
    decreases e, 1
  {
    if e in bs then {bs[e]} else NamesInside(e, bs)
  }

  function NamesInside(e: Expr, bs: Abbreviations): (ns: set<nat>)
    decreases e, 0
  {
    match e
    case Constant(_, _) => {}
    case NotOptimized(src) => UsedNames(src, bs)
    case Read(_, u, index) => UpdateNames(u, bs) + UsedNames(index, bs)
    case Select(c, t, f) => UsedNames(c, bs) + UsedNames(t, bs) + UsedNames(f, bs)
    case Concat(l, r) => UsedNames(l, bs) + UsedNames(r, bs)
    case Extract(src, _, _) => UsedNames(src, bs)
    case ZExt(src, _) => UsedNames(src, bs)
    case SExt(src, _) => UsedNames(src, bs)
    case Not(src) => UsedNames(src, bs)
    case Binary(_, l, r) => UsedNames(l, bs) + UsedNames(r, bs)
  }

  function UpdateNames(u: Updates, bs: Abbreviations): (ns: set<nat>)
    decreases u
  {
    if u.Update? then UpdateNames(u.next, bs) + UsedNames(u.index, bs) + UsedNames(u.value, bs) else {}
  }

  predicate NoConstants(bs: Abbreviations) {
    forall e :: e in bs ==> !e.Constant?
  }

  // --- Printed terms ----------------------------------------------------------------------------------

  /** A printed term uses exactly the names of the named expressions met in it. */
  lemma {:induction false} PrintNames(e: Expr, s: Sort, bs: Abbreviations, mode: DisplayMode)
    requires WellTyped(e) && NoConstants(bs)
    ensures FreeNames(Print(e, s, bs, mode)) == UsedNames(e, bs)
    decreases Size(e), if GetSort(e) != s then 2 else 1
  {
    hide PrintFull, NamesInside;
    if GetSort(e) != s {
      PrintNames(e, GetSort(e), bs, mode);
    } else if e !in bs {
      FullNames(e, s, bs, mode);
    }
  }

  lemma {:induction false} FullNames(e: Expr, s: Sort, bs: Abbreviations, mode: DisplayMode)
    requires WellTyped(e) && NoConstants(bs)
    ensures FreeNames(PrintFull(e, s, bs, mode)) == NamesInside(e, bs)
    decreases Size(e), 0
  {
    hide Print, FreeNames, UsedNames, PrintConstant, PrintAShr, Keyword, PredKeyword, CoreKeyword;
    match e
    case Constant(v, bits) => ConstantNames(v, bits, mode);
    case NotOptimized(src) => PrintNames(src, s, bs, mode);
    case Read(root, u, index) => ReadNames(root, u, index, s, bs, mode);
    case Select(c, x, y) => SelectNames(c, x, y, s, bs, mode);
    case Concat(l, r) => ConcatNames(l, r, s, bs, mode);
    case Extract(_, _, _) => UnaryNames(e, s, bs, mode);
    case ZExt(_, _) => UnaryNames(e, s, bs, mode);
    case SExt(_, _) => UnaryNames(e, s, bs, mode);
    case Not(_) => UnaryNames(e, s, bs, mode);
    case Binary(op, l, r) => BinaryNames(op, l, r, s, bs, mode);
  }

  lemma {:induction false} ReadNames(root: Array, u: Updates, index: Expr, s: Sort, bs: Abbreviations,
                                     mode: DisplayMode)
    requires WellTyped(Read(root, u, index)) && NoConstants(bs)
    ensures FreeNames(PrintFull(Read(root, u, index), s, bs, mode)) == UpdateNames(u, bs) + UsedNames(index, bs)
    decreases UpdatesSize(u) + Size(index), 9
  {
    hide Print, PrintArray, UsedNames, UpdateNames;
    ArrayNames(root, u, bs, mode);
    PrintNames(index, SortBitVector, bs, mode);
  }

  lemma {:induction false} ConcatNames(l: Expr, r: Expr, s: Sort, bs: Abbreviations, mode: DisplayMode)
    requires WellTyped(Concat(l, r)) && NoConstants(bs)
    ensures FreeNames(PrintFull(Concat(l, r), s, bs, mode)) == UsedNames(l, bs) + UsedNames(r, bs)
    decreases Size(l) + Size(r), 9
  {
    hide Print, UsedNames;
    PrintNames(l, SortBitVector, bs, mode);
    PrintNames(r, SortBitVector, bs, mode);
  }

  lemma {:induction false} UnaryNames(e: Expr, s: Sort, bs: Abbreviations, mode: DisplayMode)
    requires WellTyped(e) && (e.Extract? || e.ZExt? || e.SExt? || e.Not?) && NoConstants(bs)
    ensures FreeNames(PrintFull(e, s, bs, mode)) == UsedNames(e.src, bs)
    decreases Size(e.src), 9
  {
    hide Print, UsedNames;
    PrintNames(e.src, if e.Not? then s else SortBitVector, bs, mode);
  }

  lemma {:induction false} SelectNames(c: Expr, x: Expr, y: Expr, s: Sort, bs: Abbreviations, mode: DisplayMode)
    requires WellTyped(Select(c, x, y)) && NoConstants(bs)
    ensures FreeNames(PrintFull(Select(c, x, y), s, bs, mode))
         == UsedNames(c, bs) + UsedNames(x, bs) + UsedNames(y, bs)
    decreases Size(c) + Size(x) + Size(y), 9
  {
    hide Print, UsedNames;
    PrintNames(c, SortBool, bs, mode);
    PrintNames(x, s, bs, mode);
    PrintNames(y, s, bs, mode);
  }

  lemma {:induction false} ConstantNames(v: nat, w: nat, mode: DisplayMode)
    ensures FreeNames(PrintConstant(v, w, mode)) == {}
  {
  }

  lemma {:induction false} BinaryNames(op: BinOp, l: Expr, r: Expr, s: Sort, bs: Abbreviations, mode: DisplayMode)
    requires WellTyped(Binary(op, l, r)) && NoConstants(bs)
    ensures FreeNames(PrintFull(Binary(op, l, r), s, bs, mode)) == UsedNames(l, bs) + UsedNames(r, bs)
    decreases Size(l) + Size(r), 9
  {
    hide Print, PrintConstant, Keyword, PredKeyword, CoreKeyword, UsedNames;
    if op.Eq? || op.Ne? {
      PrintNames(l, GetSort(l), bs, mode);
      PrintNames(r, GetSort(l), bs, mode);
    } else if op.AShr? {
      AShrNames(l, r, bs, mode);
    } else {
      PrintNames(l, SortBitVector, bs, mode);
      PrintNames(r, SortBitVector, bs, mode);
      PrintNames(l, s, bs, mode);
      PrintNames(r, s, bs, mode);
    }
  }

  lemma {:induction false} AShrNames(l: Expr, r: Expr, bs: Abbreviations, mode: DisplayMode)
    requires WellTyped(l) && WellTyped(r) && 1 < Width(l) < Bits.Pow2(Width(l)) && NoConstants(bs)
    ensures FreeNames(PrintAShr(l, r, bs, mode)) == UsedNames(l, bs) + UsedNames(r, bs)
    decreases Size(l) + Size(r), 8
  {
    hide Print, UsedNames;
    var w := Width(l);
    NumberNames(w, w, bs, mode);
    NumberNames(0, w, bs, mode);
    PrintNames(l, SortBitVector, bs, mode);
    PrintNames(r, SortBitVector, bs, mode);
  }

  lemma {:induction false} NumberNames(v: nat, w: nat, bs: Abbreviations, mode: DisplayMode)
    requires WellTyped(Constant(v, w)) && 1 < w && NoConstants(bs)
    ensures FreeNames(Print(Constant(v, w), SortBitVector, bs, mode)) == {}
  {
    ConstantNames(v, w, mode);
  }

  lemma {:induction false} ArrayNames(root: Array, u: Updates, bs: Abbreviations, mode: DisplayMode)
    requires root.Valid() && UpdatesWellTyped(root, u) && NoConstants(bs)
    ensures ArrayFreeNames(PrintArray(root, u, bs, mode)) == UpdateNames(u, bs)
    decreases 1 + UpdatesSize(u), 0
  {
    hide Print, UsedNames;
    if u.Update? {
      ArrayNames(root, u.next, bs, mode);
      PrintNames(u.index, SortBitVector, bs, mode);
      PrintNames(u.value, SortBitVector, bs, mode);
    }
  }

  // --- Nested lets --------------------------------------------------------------------------------------

  /** The let of one level gives each of its names, to a term that uses the names of earlier
      levels wherever it can. */
  predicate LevelKept(b: Bindings, level: seq<Named>, bs: Abbreviations)
    decreases |level|
  {
    if level == [] then b.NoBinding?
    else
      b.Bind? && b.name == level[0].n && FreeNames(b.term) == UsedNames(level[0].e, bs)
      && LevelKept(b.rest, level[1..], bs)
  }

  /** Inside all lets, the term uses a name wherever it can. */
  predicate NamesKept(t: Term, e: Expr, levels: seq<seq<Named>>, bs: Abbreviations)
    decreases |levels|
  {
    if levels == [] then FreeNames(t) == UsedNames(e, bs)
    else
      t.Let? && LevelKept(t.bindings, levels[0], bs)
      && NamesKept(t.body, e, levels[1..], Extended(bs, levels[0]))
  }

  predicate LevelsShared(levels: seq<seq<Named>>) {
    forall i, j :: 0 <= i < |levels| && 0 <= j < |levels[i]| ==> !levels[i][j].e.Constant?
  }

  lemma {:induction false} LevelNamesKept(level: seq<Named>, bs: Abbreviations, mode: DisplayMode)
    requires forall i :: 0 <= i < |level| ==> WellTyped(level[i].e)
    requires NoConstants(bs)
    ensures LevelKept(PrintLevel(level, bs, mode), level, bs)
  {
    hide Print, FreeNames, UsedNames;
    if level != [] {
      PrintNames(level[0].e, GetSort(level[0].e), bs, mode);
      LevelNamesKept(level[1..], bs, mode);
    }
  }

  lemma {:induction false} ExtendedNoConstants(bs: Abbreviations, level: seq<Named>)
    requires NoConstants(bs) && forall i :: 0 <= i < |level| ==> !level[i].e.Constant?
    ensures NoConstants(Extended(bs, level))
    decreases |level|
  {
    if level != [] {
      ExtendedNoConstants(if level[0].e in bs then bs else bs[level[0].e := level[0].n], level[1..]);
    }
  }

  lemma {:induction false} NestedNames(e: Expr, levels: seq<seq<Named>>, bs: Abbreviations, mode: DisplayMode)
    requires WellTyped(e) && LevelsPrintable(levels, mode) && LevelsShared(levels) && NoConstants(bs)
    ensures NamesKept(PrintNested(e, levels, bs, mode), e, levels, bs)
    decreases |levels|
  {
    hide Print, FreeNames, UsedNames, LevelKept, Extended, PrintLevel;
    if levels == [] {
      PrintNames(e, SortBool, bs, mode);
    } else {
      FirstPrintable(levels, mode);
      LevelNamesKept(levels[0], bs, mode);
      ExtendedNoConstants(bs, levels[0]);
      NestedNames(e, levels[1..], Extended(bs, levels[0]), mode);
    }
  }

  lemma {:induction false} FirstPrintable(levels: seq<seq<Named>>, mode: DisplayMode)
    requires levels != [] && LevelsPrintable(levels, mode) && LevelsShared(levels)
    ensures LevelsPrintable(levels[1..], mode) && LevelsShared(levels[1..])
    ensures forall i :: 0 <= i < |levels[0]| ==> WellTyped(levels[0][i].e) && !levels[0][i].e.Constant?
  {
    forall i | 0 <= i < |levels[0]| ensures WellTyped(levels[0][i].e) && !levels[0][i].e.Constant? {
      assert Printable(levels[0][i].e, mode);
    }
  }

  // --- What has a name ----------------------------------------------------------------------------------

  predicate NamedAt(named: seq<seq<Named>>, x: Expr, i: nat, j: nat) {
    i < |named| && j < |named[i]| && named[i][j].e == x
  }

  /** These expressions and no others have a name, and only one. */
  ghost predicate NamesJust(named: seq<seq<Named>>, names: set<Expr>) {
    && (forall x :: x in names <==> exists i, j :: NamedAt(named, x, i, j))
    && forall x, i, j, i', j' :: NamedAt(named, x, i, j) && NamedAt(named, x, i', j') ==> i == i' && j == j'
  }

  lemma {:induction false} LevelOfMember(levels: seq<seq<Expr>>, x: Expr) returns (i: nat, j: nat)
    requires x in Members(levels)
    ensures i < |levels| && j < |levels[i]| && levels[i][j] == x
    decreases |levels|
  {
    var n := |levels| - 1;
    if x in levels[n] {
      i := n;
      j :| 0 <= j < |levels[n]| && levels[n][j] == x;
    } else {
      i, j := LevelOfMember(levels[..n], x);
    }
  }

  /** In levels that use only earlier ones nothing occurs twice. */
  lemma {:induction false} LayeredOnce(levels: seq<seq<Expr>>, names: set<Expr>, i: nat, j: nat, i': nat, j': nat)
    requires Layered(levels, names) && i < |levels| && j < |levels[i]| && i' < |levels| && j' < |levels[i']|
    requires levels[i][j] == levels[i'][j']
    ensures i == i' && j == j'
    decreases |levels|
  {
    hide Uses, Members;
    var n := |levels| - 1;
    if i < n && i' < n {
      LayeredOnce(levels[..n], names, i, j, i', j');
    } else if i < n {
      assert levels[n][j'] in levels[n];
      MemberOfLevel(levels[..n], i, j);
    } else if i' < n {
      assert levels[n][j] in levels[n];
      MemberOfLevel(levels[..n], i', j');
    }
  }

  lemma {:induction false} NumberedJust(levels: seq<seq<Expr>>, counter: nat, names: set<Expr>)
    requires Layered(levels, names) && Members(levels) == names
    ensures NamesJust(NumberedLevels(levels, counter), names)
  {
    hide Layered, Members, NumberedLevels;
    var named: seq<seq<Named>> := NumberedLevels(levels, counter);
    NumberedCount(levels, counter);
    forall x, i: nat, j: nat | NamedAt(named, x, i, j) ensures i < |levels| && j < |levels[i]| && levels[i][j] == x {
      NumberedAt(levels, counter, i);
    }
    forall x ensures x in names <==> exists i, j :: NamedAt(named, x, i, j) {
      if x in names {
        var i, j := LevelOfMember(levels, x);
        NumberedAt(levels, counter, i);
        assert NamedAt(named, x, i, j);
      } else if i: nat, j: nat :| NamedAt(named, x, i, j) {
        MemberOfLevel(levels, i, j);
        assert false;
      }
    }
    forall x, i: nat, j: nat, i': nat, j': nat | NamedAt(named, x, i, j) && NamedAt(named, x, i', j')
      ensures i == i' && j == j'
    {
      LayeredOnce(levels, names, i, j, i', j');
    }
  }

  lemma {:induction false} SharedLevels(named: seq<seq<Named>>, names: set<Expr>)
    requires NamesJust(named, names) && forall x :: x in names ==> !x.Constant?
    ensures LevelsShared(named)
  {
    forall i: nat, j: nat | i < |named| && j < |named[i]| ensures !named[i][j].e.Constant? {
      assert NamedAt(named, named[i][j].e, i, j);
    }
  }
}
