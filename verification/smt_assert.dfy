/** Whole assertions: nested lets that give names to shared expressions, the query as one
    assertion, and the definitions of constant arrays. */
module SmtAssert {
  import Bits
  import opened Exprs
  import opened Booleans
  import opened Constraints
  import opened Constructors
  import opened SmtPrinter
  import opened SmtTerms

  /** An expression and the number in its name. */
  datatype Named = Named(e: Expr, n: nat)

  /** The bindings of one let; each is printed with the names of earlier levels only. */
  function PrintLevel(level: seq<Named>, bs: Abbreviations, mode: DisplayMode): (t: Bindings)
    requires forall i :: 0 <= i < |level| ==> WellTyped(level[i].e)
  {
    if level == [] then NoBinding
    else Bind(level[0].n, Print(level[0].e, GetSort(level[0].e), bs, mode), PrintLevel(level[1..], bs, mode))
  }

  /** Names are added, never replaced. */
  function Extended(bs: Abbreviations, level: seq<Named>): (more: Abbreviations)
    decreases |level|
  {
    if level == [] then bs
    else Extended(if level[0].e in bs then bs else bs[level[0].e := level[0].n], level[1..])
  }

  predicate LevelsPrintable(levels: seq<seq<Named>>, mode: DisplayMode) {
    forall i, j :: 0 <= i < |levels| && 0 <= j < |levels[i]| ==> Printable(levels[i][j].e, mode)
  }

  function PrintNested(e: Expr, levels: seq<seq<Named>>, bs: Abbreviations, mode: DisplayMode): (t: Term)
    requires WellTyped(e) && LevelsPrintable(levels, mode)
    decreases |levels|
  {
    if levels == [] then Print(e, SortBool, bs, mode)
    else Let(PrintLevel(levels[0], bs, mode), PrintNested(e, levels[1..], Extended(bs, levels[0]), mode))
  }

  function PrintAssert(e: Expr, levels: seq<seq<Named>>, mode: DisplayMode): (t: Term)
    requires WellTyped(e) && LevelsPrintable(levels, mode)
  {
    PrintNested(e, levels, map[], mode)
  }

  // --- Names ----------------------------------------------------------------------------------

  function Numbers(level: seq<Named>): (ns: set<nat>) {
    set i | 0 <= i < |level| :: level[i].n
  }

  /** No number is used twice. */
  predicate Unique(levels: seq<seq<Named>>, used: set<nat>)
    decreases |levels|
  {
    levels == []
    || ((forall i, j :: 0 <= i < j < |levels[0]| ==> levels[0][i].n != levels[0][j].n)
        && Numbers(levels[0]) !! used && Unique(levels[1..], used + Numbers(levels[0])))
  }

  // --- Meaning --------------------------------------------------------------------------------

  /** The values that the names of a level stand for. */
  function LevelValues(level: seq<Named>, a: Assignment): (env: Environment) {
    if level == [] then map[]
    else LevelValues(level[1..], a)[level[0].n := ValueAt(level[0].e, GetSort(level[0].e), a)]
  }

  lemma {:induction false} LevelNames(level: seq<Named>, a: Assignment)
    ensures LevelValues(level, a).Keys == Numbers(level)
  {
    if level != [] {
      LevelNames(level[1..], a);
      assert Numbers(level) == Numbers(level[1..]) + {level[0].n} by {
        forall n | n in Numbers(level) ensures n in Numbers(level[1..]) + {level[0].n} {
          var i :| 0 <= i < |level| && level[i].n == n;
          assert i > 0 ==> level[1..][i - 1] == level[i];
        }
        forall n | n in Numbers(level[1..]) ensures n in Numbers(level) {
          var i :| 0 <= i < |level[1..]| && level[1..][i].n == n;
          assert level[i + 1].n == n;
        }
      }
    }
  }

  /** The value of a name is that of its expression. */
  lemma {:induction false} LevelValue(level: seq<Named>, i: nat, a: Assignment)
    requires i < |level| && forall i, j :: 0 <= i < j < |level| ==> level[i].n != level[j].n
    ensures level[i].n in LevelValues(level, a)
    ensures LevelValues(level, a)[level[i].n] == ValueAt(level[i].e, GetSort(level[i].e), a)
  {
    if i > 0 {
      LevelValue(level[1..], i - 1, a);
    }
  }

  lemma {:induction false} LevelMeaning(level: seq<Named>, c: Context)
    requires forall i :: 0 <= i < |level| ==> WellTyped(level[i].e) && Displays(level[i].e, c.mode)
    requires forall i, j :: 0 <= i < j < |level| ==> level[i].n != level[j].n
    requires c.Bound()
    ensures BindingsMeaning(PrintLevel(level, c.bs, c.mode), c.env, c.a) == Some(LevelValues(level, c.a))
  {
    hide Print, ValueAt, GetSort, Displays, Context.Bound;
    if level != [] {
      LevelMeaning(level[1..], c);
      PrintMeaning(level[0].e, GetSort(level[0].e), c);
      LevelNames(level[1..], c.a);
    }
  }

  lemma {:induction false} ExtendedFrom(bs: Abbreviations, level: seq<Named>, e: Expr)
    requires e in Extended(bs, level)
    ensures (e in bs && Extended(bs, level)[e] == bs[e])
      || exists i :: 0 <= i < |level| && level[i] == Named(e, Extended(bs, level)[e])
    decreases |level|
  {
    if level != [] {
      var next := if level[0].e in bs then bs else bs[level[0].e := level[0].n];
      ExtendedFrom(next, level[1..], e);
      if !(e in next && Extended(bs, level)[e] == next[e]) {
        var i :| 0 <= i < |level[1..]| && level[1..][i] == Named(e, Extended(bs, level)[e]);
        assert level[i + 1] == Named(e, Extended(bs, level)[e]);
      } else if e !in bs {
        assert level[0] == Named(e, Extended(bs, level)[e]);
      }
    }
  }

  /** Inside the let the new names stand for their expressions too. */
  lemma {:induction false} StillBound(c: Context, level: seq<Named>)
    requires c.Bound() && Numbers(level) !! c.env.Keys
    requires forall i, j :: 0 <= i < j < |level| ==> level[i].n != level[j].n
    ensures Context(Extended(c.bs, level), c.mode, c.env + LevelValues(level, c.a), c.a).Bound()
  {
    hide ValueAt, GetSort;
    var more := Extended(c.bs, level);
    LevelNames(level, c.a);
    forall e | e in more
      ensures more[e] in c.env + LevelValues(level, c.a)
      ensures (c.env + LevelValues(level, c.a))[more[e]] == ValueAt(e, GetSort(e), c.a)
    {
      ExtendedFrom(c.bs, level, e);
      if !(e in c.bs && more[e] == c.bs[e]) {
        var i :| 0 <= i < |level| && level[i] == Named(e, more[e]);
        LevelValue(level, i, c.a);
      }
    }
  }

  lemma {:induction false} LetMeaning(bindings: Bindings, body: Term, env: Environment, a: Assignment)
    requires BindingsMeaning(bindings, env, a).Some?
    ensures Meaning(Let(bindings, body), env, a) == Meaning(body, env + BindingsMeaning(bindings, env, a).value, a)
  {
  }

  lemma {:induction false} NestedMeaning(e: Expr, levels: seq<seq<Named>>, c: Context)
    requires Printable(e, c.mode) && LevelsPrintable(levels, c.mode) && c.Bound() && Unique(levels, c.env.Keys)
    ensures Meaning(PrintNested(e, levels, c.bs, c.mode), c.env, c.a) == Some(Truth(Eval(e, c.a) != 0))
    decreases |levels|
  {
    hide Meaning, BindingsMeaning, Print, PrintLevel, Eval, Displays, WellTyped, Context.Bound, Extended, LevelValues;
    if levels == [] {
      PrintMeaning(e, SortBool, c);
    } else {
      LevelMeaning(levels[0], c);
      LevelNames(levels[0], c.a);
      StillBound(c, levels[0]);
      var inner := Context(Extended(c.bs, levels[0]), c.mode, c.env + LevelValues(levels[0], c.a), c.a);
      assert inner.env.Keys == c.env.Keys + Numbers(levels[0]);
      assert forall i :: 0 <= i < |levels[1..]| ==> levels[1..][i] == levels[i + 1];
      NestedMeaning(e, levels[1..], inner);
      LetMeaning(PrintLevel(levels[0], c.bs, c.mode), PrintNested(e, levels[1..], inner.bs, c.mode), c.env, c.a);
    }
  }

  /** However shared expressions are arranged in levels, as long as no number is used twice
      the assertion is well sorted without any free name and says what the expression says. */
  lemma {:induction false} AssertMeaning(e: Expr, levels: seq<seq<Named>>, mode: DisplayMode, a: Assignment)
    requires Printable(e, mode) && IsBool(e) && LevelsPrintable(levels, mode) && Unique(levels, {})
    ensures Meaning(PrintAssert(e, levels, mode), map[], a) == Some(Truth(Holds(e, a)))
  {
    hide Print, Displays, WellTyped, PrintNested, Unique;
    BoolValue(e, a);
    var empty: Environment := map[];
    assert empty.Keys == {};
    NestedMeaning(e, levels, Context(map[], mode, map[], a));
  }

  // --- The query ------------------------------------------------------------------------------------

  /** The negated query and all constraints in one conjunction. */
  function QueryAssert(cs: seq<Expr>, query: Expr): (e: Expr)
    requires AllBool(cs) && IsBool(query)
    ensures IsBool(e)
  {
    if cs == [] then IsZero(query) else AndCreate(QueryAssert(cs[..|cs| - 1], query), cs[|cs| - 1])
  }

  lemma {:induction false} QueryAssertHolds(cs: seq<Expr>, query: Expr, a: Assignment)
    requires AllBool(cs) && IsBool(query)
    ensures Holds(QueryAssert(cs, query), a) <==> Satisfies(cs, a) && !Holds(query, a)
  {
    hide IsZero, AndCreate, Eval, BinaryValue, WellTyped;
    if cs == [] {
      IsZeroValue(query, a);
      BoolValue(query, a);
    } else {
      var rest := cs[..|cs| - 1];
      QueryAssertHolds(rest, query, a);
      Connectives(QueryAssert(rest, query), cs[|cs| - 1], a);
      SatisfiesPush(rest, cs[|cs| - 1], a);
      assert cs == rest + [cs[|cs| - 1]];
    }
  }

  /** The printed assertion is satisfied by exactly the counterexamples to the query. */
  lemma {:induction false} QueryMeaning(cs: seq<Expr>, query: Expr, levels: seq<seq<Named>>, mode: DisplayMode,
                                        a: Assignment)
    requires AllBool(cs) && IsBool(query) && Displays(QueryAssert(cs, query), mode)
    requires LevelsPrintable(levels, mode) && Unique(levels, {})
    ensures Meaning(PrintAssert(QueryAssert(cs, query), levels, mode), map[], a)
         == Some(Truth(Satisfies(cs, a) && !Holds(query, a)))
  {
    hide QueryAssert, Meaning, PrintAssert, Displays;
    AssertMeaning(QueryAssert(cs, query), levels, mode, a);
    QueryAssertHolds(cs, query, a);
  }

  // --- Constant arrays ---------------------------------------------------------------------------------

  /** A constant array as it is declared: nothing is known about its cells yet. */
  function Declared(root: Array): (d: Array) {
    root.(constants := [])
  }

  /** The assertion that fixes one element of a constant array. */
  function ElementDefinition(root: Array, i: nat, mode: DisplayMode): (t: Term)
    requires i < |root.constants|
  {
    Equal(SelectTerm(ArrayName(Declared(root)), Decimal(i, root.domain)),
          PrintConstant(root.constants[i], root.range, mode))
  }

  /** The elements of the array can be compared with constants in this mode. */
  predicate ElementsDisplay(root: Array, mode: DisplayMode) {
    root.range != 1 && (mode != HexMode || root.range % 4 == 0)
  }

  /** It is well sorted, and then true exactly if the declared array has the element, if and
      only if the elements are wider than one bit and the mode can show them. */
  lemma {:induction false} ElementDefined(root: Array, i: nat, mode: DisplayMode, a: Assignment)
    requires root.Valid() && i < |root.constants| && i < Bits.Pow2(root.domain) && root.range < 0x1_0000_0000
    ensures Meaning(ElementDefinition(root, i, mode), map[], a)
         == Some(Truth(InitialValue(Declared(root), i, a) == root.constants[i]))
       <==> ElementsDisplay(root, mode)
  {
    hide PrintConstant;
    ElementTerm(root, i, mode, a);
    if ElementsDisplay(root, mode) {
      ConstantMeaning(root.constants[i], root.range, mode, map[], a);
    } else {
      OtherSort(root.constants[i], root.range, mode, a);
    }
  }

  /** A constant that cannot be shown as a bit-vector of its width is not one of that width. */
  lemma {:induction false} OtherSort(v: nat, w: nat, mode: DisplayMode, a: Assignment)
    requires 0 < w < 0x1_0000_0000 && (w == 1 || (mode == HexMode && w % 4 != 0))
    ensures var m := Meaning(PrintConstant(v, w, mode), map[], a); !(m.Some? && m.value.Word? && m.value.w == w)
  {
  }

  lemma {:induction false} ElementTerm(root: Array, i: nat, mode: DisplayMode, a: Assignment)
    requires root.Valid() && i < |root.constants| && i < Bits.Pow2(root.domain)
    ensures Meaning(ElementDefinition(root, i, mode), map[], a)
         == EqualMeaning(Some(Word(InitialValue(Declared(root), i, a), root.range)),
                         Meaning(PrintConstant(root.constants[i], root.range, mode), map[], a))
  {
    hide PrintConstant;
    var name := ArrayName(Declared(root));
    var cells := ArrayMeaning(name, map[], a);
    assert cells.Some? && cells.value.cells(i) == InitialValue(Declared(root), i, a);
    assert Meaning(Decimal(i, root.domain), map[], a) == Some(Word(i, root.domain));
    assert Meaning(SelectTerm(name, Decimal(i, root.domain)), map[], a)
        == Some(Word(InitialValue(Declared(root), i, a), root.range));
  }

  ghost predicate Defines(root: Array, mode: DisplayMode, a: Assignment) {
    forall i :: 0 <= i < |root.constants| ==> Meaning(ElementDefinition(root, i, mode), map[], a) == Some(Truth(true))
  }

  /** Reads of the declared array inside its bounds, past any updates, find what reads of the
      constant array find. */
  ghost predicate ReadAlike(root: Array, a: Assignment) {
    forall u, i :: 0 <= i < |root.constants| ==> ReadValue(Declared(root), u, i, a) == ReadValue(root, u, i, a)
  }

  /** All definitions of a constant array together are satisfied by its own contents and by no
      others, up to cells beyond its end. */
  lemma {:induction false} DefinitionsExact(root: Array, mode: DisplayMode, a: Assignment)
    requires root.Valid() && |root.constants| <= Bits.Pow2(root.domain) && root.range < 0x1_0000_0000
    requires ElementsDisplay(root, mode)
    ensures Defines(root, mode, a) <==> ReadAlike(root, a)
  {
    hide ElementDefinition, Meaning, ElementsDisplay;
    forall i | 0 <= i < |root.constants|
      ensures Meaning(ElementDefinition(root, i, mode), map[], a) == Some(Truth(true))
         <==> ReadValue(Declared(root), NoUpdate, i, a) == ReadValue(root, NoUpdate, i, a)
    {
      ElementDefined(root, i, mode, a);
    }
    if ReadAlike(root, a) {
      forall i | 0 <= i < |root.constants|
        ensures Meaning(ElementDefinition(root, i, mode), map[], a) == Some(Truth(true))
      {
        assert ReadValue(Declared(root), NoUpdate, i, a) == ReadValue(root, NoUpdate, i, a);
      }
    }
    if Defines(root, mode, a) {
      forall u, i | 0 <= i < |root.constants| ensures ReadValue(Declared(root), u, i, a) == ReadValue(root, u, i, a) {
        assert ReadValue(Declared(root), NoUpdate, i, a) == ReadValue(root, NoUpdate, i, a);
        SameReads(root, u, i, a);
      }
    }
  }

  lemma {:induction false} SameReads(root: Array, u: Updates, i: nat, a: Assignment)
    requires ReadValue(Declared(root), NoUpdate, i, a) == ReadValue(root, NoUpdate, i, a)
    ensures ReadValue(Declared(root), u, i, a) == ReadValue(root, u, i, a)
    decreases u
  {
    if u.Update? {
      SameReads(root, u.next, i, a);
    }
  }

  /** The definition of a Boolean element compares a bit-vector with a truth value. */
  lemma {:induction false} BooleanElementIllSorted(mode: DisplayMode, a: Assignment) returns (root: Array)
    ensures root.Valid() && root.range == 1 && root.constants == [1]
    ensures Meaning(ElementDefinition(root, 0, mode), map[], a).None?
  {
    Bits.Pow2Widths();
    root := Array(0, 1, 8, 1, [1]);
    ElementTerm(root, 0, mode, a);
  }
}
