/** The assertion as it is printed: the expressions to be named are arranged in levels, numbered
    and bound by nested lets. */
module LayeredAsserts {
  import opened Exprs
  import opened Constructors
  import opened LetLayers
  import opened SmtAssert
  import opened SmtPrinter
  import opened SmtTerms

  lemma {:induction false} MemberOfLevel(levels: seq<seq<Expr>>, i: nat, j: nat)
    requires i < |levels| && j < |levels[i]|
    ensures levels[i][j] in Members(levels)
    decreases |levels|
  {
    if i == |levels| - 1 {
      assert levels[i][j] in Set(levels[i]);
    } else {
      MemberOfLevel(levels[..|levels| - 1], i, j);
    }
  }

  lemma {:induction false} NumberedCount(levels: seq<seq<Expr>>, counter: nat)
    ensures |NumberedLevels(levels, counter)| == |levels|
    decreases |levels|
  {
    if levels != [] {
      NumberedCount(levels[1..], counter + |levels[0]|);
    }
  }

  lemma {:induction false} NumberedAt(levels: seq<seq<Expr>>, counter: nat, i: nat)
    requires i < |levels|
    ensures |NumberedLevels(levels, counter)| == |levels| && |NumberedLevels(levels, counter)[i]| == |levels[i]|
    ensures forall j :: 0 <= j < |levels[i]| ==> NumberedLevels(levels, counter)[i][j].e == levels[i][j]
    decreases |levels|
  {
    if 0 < i {
      NumberedAt(levels[1..], counter + |levels[0]|, i - 1);
    } else if 1 < |levels| {
      NumberedAt(levels[1..], counter + |levels[0]|, 0);
    }
  }

  lemma {:induction false} NumberedPrintable(levels: seq<seq<Expr>>, counter: nat, names: set<Expr>, mode: DisplayMode)
    requires Members(levels) <= names && forall k :: k in names ==> Printable(k, mode)
    ensures LevelsPrintable(NumberedLevels(levels, counter), mode)
  {
    var named: seq<seq<Named>> := NumberedLevels(levels, counter);
    NumberedCount(levels, counter);
    forall i: nat, j: nat | 0 <= i < |named| && 0 <= j < |named[i]| ensures Printable(named[i][j].e, mode) {
      NumberedAt(levels, counter, i);
      MemberOfLevel(levels, i, j);
    }
  }

  /** From the shared expressions to the assertion: whatever is named, the printed term has no
      free name, is well sorted and means what the expression means. */
  method PrintLayered(e: Expr, names: set<Expr>, mode: DisplayMode) returns (t: Term)
    requires IsBool(e) && Printable(e, mode) && forall k :: k in names ==> Printable(k, mode)
    ensures forall a :: Meaning(t, map[], a) == Some(Truth(Holds(e, a)))
  {
    hide Layered, Unique, Printable, LevelsPrintable, Members;
    var levels := ScanBindingExprDeps(names);
    var named := NumberedLevels(levels, 1);
    NumberedPrintable(levels, 1, names, mode);
    NumberedUnique(levels, 1, {});
    t := PrintAssert(e, named, mode);
    forall a ensures Meaning(t, map[], a) == Some(Truth(Holds(e, a))) {
      AssertMeaning(e, named, mode, a);
    }
  }
}
