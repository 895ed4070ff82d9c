/** Arranging named expressions in levels, so that what an expression uses is named in an
    earlier level. */
module LetLayers {
  import opened Exprs
  import opened SmtAssert
  import opened Visitors

  // --- What a named expression uses -------------------------------------------------------------

  /** The named expressions met below the operands of e, not looking inside those met. */
  ghost function Uses(e: Expr, names: set<Expr>): (us: set<Expr>)
    decreases Size(e), 1
  {
    Below(Kids(e), names, Size(e))
  }

  ghost function Below(ks: seq<Expr>, names: set<Expr>, bound: nat): (us: set<Expr>)
    requires forall k :: k in ks ==> Size(k) < bound
    decreases bound, 0, |ks|
  {
    if ks == [] then {}
    else
      Below(ks[1..], names, bound)
      + if ks[0].Constant? then {} else if ks[0] in names then {ks[0]} else Uses(ks[0], names)
  }

  /** A way down from e to u through operands that have no names themselves. */
  ghost predicate Chain(path: seq<Expr>, e: Expr, u: Expr, names: set<Expr>) {
    && 2 <= |path| && path[0] == e && path[|path| - 1] == u
    && (forall i :: 0 <= i < |path| - 1 ==> path[i + 1] in Kids(path[i]))
    && forall i :: 0 < i < |path| - 1 ==> path[i] !in names
  }

  /** What e uses are the named expressions that can be reached like that. */
  lemma {:induction false} UsesExactly(e: Expr, names: set<Expr>, u: Expr)
    ensures u in Uses(e, names) <==> u in names && !u.Constant? && exists path :: Chain(path, e, u, names)
  {
    if u in Uses(e, names) {
      var path := ChainTo(e, names, u);
    }
    if path :| u in names && !u.Constant? && Chain(path, e, u, names) {
      ChainUsed(path, e, u, names);
    }
  }

  lemma {:induction false} BelowMember(ks: seq<Expr>, names: set<Expr>, bound: nat, u: Expr)
    requires forall k :: k in ks ==> Size(k) < bound
    ensures u in Below(ks, names, bound) <==>
              exists i :: 0 <= i < |ks| && !ks[i].Constant?
                          && if ks[i] in names then u == ks[i] else u in Uses(ks[i], names)
    decreases |ks|
  {
    hide Uses;
    if ks != [] {
      BelowMember(ks[1..], names, bound, u);
      forall i | 0 < i < |ks| ensures ks[i] == ks[1..][i - 1] {}
      if i :| 0 <= i < |ks[1..]| && !ks[1..][i].Constant?
              && if ks[1..][i] in names then u == ks[1..][i] else u in Uses(ks[1..][i], names) {
        assert ks[i + 1] == ks[1..][i];
      }
    }
  }

  lemma {:induction false} ChainTo(e: Expr, names: set<Expr>, u: Expr) returns (path: seq<Expr>)
    requires u in Uses(e, names)
    ensures u in names && !u.Constant? && Chain(path, e, u, names)
    decreases Size(e)
  {
    hide Below;
    BelowMember(Kids(e), names, Size(e), u);
    var i :| 0 <= i < |Kids(e)| && !Kids(e)[i].Constant?
             && if Kids(e)[i] in names then u == Kids(e)[i] else u in Uses(Kids(e)[i], names);
    var k := Kids(e)[i];
    assert k in Kids(e);
    if k in names {
      path := [e, k];
    } else {
      var rest := ChainTo(k, names, u);
      path := [e] + rest;
      forall j | 0 <= j < |path| - 1 ensures path[j + 1] in Kids(path[j]) {
        assert j > 0 ==> path[j] == rest[j - 1] && path[j + 1] == rest[j];
      }
      forall j | 0 < j < |path| - 1 ensures path[j] !in names {
        assert path[j] == rest[j - 1];
      }
    }
  }

  lemma {:induction false} ChainUsed(path: seq<Expr>, e: Expr, u: Expr, names: set<Expr>)
    requires u in names && !u.Constant? && Chain(path, e, u, names)
    ensures u in Uses(e, names)
    decreases |path|
  {
    hide Below;
    var k := path[1];
    assert path[0 + 1] in Kids(path[0]);
    var i :| 0 <= i < |Kids(e)| && Kids(e)[i] == k;
    if 2 < |path| {
      var rest := path[1..];
      forall j | 0 <= j < |rest| - 1 ensures rest[j + 1] in Kids(rest[j]) {
        assert path[j + 1 + 1] in Kids(path[j + 1]);
      }
      assert rest[0 + 1] in Kids(rest[0]);
      ChainUsed(rest, k, u, names);
    }
    BelowMember(Kids(e), names, Size(e), u);
    assert !Kids(e)[i].Constant?;
  }

  lemma {:induction false} UsesSmaller(e: Expr, names: set<Expr>)
    ensures forall u :: u in Uses(e, names) ==> u in names && Size(u) < Size(e)
    decreases Size(e), 1
  {
    BelowSmaller(Kids(e), names, Size(e));
  }

  lemma {:induction false} BelowSmaller(ks: seq<Expr>, names: set<Expr>, bound: nat)
    requires forall k :: k in ks ==> Size(k) < bound
    ensures forall u :: u in Below(ks, names, bound) ==> u in names && Size(u) < bound
    decreases bound, 0, |ks|
  {
    if ks != [] {
      BelowSmaller(ks[1..], names, bound);
      UsesSmaller(ks[0], names);
    }
  }

  ghost function UsesOfAll(es: seq<Expr>, names: set<Expr>): (us: set<Expr>) {
    if es == [] then {} else UsesOfAll(es[..|es| - 1], names) + Uses(es[|es| - 1], names)
  }

  function TotalSize(es: seq<Expr>): (n: nat) {
    if es == [] then 0 else TotalSize(es[..|es| - 1]) + Size(es[|es| - 1])
  }

  lemma {:induction false} PushUses(es: seq<Expr>, e: Expr, names: set<Expr>)
    ensures UsesOfAll(es + [e], names) == UsesOfAll(es, names) + Uses(e, names)
    ensures TotalSize(es + [e]) == TotalSize(es) + Size(e)
  {
    assert (es + [e])[..|es|] == es;
  }

  lemma {:induction false} KidsTotal(e: Expr)
    ensures TotalSize(Kids(e)) < Size(e)
  {
    var ks := Kids(e);
    if |ks| > 0 {
      PushUses([], ks[0], {});
      assert [] + [ks[0]] == [ks[0]];
    }
    if |ks| > 1 {
      PushUses([ks[0]], ks[1], {});
      assert [ks[0]] + [ks[1]] == [ks[0], ks[1]];
    }
    if |ks| > 2 {
      PushUses([ks[0], ks[1]], ks[2], {});
      assert [ks[0], ks[1]] + [ks[2]] == ks;
    }
    assert ks == [] || ks == [ks[0]] || ks == [ks[0], ks[1]] || |ks| == 3;
  }

  /** The traversal with an explicit stack that finds what an expression uses. */
  method CollectUses(e: Expr, names: set<Expr>) returns (found: set<Expr>)
    ensures found == Uses(e, names)
  {
    var stack := [e];
    found := {};
    assert [e][..0] == [];
    while stack != []
      invariant found + UsesOfAll(stack, names) == Uses(e, names)
      decreases TotalSize(stack)
    {
      var top := stack[|stack| - 1];
      stack := stack[..|stack| - 1];
      KidsTotal(top);
      found, stack := PushKids(Kids(top), names, found, stack, Size(top));
    }
  }

  lemma {:induction false} NoKids(names: set<Expr>, bound: nat)
    ensures Below([], names, bound) == {} && TotalSize([]) == 0
  {
  }

  lemma {:induction false} FirstKid(ks: seq<Expr>, names: set<Expr>, bound: nat)
    requires ks != [] && forall k :: k in ks ==> Size(k) < bound
    ensures Below(ks, names, bound)
         == Below(ks[1..], names, bound)
            + if ks[0].Constant? then {} else if ks[0] in names then {ks[0]} else Uses(ks[0], names)
  {
  }

  method PushKids(ks: seq<Expr>, names: set<Expr>, found: set<Expr>, stack: seq<Expr>, ghost bound: nat)
    returns (more: set<Expr>, deeper: seq<Expr>)
    requires forall k :: k in ks ==> Size(k) < bound
    ensures more + UsesOfAll(deeper, names) == found + UsesOfAll(stack, names) + Below(ks, names, bound)
    ensures TotalSize(deeper) <= TotalSize(stack) + TotalSize(ks)
  {
    hide Below, Uses, UsesOfAll, TotalSize;
    more, deeper := found, stack;
    NoKids(names, bound);
    assert ks[0..] == ks && ks[..0] == [];
    for i := 0 to |ks|
      invariant more + UsesOfAll(deeper, names) + Below(ks[i..], names, bound)
             == found + UsesOfAll(stack, names) + Below(ks, names, bound)
      invariant TotalSize(deeper) <= TotalSize(stack) + TotalSize(ks[..i])
    {
      assert ks[i..][1..] == ks[i + 1..] && ks[..i + 1] == ks[..i] + [ks[i]];
      FirstKid(ks[i..], names, bound);
      PushUses(ks[..i], ks[i], names);
      if !ks[i].Constant? {
        if ks[i] in names {
          more := more + {ks[i]};
        } else {
          PushUses(deeper, ks[i], names);
          deeper := deeper + [ks[i]];
        }
      }
    }
    assert ks[|ks|..] == [] && ks[..|ks|] == ks;
  }

  // --- Levels -----------------------------------------------------------------------------------------

  /** Everything in the levels. */
  ghost function Members(levels: seq<seq<Expr>>): (ms: set<Expr>) {
    if levels == [] then {} else Members(levels[..|levels| - 1]) + Set(levels[|levels| - 1])
  }

  ghost predicate Distinct(es: seq<Expr>) {
    forall i, j :: 0 <= i < j < |es| ==> es[i] != es[j]
  }

  /** Each level has exactly the new members that use nothing but what the levels before it have. */
  ghost predicate Layered(levels: seq<seq<Expr>>, names: set<Expr>) {
    levels == []
    || (var n := |levels| - 1;
        && Layered(levels[..n], names) && Distinct(levels[n])
        && forall e :: e in levels[n] <==>
             e in names && e !in Members(levels[..n]) && Uses(e, names) <= Members(levels[..n]))
  }

  /** The expressions that are not done but use only what is. */
  ghost predicate Ready(ready: seq<Expr>, names: set<Expr>, done: set<Expr>, skipped: set<Expr>) {
    && Distinct(ready)
    && forall e :: e in ready <==> e in names && e !in done && e !in skipped && Uses(e, names) <= done
  }

  /** What each expression still waits for. */
  ghost predicate Waits(waiting: map<Expr, set<Expr>>, names: set<Expr>, done: set<Expr>) {
    waiting.Keys == names && forall e :: e in names ==> waiting[e] == Uses(e, names) - done
  }

  /** For each name, those of the expressions looked at that use it. */
  ghost predicate UsedBy(users: map<Expr, set<Expr>>, names: set<Expr>, looked: set<Expr>) {
    users.Keys == names && forall e :: e in names ==> users[e] == set d | d in looked && e in Uses(d, names)
  }

  /** As long as something is left, something is ready. */
  lemma {:induction false} SomethingReady(names: set<Expr>, done: set<Expr>, e: Expr)
    requires e in names && e !in done
    ensures exists r :: r in names && r !in done && Uses(r, names) <= done
    decreases Size(e)
  {
    if !(Uses(e, names) <= done) {
      var u :| u in Uses(e, names) && u !in done;
      UsesSmaller(e, names);
      SomethingReady(names, done, u);
    }
  }

  /** Finishing one expression releases those that waited for it alone. */
  method Finish(x: Expr, waiting: map<Expr, set<Expr>>, users: map<Expr, set<Expr>>, next: seq<Expr>, names: set<Expr>,
                ghost done: set<Expr>, ghost skipped: set<Expr>)
    returns (fewer: map<Expr, set<Expr>>, more: seq<Expr>)
    requires x in names && x !in done && Waits(waiting, names, done) && Ready(next, names, done, skipped)
    requires UsedBy(users, names, names)
    requires x in skipped && done <= skipped && forall e :: e in skipped ==> x !in Uses(e, names)
    ensures Waits(fewer, names, done + {x}) && Ready(more, names, done + {x}, skipped)
  {
    hide Uses, Below;
    fewer, more := waiting, next;
    var todo := users[x];
    while todo != {}
      invariant todo <= users[x] && fewer.Keys == names
      invariant forall e :: e in names ==> fewer[e] == if e in todo then waiting[e] else waiting[e] - {x}
      invariant Distinct(more)
      invariant forall e :: e in more <==> e in next || (e in users[x] && e !in todo && fewer[e] == {})
      decreases todo
    {
      var d :| d in todo;
      fewer := fewer[d := fewer[d] - {x}];
      if fewer[d] == {} {
        more := more + [d];
      }
      todo := todo - {d};
    }
    forall e | e in names ensures fewer[e] == Uses(e, names) - (done + {x}) {
      assert waiting[e] == Uses(e, names) - done;
    }
    forall e ensures e in more <==> e in names && e !in done + {x} && e !in skipped && Uses(e, names) <= done + {x} {
      if e in names && Uses(e, names) <= done + {x} {
        assert fewer[e] == {};
      }
    }
  }

  ghost function Set(es: seq<Expr>): (r: set<Expr>) {
    set e | e in es
  }

  /** Nothing in a level uses anything else in it, and nothing else is ready before it is done. */
  lemma {:induction false} LevelStarts(level: seq<Expr>, names: set<Expr>, done: set<Expr>)
    requires Ready(level, names, done, {}) && done <= names && forall e :: e in done ==> Uses(e, names) <= done
    ensures Ready([], names, done, done + Set(level))
    ensures forall e :: e in done + Set(level) ==> Uses(e, names) <= done
    ensures forall e :: e in level ==> e in names && e !in done
    ensures forall i, j :: 0 <= i < j < |level| ==> level[i] != level[j]
  {
  }

  lemma {:induction false} LevelEnds(next: seq<Expr>, names: set<Expr>, done: set<Expr>)
    requires Ready(next, names, done, done)
    ensures Ready(next, names, done, {})
  {
  }

  /** Finishing a whole level. */
  method FinishLevel(level: seq<Expr>, waiting: map<Expr, set<Expr>>, users: map<Expr, set<Expr>>, names: set<Expr>,
                     ghost done: set<Expr>)
    returns (fewer: map<Expr, set<Expr>>, next: seq<Expr>)
    requires Waits(waiting, names, done) && Ready(level, names, done, {})
    requires UsedBy(users, names, names)
    requires done <= names && forall e :: e in done ==> Uses(e, names) <= done
    ensures Waits(fewer, names, done + Set(level)) && Ready(next, names, done + Set(level), {})
  {
    hide Uses, Below, Ready, Waits, Distinct;
    fewer, next := waiting, [];
    ghost var skipped := done + Set(level);
    LevelStarts(level, names, done);
    assert done + Set(level[..0]) == done;
    for i := 0 to |level|
      invariant Waits(fewer, names, done + Set(level[..i])) && Ready(next, names, done + Set(level[..i]), skipped)
    {
      assert level[i] in level && level[i] !in Set(level[..i]);
      fewer, next := Finish(level[i], fewer, users, next, names, done + Set(level[..i]), skipped);
      assert done + Set(level[..i]) + {level[i]} == done + Set(level[..i + 1]);
    }
    assert level[..|level|] == level;
    LevelEnds(next, names, skipped);
  }

  lemma {:induction false} NoUsers(names: set<Expr>)
    ensures UsedBy(map u | u in names :: {}, names, names - names)
  {
  }

  lemma {:induction false} UsersMore(users: map<Expr, set<Expr>>, names: set<Expr>, looked: set<Expr>, e: Expr,
                                     us: set<Expr>)
    requires UsedBy(users, names, looked) && us == Uses(e, names)
    ensures UsedBy(map u | u in names :: if u in us then users[u] + {e} else users[u], names, looked + {e})
  {
    hide Uses;
  }

  /** Who uses what, found by looking below each named expression. */
  method CollectDependencies(names: set<Expr>)
    returns (waiting: map<Expr, set<Expr>>, users: map<Expr, set<Expr>>, ready: seq<Expr>)
    ensures Waits(waiting, names, {}) && Ready(ready, names, {}, {})
    ensures UsedBy(users, names, names)
  {
    hide Uses, Below, UsedBy;
    waiting, users, ready := map[], map u | u in names :: {}, [];
    NoUsers(names);
    var rest := names;
    while rest != {}
      invariant rest <= names && waiting.Keys == names - rest && users.Keys == names
      invariant forall e :: e in waiting ==> waiting[e] == Uses(e, names)
      invariant UsedBy(users, names, names - rest)
      invariant Distinct(ready) && forall e :: e in ready <==> e in names - rest && Uses(e, names) == {}
      decreases rest
    {
      var e :| e in rest;
      var us := CollectUses(e, names);
      waiting := waiting[e := us];
      UsersMore(users, names, names - rest, e, us);
      assert names - rest + {e} == names - (rest - {e});
      users := map u | u in names :: if u in us then users[u] + {e} else users[u];
      if us == {} {
        ready := ready + [e];
      }
      rest := rest - {e};
    }
    assert names - rest == names;
  }

  lemma {:induction false} NoLevels(names: set<Expr>)
    ensures Layered([], names) && Members([]) == {}
  {
  }

  lemma {:induction false} LayeredMore(levels: seq<seq<Expr>>, level: seq<Expr>, names: set<Expr>)
    requires Layered(levels, names) && Ready(level, names, Members(levels), {})
    ensures Layered(levels + [level], names) && Members(levels + [level]) == Members(levels) + Set(level)
  {
    hide Uses, Below;
    assert (levels + [level])[..|levels|] == levels;
  }

  /** Every named expression gets exactly one level and what it uses an earlier one; if there
      are names at all, some use nothing. */
  method ScanBindingExprDeps(names: set<Expr>) returns (levels: seq<seq<Expr>>)
    ensures Layered(levels, names) && Members(levels) == names
    ensures names != {} ==> levels != [] && levels[0] != []
  {
    hide Uses, Below, Layered, Waits;
    levels := [];
    NoLevels(names);
    var waiting, users, ready := CollectDependencies(names);
    if names == {} {
      return;
    }
    FirstReady(names);
    assert ready != [];
    while ready != []
      invariant Layered(levels, names) && Members(levels) <= names
      invariant forall e :: e in Members(levels) ==> Uses(e, names) <= Members(levels)
      invariant Waits(waiting, names, Members(levels)) && Ready(ready, names, Members(levels), {})
      invariant ready == [] ==> levels != []
      invariant levels != [] ==> levels[0] != []
      decreases names - Members(levels)
    {
      ghost var done := Members(levels);
      var level := ready;
      assert level[0] in level;
      waiting, ready := FinishLevel(level, waiting, users, names, done);
      LayeredMore(levels, level, names);
      levels := levels + [level];
    }
    NothingLeft(names, Members(levels), ready);
  }

  lemma {:induction false} FirstReady(names: set<Expr>)
    requires names != {}
    ensures exists r :: r in names && Uses(r, names) == {}
  {
    var e :| e in names;
    SomethingReady(names, {}, e);
  }

  lemma {:induction false} NothingLeft(names: set<Expr>, done: set<Expr>, ready: seq<Expr>)
    requires done <= names && Ready(ready, names, done, {}) && ready == []
    ensures done == names
  {
    if e :| e in names && e !in done {
      SomethingReady(names, done, e);
      assert false;
    }
  }

  // --- Numbers ----------------------------------------------------------------------------------------

  function Numbered(level: seq<Expr>, counter: nat): (named: seq<Named>) {
    seq(|level|, i requires 0 <= i < |level| => Named(level[i], counter + i))
  }

  /** Levels numbered consecutively, as the lets name them. */
  function NumberedLevels(levels: seq<seq<Expr>>, counter: nat): (named: seq<seq<Named>>)
    decreases |levels|
  {
    if levels == [] then [] else [Numbered(levels[0], counter)] + NumberedLevels(levels[1..], counter + |levels[0]|)
  }

  /** Consecutive numbers are never used twice. */
  lemma {:induction false} NumberedUnique(levels: seq<seq<Expr>>, counter: nat, used: set<nat>)
    requires forall n :: n in used ==> n < counter
    ensures Unique(NumberedLevels(levels, counter), used)
    decreases |levels|
  {
    if levels != [] {
      var named := NumberedLevels(levels, counter);
      assert named[1..] == NumberedLevels(levels[1..], counter + |levels[0]|);
      NumberedUnique(levels[1..], counter + |levels[0]|, used + Numbers(named[0]));
    }
  }
}
