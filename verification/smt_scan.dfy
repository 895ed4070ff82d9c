/** The scan before printing: it finds the arrays to declare and the expressions that are met
    more than once. An update list is looked into only at the first read of its array. */
module SmtScans {
  import Bits
  import opened Exprs
  import opened Visitors

  /** The arrays read in an expression and anywhere in its update lists. */
  function Arrays(e: Expr): (rs: set<Array>)
    decreases e
  {
    match e
    case Constant(_, _) => {}
    case NotOptimized(src) => Arrays(src)
    case Read(root, u, index) => {root} + UpdateArrays(u) + Arrays(index)
    case Select(c, t, f) => Arrays(c) + Arrays(t) + Arrays(f)
    case Concat(l, r) => Arrays(l) + Arrays(r)
    case Extract(src, _, _) => Arrays(src)
    case ZExt(src, _) => Arrays(src)
    case SExt(src, _) => Arrays(src)
    case Not(src) => Arrays(src)
    case Binary(_, l, r) => Arrays(l) + Arrays(r)
  }

  function UpdateArrays(u: Updates): (rs: set<Array>)
    decreases u
  {
    if u.Update? then UpdateArrays(u.next) + Arrays(u.index) + Arrays(u.value) else {}
  }

  function ArraysOfAll(es: seq<Expr>): (rs: set<Array>) {
    if es == [] then {} else ArraysOfAll(es[..|es| - 1]) + Arrays(es[|es| - 1])
  }

  /** The expression with everything in it, in update lists too. */
  function Subterms(e: Expr): (ts: set<Expr>)
    ensures e in ts
    decreases e
  {
    {e} + match e
          case Constant(_, _) => {}
          case NotOptimized(src) => Subterms(src)
          case Read(_, u, index) => UpdateSubterms(u) + Subterms(index)
          case Select(c, t, f) => Subterms(c) + Subterms(t) + Subterms(f)
          case Concat(l, r) => Subterms(l) + Subterms(r)
          case Extract(src, _, _) => Subterms(src)
          case ZExt(src, _) => Subterms(src)
          case SExt(src, _) => Subterms(src)
          case Not(src) => Subterms(src)
          case Binary(_, l, r) => Subterms(l) + Subterms(r)
  }

  function UpdateSubterms(u: Updates): (ts: set<Expr>)
    decreases u
  {
    if u.Update? then UpdateSubterms(u.next) + Subterms(u.index) + Subterms(u.value) else {}
  }

  function SubtermsOfAll(es: seq<Expr>): (ts: set<Expr>) {
    if es == [] then {} else SubtermsOfAll(es[..|es| - 1]) + Subterms(es[|es| - 1])
  }

  lemma {:induction false} KidArrays(e: Expr, i: nat)
    requires i < |Kids(e)|
    ensures Arrays(Kids(e)[i]) <= Arrays(e) && Subterms(Kids(e)[i]) <= Subterms(e) && Size(Kids(e)[i]) < Size(e)
  {
  }

  lemma {:induction false} SubtermArrays(e: Expr)
    ensures forall t :: t in Subterms(e) ==> Arrays(t) <= Arrays(e)
    decreases e
  {
    match e
    case Constant(_, _) =>
    case NotOptimized(src) => SubtermArrays(src);
    case Read(_, u, index) => UpdateSubtermArrays(u); SubtermArrays(index);
    case Select(c, t, f) => SubtermArrays(c); SubtermArrays(t); SubtermArrays(f);
    case Concat(l, r) => SubtermArrays(l); SubtermArrays(r);
    case Extract(src, _, _) => SubtermArrays(src);
    case ZExt(src, _) => SubtermArrays(src);
    case SExt(src, _) => SubtermArrays(src);
    case Not(src) => SubtermArrays(src);
    case Binary(_, l, r) => SubtermArrays(l); SubtermArrays(r);
  }

  lemma {:induction false} UpdateSubtermArrays(u: Updates)
    ensures forall t :: t in UpdateSubterms(u) ==> Arrays(t) <= UpdateArrays(u)
    decreases u
  {
    if u.Update? {
      UpdateSubtermArrays(u.next);
      SubtermArrays(u.index);
      SubtermArrays(u.value);
    }
  }

  lemma {:induction false} AllSubtermArrays(es: seq<Expr>)
    ensures forall t :: t in SubtermsOfAll(es) ==> Arrays(t) <= ArraysOfAll(es)
  {
    if es != [] {
      AllSubtermArrays(es[..|es| - 1]);
      SubtermArrays(es[|es| - 1]);
    }
  }

  /** The arrays of a node are its own and those of its operands. */
  lemma {:induction false} NodeArrays(e: Expr, rs: set<Array>)
    requires forall i :: 0 <= i < |Kids(e)| ==> Arrays(Kids(e)[i]) <= rs
    requires e.Read? ==> e.root in rs && UpdateArrays(e.updates) <= rs
    ensures Arrays(e) <= rs
  {
    var ks := Kids(e);
    assert 0 < |ks| ==> Arrays(ks[0]) <= rs;
    assert 1 < |ks| ==> Arrays(ks[1]) <= rs;
    assert 2 < |ks| ==> Arrays(ks[2]) <= rs;
  }

  /** An expression that the scan is done with, as far as the scan is concerned. */
  predicate Met(e: Expr, seen: set<Expr>) {
    e.Constant? || e in seen
  }

  predicate Searched(u: Updates, seen: set<Expr>)
    decreases u
  {
    u.Update? ==> Searched(u.next, seen) && Met(u.index, seen) && Met(u.value, seen)
  }

  /** The operands of a node were met, and a read's array is known and its updates were
      searched or skipped. */
  predicate Closed(e: Expr, seen: set<Expr>, used: set<Array>, skipped: set<Updates>) {
    && (forall i :: 0 <= i < |Kids(e)| ==> Met(Kids(e)[i], seen))
    && (e.Read? ==> e.root in used && (e.updates in skipped || Searched(e.updates, seen)))
  }

  /** Everything was met in full, and only arrays that were met are known. */
  predicate Consistent(seen: set<Expr>, used: set<Array>, skipped: set<Updates>) {
    && (forall e :: e in seen ==> Closed(e, seen, used, skipped))
    && (forall r :: r in used ==> exists e :: e in seen && e.Read? && e.root == r)
    && (forall u :: u in skipped ==> exists e :: e in seen && e.Read? && e.updates == u)
  }

  /** The arrays of the update lists that were skipped. */
  function SkippedArrays(skipped: set<Updates>): (rs: set<Array>) {
    set u, r | u in skipped && r in UpdateArrays(u) :: r
  }

  lemma {:induction false} SearchedMore(u: Updates, seen: set<Expr>, more: set<Expr>)
    requires Searched(u, seen) && seen <= more
    ensures Searched(u, more)
    decreases u
  {
    if u.Update? {
      SearchedMore(u.next, seen, more);
    }
  }

  lemma {:induction false} ClosedMore(e: Expr, seen: set<Expr>, used: set<Array>, skipped: set<Updates>,
                                      more: set<Expr>,
                                      moreUsed: set<Array>, moreSkipped: set<Updates>)
    requires Closed(e, seen, used, skipped) && seen <= more && used <= moreUsed && skipped <= moreSkipped
    ensures Closed(e, more, moreUsed, moreSkipped)
  {
    if e.Read? && e.updates !in skipped {
      SearchedMore(e.updates, seen, more);
    }
  }

  lemma {:induction false} AllClosedMore(es: set<Expr>, seen: set<Expr>, used: set<Array>, skipped: set<Updates>,
                                         more: set<Expr>, moreUsed: set<Array>, moreSkipped: set<Updates>)
    requires seen <= more && used <= moreUsed && skipped <= moreSkipped
    requires forall e :: e in es ==> Closed(e, seen, used, skipped)
    ensures forall e :: e in es ==> Closed(e, more, moreUsed, moreSkipped)
  {
    forall e | e in es ensures Closed(e, more, moreUsed, moreSkipped) {
      ClosedMore(e, seen, used, skipped, more, moreUsed, moreSkipped);
    }
  }

  /** What was met has only arrays that are known or were skipped. */
  lemma {:induction false} MetArrays(e: Expr, seen: set<Expr>, used: set<Array>, skipped: set<Updates>)
    requires Consistent(seen, used, skipped) && Met(e, seen)
    ensures Arrays(e) <= used + SkippedArrays(skipped)
    decreases Size(e)
  {
    hide Arrays, UpdateArrays;
    if !e.Constant? {
      assert Closed(e, seen, used, skipped);
      forall i | 0 <= i < |Kids(e)| ensures Arrays(Kids(e)[i]) <= used + SkippedArrays(skipped) {
        KidArrays(e, i);
        MetArrays(Kids(e)[i], seen, used, skipped);
      }
      if e.Read? {
        if e.updates in skipped {
          assert UpdateArrays(e.updates) <= SkippedArrays(skipped);
        } else {
          SearchedArrays(e.updates, seen, used, skipped);
        }
      }
      NodeArrays(e, used + SkippedArrays(skipped));
    } else {
      ConstantArrays(e);
    }
  }

  lemma {:induction false} ConstantArrays(e: Expr)
    requires e.Constant?
    ensures Arrays(e) == {}
  {
  }

  lemma {:induction false} SearchedArrays(u: Updates, seen: set<Expr>, used: set<Array>, skipped: set<Updates>)
    requires Consistent(seen, used, skipped) && Searched(u, seen)
    ensures UpdateArrays(u) <= used + SkippedArrays(skipped)
    decreases UpdatesSize(u)
  {
    hide Consistent, Arrays;
    if u.Update? {
      SearchedArrays(u.next, seen, used, skipped);
      MetArrays(u.index, seen, used, skipped);
      MetArrays(u.value, seen, used, skipped);
    }
  }

  // --- What the scan does ---------------------------------------------------------------------------

  /** What was found so far; the update lists that were searched and those that were skipped
      are recorded beside it. */
  datatype Found = Found(seen: set<Expr>, used: set<Array>, bindings: set<Expr>, searched: map<Array, Updates>,
                         skipped: set<Updates>)

  const NOTHING := Found({}, {}, {}, map[], {})

  function Scanned(e: Expr, f: Found): (r: Found)
    decreases Size(e), 2
  {
    if e.Constant? then f
    else if e in f.seen then f.(bindings := f.bindings + {e})
    else
      KidsSmaller(e);
      ScannedKids(Kids(e), Size(e), ScannedRead(e, f.(seen := f.seen + {e})))
  }

  /** The part of a read: its updates are searched if its array is new. */
  function ScannedRead(e: Expr, f: Found): (r: Found)
    decreases Size(e), 0
  {
    if !e.Read? then f
    else if e.root !in f.used then ScannedUpdates(e.updates, Opened(e, f))
    else f.(skipped := f.skipped + {e.updates})
  }

  /** The first read of an array. */
  function Opened(e: Expr, f: Found): (r: Found)
    requires e.Read?
  {
    f.(used := f.used + {e.root}, searched := f.searched[e.root := e.updates])
  }

  function ScannedKids(ks: seq<Expr>, bound: nat, f: Found): (r: Found)
    requires forall k :: k in ks ==> Size(k) < bound
    decreases bound, 1, |ks|
  {
    if ks == [] then f else Scanned(ks[|ks| - 1], ScannedKids(ks[..|ks| - 1], bound, f))
  }

  function ScannedUpdates(u: Updates, f: Found): (r: Found)
    decreases UpdatesSize(u), 3
  {
    if u.NoUpdate? then f else ScannedUpdates(u.next, Scanned(u.value, Scanned(u.index, f)))
  }

  function ScannedAll(es: seq<Expr>): (r: Found) {
    if es == [] then NOTHING else Scanned(es[|es| - 1], ScannedAll(es[..|es| - 1]))
  }

  lemma {:induction false} KidsSmaller(e: Expr)
    ensures forall k :: k in Kids(e) ==> Size(k) < Size(e)
  {
  }

  // --- What it finds ------------------------------------------------------------------------------------

  /** Everything that was met, except what is still being looked at, was met in full. */
  predicate Orderly(f: Found, pending: set<Expr>) {
    && f.bindings <= f.seen && pending <= f.seen
    && (forall e :: e in f.seen - pending ==> Closed(e, f.seen, f.used, f.skipped))
    && (forall r :: r in f.used ==> exists e :: e in f.seen && e.Read? && e.root == r)
    && (forall u :: u in f.skipped ==> exists e :: e in f.seen && e.Read? && e.updates == u)
    && (forall r :: r in f.searched ==> exists e :: e in f.seen && e.Read? && e.root == r && e.updates == f.searched[r])
  }

  /** Nothing is forgotten, and what is new is one of these. */
  predicate Grown(f: Found, g: Found, ts: set<Expr>) {
    f.seen <= g.seen <= f.seen + ts && f.used <= g.used && f.bindings <= g.bindings && f.skipped <= g.skipped
  }

  lemma {:induction false} ScannedOrderly(e: Expr, f: Found, pending: set<Expr>)
    requires Orderly(f, pending)
    ensures Orderly(Scanned(e, f), pending) && Met(e, Scanned(e, f).seen) && Grown(f, Scanned(e, f), Subterms(e))
    decreases Size(e), 2
  {
    hide Closed, Subterms, Searched, ScannedRead, ScannedKids;
    if !e.Constant? && e !in f.seen {
      var g := f.(seen := f.seen + {e});
      AllClosedMore(f.seen - pending, f.seen, f.used, f.skipped, g.seen, g.used, g.skipped);
      ReadOrderly(e, g, pending + {e});
      KidsSmaller(e);
      var h := ScannedRead(e, g);
      var r := ScannedKids(Kids(e), Size(e), h);
      forall k | k in Kids(e) ensures Subterms(k) <= Subterms(e) {
        var i :| 0 <= i < |Kids(e)| && Kids(e)[i] == k;
        KidArrays(e, i);
      }
      KidsOrderly(Kids(e), Size(e), h, pending + {e}, Subterms(e));
      if e.Read? && e.updates !in h.skipped {
        SearchedMore(e.updates, h.seen, r.seen);
      }
      FinishClosed(e, r);
      assert r.seen - pending == r.seen - (pending + {e}) + ({e} - pending);
    }
  }

  lemma {:induction false} FinishClosed(e: Expr, f: Found)
    requires forall k :: k in Kids(e) ==> Met(k, f.seen)
    requires e.Read? ==> e.root in f.used && (e.updates in f.skipped || Searched(e.updates, f.seen))
    ensures Closed(e, f.seen, f.used, f.skipped)
  {
  }

  lemma {:induction false} ReadOrderly(e: Expr, f: Found, pending: set<Expr>)
    requires Orderly(f, pending) && e in pending
    ensures var r := ScannedRead(e, f);
            && Orderly(r, pending) && Grown(f, r, Subterms(e))
            && (e.Read? ==> e.root in r.used && (e.updates in r.skipped || Searched(e.updates, r.seen)))
    decreases Size(e), 0
  {
    hide Closed, Searched, ScannedUpdates;
    if e.Read? && e.root !in f.used {
      var g := Opened(e, f);
      AllClosedMore(f.seen - pending, f.seen, f.used, f.skipped, g.seen, g.used, g.skipped);
      UpdatesOrderly(e.updates, g, pending);
    } else if e.Read? {
      var g := f.(skipped := f.skipped + {e.updates});
      AllClosedMore(f.seen - pending, f.seen, f.used, f.skipped, g.seen, g.used, g.skipped);
    }
  }

  lemma {:induction false} KidsOrderly(ks: seq<Expr>, bound: nat, f: Found, pending: set<Expr>, ts: set<Expr>)
    requires Orderly(f, pending) && forall k :: k in ks ==> Size(k) < bound && Subterms(k) <= ts
    ensures var r := ScannedKids(ks, bound, f);
            Orderly(r, pending) && Grown(f, r, ts) && forall k :: k in ks ==> Met(k, r.seen)
    decreases bound, 1, |ks|
  {
    hide Closed, Subterms, Scanned;
    if ks != [] {
      KidsOrderly(ks[..|ks| - 1], bound, f, pending, ts);
      ScannedOrderly(ks[|ks| - 1], ScannedKids(ks[..|ks| - 1], bound, f), pending);
      assert ks == ks[..|ks| - 1] + [ks[|ks| - 1]];
    }
  }

  lemma {:induction false} UpdatesOrderly(u: Updates, f: Found, pending: set<Expr>)
    requires Orderly(f, pending)
    ensures var r := ScannedUpdates(u, f);
            Orderly(r, pending) && Grown(f, r, UpdateSubterms(u)) && Searched(u, r.seen)
    decreases UpdatesSize(u), 3
  {
    hide Closed, Subterms, Scanned;
    if u.Update? {
      var g := Scanned(u.index, f);
      var h := Scanned(u.value, g);
      ScannedOrderly(u.index, f, pending);
      ScannedOrderly(u.value, g, pending);
      UpdatesOrderly(u.next, h, pending);
    }
  }

  lemma {:induction false} AllOrderly(es: seq<Expr>)
    ensures Orderly(ScannedAll(es), {}) && forall k :: 0 <= k < |es| ==> Met(es[k], ScannedAll(es).seen)
    ensures ScannedAll(es).seen <= SubtermsOfAll(es)
  {
    hide Closed, Subterms, Scanned;
    if es != [] {
      AllOrderly(es[..|es| - 1]);
      ScannedOrderly(es[|es| - 1], ScannedAll(es[..|es| - 1]), {});
    }
  }

  /** The arrays that occur are those that were found and those of the skipped update lists. So
      all of them are declared exactly when the skipped lists have no others. */
  lemma {:induction false} AllDeclared(es: seq<Expr>)
    ensures var f := ScannedAll(es);
            && ArraysOfAll(es) == f.used + SkippedArrays(f.skipped)
            && (ArraysOfAll(es) <= f.used <==> SkippedArrays(f.skipped) <= f.used)
            && f.bindings <= f.seen <= SubtermsOfAll(es)
  {
    hide Arrays, ArraysOfAll, ScannedAll, SkippedArrays, Closed;
    var f := ScannedAll(es);
    AllSubtermArrays(es);
    AllOrderly(es);
    AllMet(es, f.seen, f.used, f.skipped);
    OnlyMet(f.seen, f.used, f.skipped, ArraysOfAll(es));
  }

  lemma {:induction false} AllMet(es: seq<Expr>, seen: set<Expr>, used: set<Array>, skipped: set<Updates>)
    requires Consistent(seen, used, skipped) && forall k :: 0 <= k < |es| ==> Met(es[k], seen)
    ensures ArraysOfAll(es) <= used + SkippedArrays(skipped)
  {
    hide Consistent;
    if es != [] {
      AllMet(es[..|es| - 1], seen, used, skipped);
      MetArrays(es[|es| - 1], seen, used, skipped);
    }
  }

  lemma {:induction false} OnlyMet(seen: set<Expr>, used: set<Array>, skipped: set<Updates>, rs: set<Array>)
    requires Consistent(seen, used, skipped) && forall e :: e in seen ==> Arrays(e) <= rs
    ensures used + SkippedArrays(skipped) <= rs
  {
  }

  /** Two reads of one array, the second past an update that reads another array: the other
      array is not found. */
  lemma {:induction false} UndeclaredArray() returns (e: Expr, other: Array)
    ensures IsBool(e) && e.Binary? && e.op.Ult? && other in Arrays(e) && other !in ScannedAll([e]).used
  {
    hide Scanned, ScannedKids, ScannedAll;
    Bits.Pow2Widths();
    var a, zero := Array(0, 1, 8, 8, []), Constant(0, 8);
    other := Array(1, 1, 8, 8, []);
    var hidden := Update(NoUpdate, zero, Read(other, NoUpdate, zero));
    var first, second := Read(a, NoUpdate, zero), Read(a, hidden, zero);
    e := Binary(Ult, first, second);
    var f := NOTHING.(seen := NOTHING.seen + {e});
    var g := Opened(first, f.(seen := f.seen + {first}));
    ReadOfConstant(first, f);
    ReadOfConstant(second, g);
    KidsSmaller(e);
    TwoKids(e, first, second, f, g);
    OneExpr(e);
    PlainNode(e, NOTHING);
  }

  lemma {:induction false} OneExpr(e: Expr)
    ensures ScannedAll([e]) == Scanned(e, NOTHING)
  {
    hide Scanned;
    assert ScannedAll([e][..0]) == NOTHING;
  }

  lemma {:induction false} PlainNode(e: Expr, f: Found)
    requires !e.Constant? && !e.Read? && e !in f.seen && forall k :: k in Kids(e) ==> Size(k) < Size(e)
    ensures Scanned(e, f) == ScannedKids(Kids(e), Size(e), f.(seen := f.seen + {e}))
  {
  }

  lemma {:induction false} TwoKids(e: Expr, first: Expr, second: Expr, f: Found, g: Found)
    requires Kids(e) == [first, second] && Scanned(first, f) == g && forall k :: k in Kids(e) ==> Size(k) < Size(e)
    ensures ScannedKids(Kids(e), Size(e), f) == Scanned(second, g)
  {
    hide Scanned;
    var ks := Kids(e);
    assert ks[..1] == [first] && ks[..1][..0] == [];
    assert ScannedKids(ks[..1], Size(e), f) == Scanned(first, ScannedKids(ks[..1][..0], Size(e), f));
  }

  lemma {:induction false} ReadOfConstant(e: Expr, f: Found)
    requires e.Read? && e.index.Constant? && e !in f.seen && (e.root in f.used || e.updates.NoUpdate?)
    ensures Scanned(e, f) == if e.root in f.used then f.(seen := f.seen + {e}, skipped := f.skipped + {e.updates})
                             else Opened(e, f.(seen := f.seen + {e}))
  {
    var g, ks := ScannedRead(e, f.(seen := f.seen + {e})), Kids(e);
    KidsSmaller(e);
    assert ks == [e.index] && ks[..|ks| - 1] == [];
    assert ScannedKids(ks, Size(e), g) == Scanned(e.index, ScannedKids(ks[..|ks| - 1], Size(e), g)) == g;
    assert Scanned(e, f) == g;
    assert e.root !in f.used ==> ScannedUpdates(e.updates, Opened(e, f.(seen := f.seen + {e}))) == g;
  }

  // --- The scanner ---------------------------------------------------------------------------------

  class Scanner {
    var seenExprs: set<Expr>
    var usedArrays: set<Array>
    var bindings: set<Expr>
    ghost var searched: map<Array, Updates>
    ghost var skipped: set<Updates>

    ghost function View(): (f: Found)
      reads this
    {
      Found(seenExprs, usedArrays, bindings, searched, skipped)
    }

    constructor ()
      ensures View() == NOTHING
    {
      seenExprs, usedArrays, bindings, searched, skipped := {}, {}, {}, map[], {};
    }

    method Scan(e: Expr)
      modifies this
      ensures View() == Scanned(e, old(View()))
      decreases Size(e), 2
    {
      if e.Constant? {
        return;
      }
      if e in seenExprs {
        bindings := bindings + {e};
        return;
      }
      seenExprs := seenExprs + {e};
      if e.Read? {
        if e.root !in usedArrays {
          usedArrays, searched := usedArrays + {e.root}, searched[e.root := e.updates];
          ScanUpdates(e.updates);
        } else {
          skipped := skipped + {e.updates};
        }
      }
      var ks := Kids(e);
      KidsSmaller(e);
      ghost var f := View();
      for i := 0 to |ks|
        invariant View() == ScannedKids(ks[..i], Size(e), f)
      {
        assert ks[..i + 1][..i] == ks[..i] && ks[..i + 1][i] == ks[i];
        Scan(ks[i]);
      }
      assert ks[..|ks|] == ks;
    }

    method ScanUpdates(u: Updates)
      modifies this
      ensures View() == ScannedUpdates(u, old(View()))
      decreases UpdatesSize(u), 3
    {
      var un := u;
      while un.Update?
        invariant ScannedUpdates(un, View()) == ScannedUpdates(u, old(View())) && UpdatesSize(un) <= UpdatesSize(u)
        decreases un
      {
        Scan(un.index);
        Scan(un.value);
        un := un.next;
      }
    }

    /** All constraints and then the query, from scratch. */
    method ScanAll(es: seq<Expr>)
      requires View() == NOTHING
      modifies this
      ensures View() == ScannedAll(es)
    {
      for i := 0 to |es|
        invariant View() == ScannedAll(es[..i])
      {
        assert es[..i + 1][..i] == es[..i];
        Scan(es[i]);
      }
      assert es[..|es|] == es;
    }
  }
}
