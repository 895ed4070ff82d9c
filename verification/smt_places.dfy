/** Which expressions the scan finds shared: those that stand at two or more places. Each
    place is visited once, because the operands of an expression and the update list of an
    array are looked into only at the first meeting. */
module SmtPlaces {
  import opened Exprs
  import opened Visitors
  import opened SmtScans

  /** Where an expression can stand: among the expressions that are asked for, as an operand
      of another, or in an update list, of which `rest` is what begins with that update. */
  datatype Place =
    | Asked(k: nat, e: Expr)
    | Operand(e: Expr, i: nat)
    | Written(root: Array, rest: Updates, isValue: bool)

  predicate IsAt(e: Expr, p: Place) {
    match p
    case Asked(_, asked) => e == asked
    case Operand(of, i) => i < |Kids(of)| && e == Kids(of)[i]
    case Written(_, rest, isValue) => rest.Update? && e == if isValue then rest.value else rest.index
  }

  function Suffixes(u: Updates): (us: set<Updates>) {
    if u.Update? then {u} + Suffixes(u.next) else {}
  }

  function OperandPlaces(e: Expr, n: nat): (ps: set<Place>) {
    set i | 0 <= i < n :: Operand(e, i)
  }

  function WrittenPlaces(root: Array, u: Updates): (ps: set<Place>) {
    set rest, isValue | rest in Suffixes(u) && isValue in {false, true} :: Written(root, rest, isValue)
  }

  /** The places that a scan of these expressions visits: theirs, the operands of everything
      seen, and the update lists searched. */
  predicate IsPlace(p: Place, es: seq<Expr>, f: Found) {
    match p
    case Asked(k, e) => k < |es| && es[k] == e
    case Operand(e, i) => e in f.seen && i < |Kids(e)|
    case Written(root, rest, _) => root in f.searched && rest in Suffixes(f.searched[root])
  }

  // --- Counting places ----------------------------------------------------------------------------

  ghost predicate Stands(e: Expr, ps: set<Place>) {
    exists p :: p in ps && IsAt(e, p)
  }

  ghost predicate StandsTwice(e: Expr, ps: set<Place>) {
    exists p, q :: p in ps && q in ps && p != q && IsAt(e, p) && IsAt(e, q)
  }

  /** Of the places visited so far, what stands at one was seen and what stands at two is shared. */
  ghost predicate Counted(f: Found, ps: set<Place>) {
    && (forall e :: e in f.seen <==> !e.Constant? && Stands(e, ps))
    && (forall e :: e in f.bindings <==> !e.Constant? && StandsTwice(e, ps))
  }

  /** Only what was met has been looked into. */
  ghost predicate Placed(f: Found, ps: set<Place>) {
    && f.searched.Keys == f.used
    && (forall p :: p in ps && p.Operand? ==> p.e in f.seen)
    && (forall p :: p in ps && p.Written? ==> p.root in f.used)
  }

  /** What has been visited in between: these places, and all that is in what is new. */
  ghost predicate Visited(f: Found, before: set<Place>, g: Found, after: set<Place>, ps: set<Place>) {
    && f.seen <= g.seen && f.used <= g.used && before + ps <= after
    && (forall root :: root in f.searched ==> root in g.searched && g.searched[root] == f.searched[root])
    && (forall p :: p in after - before ==>
          || p in ps || (p.Operand? && p.e in g.seen - f.seen)
          || (p.Written? && p.root in g.used - f.used && p.root in g.searched
              && p in WrittenPlaces(p.root, g.searched[p.root])))
    && (forall e :: e in g.seen - f.seen ==> OperandPlaces(e, |Kids(e)|) <= after)
    && (forall root :: root in g.used - f.used ==>
          root in g.searched && WrittenPlaces(root, g.searched[root]) <= after)
  }

  lemma {:induction false} Visits(f: Found, d0: set<Place>, g: Found, d1: set<Place>, ps: set<Place>, h: Found,
                                  d2: set<Place>, qs: set<Place>)
    requires Visited(f, d0, g, d1, ps) && Visited(g, d1, h, d2, qs)
    ensures Visited(f, d0, h, d2, ps + qs)
  {
    hide OperandPlaces, WrittenPlaces;
  }

  /** One more place for an expression that was met before. */
  lemma {:induction false} MetAgain(e: Expr, f: Found, ps: set<Place>, p: Place)
    requires Counted(f, ps) && p !in ps && IsAt(e, p) && (e.Constant? || e in f.seen)
    ensures Counted(if e.Constant? then f else f.(bindings := f.bindings + {e}), ps + {p})
  {
    OneMorePlace(e, ps, p);
  }

  /** The first place of an expression. */
  lemma {:induction false} MetFirst(e: Expr, f: Found, ps: set<Place>, p: Place)
    requires Counted(f, ps) && p !in ps && IsAt(e, p) && !e.Constant? && e !in f.seen
    ensures Counted(f.(seen := f.seen + {e}), ps + {p})
  {
    OneMorePlace(e, ps, p);
  }

  lemma {:induction false} OneMorePlace(e: Expr, ps: set<Place>, p: Place)
    requires p !in ps && IsAt(e, p)
    ensures forall x :: Stands(x, ps + {p}) <==> Stands(x, ps) || x == e
    ensures forall x :: StandsTwice(x, ps + {p}) <==> StandsTwice(x, ps) || (x == e && Stands(x, ps))
  {
    forall x ensures Stands(x, ps + {p}) <==> Stands(x, ps) || x == e {
      if Stands(x, ps) {
        var q :| q in ps && IsAt(x, q);
        assert q in ps + {p};
      } else if x == e {
        assert p in ps + {p};
      }
    }
    forall x | StandsTwice(x, ps) ensures StandsTwice(x, ps + {p}) {
      var q, r :| q in ps && r in ps && q != r && IsAt(x, q) && IsAt(x, r);
      assert q in ps + {p} && r in ps + {p};
    }
    if Stands(e, ps) {
      var q :| q in ps && IsAt(e, q);
      assert q in ps + {p} && p in ps + {p};
    }
    forall x | StandsTwice(x, ps + {p}) ensures StandsTwice(x, ps) || (x == e && Stands(x, ps)) {
      var q, r :| q in ps + {p} && r in ps + {p} && q != r && IsAt(x, q) && IsAt(x, r);
      var other := if q == p then r else q;
      assert other in ps && IsAt(x, other);
    }
  }

  // --- The scan visits every place once -------------------------------------------------------------

  lemma {:induction false} ScanVisits(e: Expr, f: Found, d: set<Place>, p: Place) returns (after: set<Place>)
    requires Counted(f, d) && Placed(f, d) && p !in d && IsAt(e, p)
    requires p.Operand? ==> p.e in f.seen
    requires p.Written? ==> p.root in f.used
    ensures Counted(Scanned(e, f), after) && Placed(Scanned(e, f), after)
    ensures Visited(f, d, Scanned(e, f), after, {p})
    decreases Size(e), 2
  {
    hide Counted, ScannedRead, ScannedKids;
    after := d + {p};
    if e.Constant? || e in f.seen {
      MetAgain(e, f, d, p);
    } else {
      var g := f.(seen := f.seen + {e});
      MetFirst(e, f, d, p);
      NothingInside(f, d, e, p);
      var read := ReadVisits(e, g, after);
      KidsSmaller(e);
      var kids := KidsVisits(e, Kids(e), Size(e), ScannedRead(e, g), read);
      FirstVisit(e, f, d, p, ScannedRead(e, g), read, Scanned(e, f), kids);
      after := kids;
    }
  }

  lemma {:induction false} NothingInside(f: Found, d: set<Place>, e: Expr, p: Place)
    requires Placed(f, d) && e !in f.seen && (p.Operand? ==> p.e in f.seen)
    ensures forall i :: Operand(e, i) !in d + {p}
  {
  }

  lemma {:induction false} FirstVisit(e: Expr, f: Found, d: set<Place>, p: Place, g: Found, read: set<Place>,
                                      h: Found, kids: set<Place>)
    requires e !in f.seen
    requires Visited(f.(seen := f.seen + {e}), d + {p}, g, read, {})
    requires Visited(g, read, h, kids, OperandPlaces(e, |Kids(e)|))
    ensures Visited(f, d, h, kids, {p})
  {
    var g0 := f.(seen := f.seen + {e});
    Visits(g0, d + {p}, g, read, {}, h, kids, OperandPlaces(e, |Kids(e)|));
    hide WrittenPlaces;
  }

  lemma {:induction false} ReadVisits(e: Expr, f: Found, d: set<Place>) returns (after: set<Place>)
    requires Counted(f, d) && Placed(f, d) && e in f.seen
    ensures Counted(ScannedRead(e, f), after) && Placed(ScannedRead(e, f), after)
    ensures Visited(f, d, ScannedRead(e, f), after, {})
    ensures forall i :: Operand(e, i) !in d ==> Operand(e, i) !in after
    decreases Size(e), 0
  {
    hide Counted, ScannedUpdates;
    after := d;
    if e.Read? && e.root !in f.used {
      SameCounted(f, Opened(e, f), d);
      assert forall rest, b :: Written(e.root, rest, b) !in d;
      after := UpdatesVisits(e.updates, e.root, Opened(e, f), d);
    } else if e.Read? {
      SameCounted(f, ScannedRead(e, f), d);
    }
  }

  lemma {:induction false} SameCounted(f: Found, g: Found, d: set<Place>)
    requires Counted(f, d) && g.seen == f.seen && g.bindings == f.bindings
    ensures Counted(g, d)
  {
  }

  lemma {:induction false} KidsVisits(e: Expr, ks: seq<Expr>, bound: nat, f: Found, d: set<Place>)
    returns (after: set<Place>)
    requires ks <= Kids(e) && forall k :: k in ks ==> Size(k) < bound
    requires Counted(f, d) && Placed(f, d) && e in f.seen && forall i :: Operand(e, i) !in d
    ensures var r := ScannedKids(ks, bound, f);
            Counted(r, after) && Placed(r, after) && Visited(f, d, r, after, OperandPlaces(e, |ks|))
    decreases bound, 1, |ks|
  {
    hide Counted, Scanned;
    after := d;
    if ks != [] {
      var n := |ks| - 1;
      var g := ScannedKids(ks[..n], bound, f);
      var before := KidsVisits(e, ks[..n], bound, f, d);
      after := ScanVisits(ks[n], g, before, Operand(e, n));
      Visits(f, d, g, before, OperandPlaces(e, n), Scanned(ks[n], g), after, {Operand(e, n)});
      assert OperandPlaces(e, n) + {Operand(e, n)} == OperandPlaces(e, |ks|);
    }
  }

  lemma {:induction false} SuffixSmaller(u: Updates)
    ensures forall rest :: rest in Suffixes(u) ==> UpdatesSize(rest) <= UpdatesSize(u)
  {
    if u.Update? {
      SuffixSmaller(u.next);
    }
  }

  lemma {:induction false} UpdatesVisits(u: Updates, root: Array, f: Found, d: set<Place>) returns (after: set<Place>)
    requires Counted(f, d) && Placed(f, d) && root in f.used
    requires forall rest, b :: rest in Suffixes(u) ==> Written(root, rest, b) !in d
    ensures var r := ScannedUpdates(u, f);
            Counted(r, after) && Placed(r, after) && Visited(f, d, r, after, WrittenPlaces(root, u))
    decreases UpdatesSize(u), 3
  {
    hide Counted, Scanned;
    after := d;
    if u.Update? {
      SuffixSmaller(u.next);
      var g := Scanned(u.index, f);
      var h := Scanned(u.value, g);
      var one := ScanVisits(u.index, f, d, Written(root, u, false));
      var two := ScanVisits(u.value, g, one, Written(root, u, true));
      Visits(f, d, g, one, {Written(root, u, false)}, h, two, {Written(root, u, true)});
      after := UpdatesVisits(u.next, root, h, two);
      var both := {Written(root, u, false)} + {Written(root, u, true)};
      Visits(f, d, h, two, both, ScannedUpdates(u, f), after, WrittenPlaces(root, u.next));
      assert both + WrittenPlaces(root, u.next) == WrittenPlaces(root, u);
    }
  }

  function AskedPlaces(es: seq<Expr>): (ps: set<Place>) {
    set k | 0 <= k < |es| :: Asked(k, es[k])
  }

  lemma {:induction false} NothingVisited()
    ensures Counted(NOTHING, {}) && Placed(NOTHING, {}) && Visited(NOTHING, {}, NOTHING, {}, AskedPlaces([]))
  {
  }

  lemma {:induction false} AskedLater(f: Found, before: set<Place>, es: seq<Expr>, e: Expr)
    requires Visited(NOTHING, {}, f, before, AskedPlaces(es))
    ensures Asked(|es|, e) !in before
  {
  }

  lemma {:induction false} AllVisits(es: seq<Expr>) returns (after: set<Place>)
    ensures Counted(ScannedAll(es), after) && Placed(ScannedAll(es), after)
    ensures Visited(NOTHING, {}, ScannedAll(es), after, AskedPlaces(es))
  {
    hide Scanned, Counted, Placed, Visited;
    after := {};
    if es == [] {
      NothingVisited();
    } else {
      var n := |es| - 1;
      var before := AllVisits(es[..n]);
      AskedLater(ScannedAll(es[..n]), before, es[..n], es[n]);
      after := ScanVisits(es[n], ScannedAll(es[..n]), before, Asked(n, es[n]));
      Visits(NOTHING, {}, ScannedAll(es[..n]), before, AskedPlaces(es[..n]), ScannedAll(es), after, {Asked(n, es[n])});
      assert AskedPlaces(es[..n]) + {Asked(n, es[n])} == AskedPlaces(es);
    }
  }

  /** What stands at two places that the scan visits. */
  ghost predicate Shared(x: Expr, es: seq<Expr>, f: Found) {
    !x.Constant? && exists p, q :: p != q && IsPlace(p, es, f) && IsPlace(q, es, f) && IsAt(x, p) && IsAt(x, q)
  }

  /** The scan has seen exactly the expressions that stand somewhere, constants apart, and records
      exactly those that stand at two places. */
  lemma {:induction false} SharedExactly(es: seq<Expr>)
    ensures var f := ScannedAll(es);
            && (forall x :: x in f.seen <==> !x.Constant? && exists p :: IsPlace(p, es, f) && IsAt(x, p))
            && (forall x :: x in f.bindings <==> Shared(x, es, f))
            && f.searched.Keys == f.used
  {
    hide ScannedAll;
    var f := ScannedAll(es);
    var ps := AllVisits(es);
    forall p, x | IsAt(x, p) ensures IsPlace(p, es, f) <==> p in ps {
      PlacesVisited(es, f, ps, p, x);
    }
    forall x ensures x in f.seen <==> !x.Constant? && exists p :: IsPlace(p, es, f) && IsAt(x, p) {
      assert Stands(x, ps) <==> exists p :: IsPlace(p, es, f) && IsAt(x, p);
    }
    forall x ensures x in f.bindings <==> Shared(x, es, f) {
      assert StandsTwice(x, ps) <==>
               exists p, q :: p != q && IsPlace(p, es, f) && IsPlace(q, es, f) && IsAt(x, p) && IsAt(x, q);
    }
  }

  lemma {:induction false} PlacesVisited(es: seq<Expr>, f: Found, ps: set<Place>, p: Place, x: Expr)
    requires Placed(f, ps) && Visited(NOTHING, {}, f, ps, AskedPlaces(es)) && IsAt(x, p)
    ensures IsPlace(p, es, f) <==> p in ps
  {
    if p.Written? && IsPlace(p, es, f) {
      assert p.isValue in {false, true};
      assert p in WrittenPlaces(p.root, f.searched[p.root]);
    }
    if p.Operand? && IsPlace(p, es, f) {
      assert p in OperandPlaces(p.e, |Kids(p.e)|);
    }
  }
}
