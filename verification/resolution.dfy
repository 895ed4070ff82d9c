/** Resolving a pointer to the memory objects it may point into. */
module Resolution {
  import Bits
  import opened Exprs
  import opened Booleans
  import opened LinearForms
  import opened Constructors
  import opened Constraints
  import opened Solvers
  import opened AddressSpaces

  const POINTER_BITS: nat := 64

  /** An object of size zero still takes up its address. */
  function Extent(mo: MemoryObject): (n: nat) {
    if mo.size == 0 then 1 else mo.size
  }

  predicate Inside(mo: MemoryObject, address: nat) {
    mo.address <= address < mo.address + Extent(mo)
  }

  /** Objects in address order that do not overlap and fit the address range. */
  predicate InOrder(objects: seq<MemoryObject>) {
    && (forall i :: 0 <= i < |objects| ==> Addressable(objects[i]))
    && (forall i, j :: 0 <= i < j < |objects| ==> objects[i].address + Extent(objects[i]) <= objects[j].address)
  }

  predicate IsPointer(p: Expr) {
    WellTyped(p) && Width(p) == POINTER_BITS
  }

  // --- The expressions a memory object contributes -------------------------------------------

  function AddressConst(v: nat): (e: Expr)
    requires v < Bits.Pow2(POINTER_BITS)
    ensures IsPointer(e)
  {
    Constant(v, POINTER_BITS)
  }

  predicate Addressable(mo: MemoryObject) {
    mo.address + Extent(mo) <= Bits.Pow2(POINTER_BITS) && mo.size < Bits.Pow2(POINTER_BITS)
  }

  function BaseExpr(mo: MemoryObject): (e: Expr)
    requires Addressable(mo)
    ensures IsPointer(e)
  {
    AddressConst(mo.address)
  }

  function OffsetExpr(mo: MemoryObject, p: Expr): (e: Expr)
    requires Addressable(mo) && IsPointer(p)
    ensures IsPointer(e)
  {
    SubCreate(p, BaseExpr(mo))
  }

  function BoundsCheckPointer(mo: MemoryObject, p: Expr): (e: Expr)
    requires Addressable(mo) && IsPointer(p)
    ensures IsBool(e)
  {
    if mo.size == 0 then EqCreate(OffsetExpr(mo, p), AddressConst(0))
    else LessCreate(Ult, OffsetExpr(mo, p), AddressConst(mo.size))
  }

  /** The check that `bytes` bytes at the pointer lie within the object. */
  function BoundsCheckBytes(mo: MemoryObject, p: Expr, bytes: nat): (e: Expr)
    requires Addressable(mo) && IsPointer(p) && 0 < bytes
    ensures IsBool(e)
  {
    if bytes <= mo.size then LessCreate(Ult, OffsetExpr(mo, p), AddressConst(mo.size - bytes + 1))
    else Bool(false)
  }

  lemma {:induction false} OffsetValue(mo: MemoryObject, p: Expr, a: Assignment)
    requires Addressable(mo) && IsPointer(p)
    ensures Eval(p, a) < Bits.Pow2(POINTER_BITS)
    ensures Eval(OffsetExpr(mo, p), a) == Bits.SubMod(Eval(p, a), mo.address, POINTER_BITS)
  {
    EvalBound(p, a);
    SubValue(p, BaseExpr(mo), a);
  }

  lemma {:induction false} BelowValue(l: Expr, v: nat, a: Assignment)
    requires IsPointer(l) && v < Bits.Pow2(POINTER_BITS)
    ensures Holds(LessCreate(Ult, l, AddressConst(v)), a) <==> Eval(l, a) < v
  {
    EvalBound(l, a);
    LessValue(Ult, l, AddressConst(v), a);
  }

  /** The bounds check holds exactly when the pointer is inside the object: below the base
      the unsigned difference wraps around to something past the size. */
  lemma {:induction false} BoundsCheckValue(mo: MemoryObject, p: Expr, a: Assignment)
    requires Addressable(mo) && IsPointer(p)
    ensures Holds(BoundsCheckPointer(mo, p), a) <==> Inside(mo, Eval(p, a))
  {
    OffsetValue(mo, p, a);
    if mo.size == 0 {
      EvalBound(OffsetExpr(mo, p), a);
      EqValue(OffsetExpr(mo, p), AddressConst(0), a);
    } else {
      BelowValue(OffsetExpr(mo, p), mo.size, a);
    }
  }

  /** The check for an access of several bytes holds exactly when all of them are inside. */
  lemma {:induction false} BoundsCheckBytesValue(mo: MemoryObject, p: Expr, bytes: nat, a: Assignment)
    requires Addressable(mo) && IsPointer(p) && 0 < bytes
    ensures Holds(BoundsCheckBytes(mo, p, bytes), a)
       <==> mo.address <= Eval(p, a) && Eval(p, a) + bytes <= mo.address + mo.size
  {
    OffsetValue(mo, p, a);
    if bytes <= mo.size {
      BelowValue(OffsetExpr(mo, p), mo.size - bytes + 1, a);
    }
  }

  // --- Looking an address up -------------------------------------------------------------------

  /** The position of the first object above the address. */
  method UpperBound(objects: seq<MemoryObject>, address: nat) returns (k: nat)
    requires InOrder(objects)
    ensures k <= |objects|
    ensures forall i :: 0 <= i < |objects| ==> (i < k <==> objects[i].address <= address)
  {
    k := 0;
    while k < |objects| && objects[k].address <= address
      invariant k <= |objects| && forall i :: 0 <= i < k ==> objects[i].address <= address
    {
      k := k + 1;
    }
  }

  /** A concrete address resolves to the object it is in, if there is one. */
  method ResolveOneConstant(objects: seq<MemoryObject>, address: nat) returns (r: Option<MemoryObject>)
    requires InOrder(objects)
    ensures r.Some? ==> r.value in objects && Inside(r.value, address)
    ensures r.None? ==> forall mo :: mo in objects ==> !Inside(mo, address)
  {
    var k := UpperBound(objects, address);
    if k > 0 {
      var mo := objects[k - 1];
      if (mo.size == 0 && address == mo.address) || address - mo.address < mo.size {
        return Some(mo);
      }
    }
    r := None;
    forall mo | mo in objects ensures !Inside(mo, address) {
      var i: int :| 0 <= i < |objects| && objects[i] == mo;
      assert i + 1 < k ==> objects[i].address + Extent(objects[i]) <= objects[k - 1].address;
    }
  }

  // --- Symbolic pointers ---------------------------------------------------------------------------

  /** The pointer may be inside the object. */
  ghost predicate MayPointTo(cs: seq<Expr>, p: Expr, mo: MemoryObject) {
    exists a :: Satisfies(cs, a) && Inside(mo, Eval(p, a))
  }

  lemma {:induction false} MayPointToQuery(cs: seq<Expr>, p: Expr, mo: MemoryObject)
    requires Addressable(mo) && IsPointer(p)
    ensures Possible(cs, BoundsCheckPointer(mo, p)) <==> MayPointTo(cs, p, mo)
    ensures Certain(cs, BoundsCheckPointer(mo, p)) <==> forall a :: Satisfies(cs, a) ==> Inside(mo, Eval(p, a))
  {
    forall a ensures Holds(BoundsCheckPointer(mo, p), a) <==> Inside(mo, Eval(p, a)) {
      BoundsCheckValue(mo, p, a);
    }
  }

  lemma {:induction false} BaseQueries(cs: seq<Expr>, p: Expr, mo: MemoryObject)
    requires Addressable(mo) && IsPointer(p)
    ensures Certain(cs, CompareCreate(Uge, p, BaseExpr(mo))) <==>
              forall a :: Satisfies(cs, a) ==> mo.address <= Eval(p, a)
    ensures Certain(cs, CompareCreate(Ult, p, BaseExpr(mo))) <==>
              forall a :: Satisfies(cs, a) ==> Eval(p, a) < mo.address
  {
    forall a ensures Holds(CompareCreate(Uge, p, BaseExpr(mo)), a) <==> mo.address <= Eval(p, a)
             ensures Holds(CompareCreate(Ult, p, BaseExpr(mo)), a) <==> Eval(p, a) < mo.address {
      BaseValues(p, mo, a);
    }
  }

  lemma {:induction false} BaseValues(p: Expr, mo: MemoryObject, a: Assignment)
    requires Addressable(mo) && IsPointer(p)
    ensures Holds(CompareCreate(Uge, p, BaseExpr(mo)), a) <==> mo.address <= Eval(p, a)
    ensures Holds(CompareCreate(Ult, p, BaseExpr(mo)), a) <==> Eval(p, a) < mo.address
  {
    hide CompareCreate, WellTyped;
    EvalBound(p, a);
    assert Eval(BaseExpr(mo), a) == mo.address;
    CompareValue(Uge, p, BaseExpr(mo), a);
    CompareValue(Ult, p, BaseExpr(mo), a);
  }

  /** The pointer is never below the object, so objects further down are out of reach. */
  lemma {:induction false} NothingBelow(cs: seq<Expr>, p: Expr, objects: seq<MemoryObject>, i: nat)
    requires InOrder(objects) && i < |objects| && forall a :: Satisfies(cs, a) ==> objects[i].address <= Eval(p, a)
    ensures forall j :: 0 <= j < i ==> !MayPointTo(cs, p, objects[j])
  {
  }

  lemma {:induction false} NothingAbove(cs: seq<Expr>, p: Expr, objects: seq<MemoryObject>, i: nat)
    requires InOrder(objects) && i < |objects| && forall a :: Satisfies(cs, a) ==> Eval(p, a) < objects[i].address
    ensures forall j :: i <= j < |objects| ==> !MayPointTo(cs, p, objects[j])
  {
    forall j | i <= j < |objects| ensures !MayPointTo(cs, p, objects[j]) {
      assert objects[i].address <= objects[j].address;
    }
  }

  /** A pointer that is always in one object is never in another. */
  lemma {:induction false} NowhereElse(cs: seq<Expr>, p: Expr, objects: seq<MemoryObject>, i: nat)
    requires InOrder(objects) && i < |objects| && forall a :: Satisfies(cs, a) ==> Inside(objects[i], Eval(p, a))
    ensures forall j :: 0 <= j < |objects| && j != i ==> !MayPointTo(cs, p, objects[j])
  {
    forall j | 0 <= j < |objects| && j != i ensures !MayPointTo(cs, p, objects[j]) {
      if j < i {
        assert objects[j].address + Extent(objects[j]) <= objects[i].address;
      } else {
        assert objects[i].address + Extent(objects[i]) <= objects[j].address;
      }
    }
  }

  // The four questions put to the solver.

  method AskInside(cs: seq<Expr>, solver: Solver, p: Expr, mo: MemoryObject) returns (b: bool)
    requires Addressable(mo) && IsPointer(p) && Satisfiable(cs) && Exact(solver)
    ensures b <==> MayPointTo(cs, p, mo)
  {
    MayPointToQuery(cs, p, mo);
    b := solver.mayBeTrue(cs, BoundsCheckPointer(mo, p));
  }

  method AskAlwaysInside(cs: seq<Expr>, solver: Solver, p: Expr, mo: MemoryObject) returns (b: bool)
    requires Addressable(mo) && IsPointer(p) && Satisfiable(cs) && Exact(solver)
    ensures b <==> forall a :: Satisfies(cs, a) ==> Inside(mo, Eval(p, a))
  {
    MayPointToQuery(cs, p, mo);
    b := solver.mustBeTrue(cs, BoundsCheckPointer(mo, p));
  }

  method AskNeverBelow(cs: seq<Expr>, solver: Solver, p: Expr, mo: MemoryObject) returns (b: bool)
    requires Addressable(mo) && IsPointer(p) && Satisfiable(cs) && Exact(solver)
    ensures b <==> forall a :: Satisfies(cs, a) ==> mo.address <= Eval(p, a)
  {
    BaseQueries(cs, p, mo);
    b := solver.mustBeTrue(cs, CompareCreate(Uge, p, BaseExpr(mo)));
  }

  method AskAlwaysBelow(cs: seq<Expr>, solver: Solver, p: Expr, mo: MemoryObject) returns (b: bool)
    requires Addressable(mo) && IsPointer(p) && Satisfiable(cs) && Exact(solver)
    ensures b <==> forall a :: Satisfies(cs, a) ==> Eval(p, a) < mo.address
  {
    BaseQueries(cs, p, mo);
    b := solver.mustBeTrue(cs, CompareCreate(Ult, p, BaseExpr(mo)));
  }

  method ResolveOne(objects: seq<MemoryObject>, cs: seq<Expr>, solver: Solver, p: Expr)
    returns (r: Option<MemoryObject>)
    requires InOrder(objects) && IsPointer(p) && Satisfiable(cs) && Exact(solver)
    ensures r.Some? ==> r.value in objects && MayPointTo(cs, p, r.value)
    ensures r.None? ==> forall mo :: mo in objects ==> !MayPointTo(cs, p, mo)
  {
    if p.Constant? {
      ghost var a :| Satisfies(cs, a);
      r := ResolveOneConstant(objects, p.value);
      assert r.Some? ==> Inside(r.value, Eval(p, a));
      return;
    }
    var example := solver.getValue(cs, p);
    var k := UpperBound(objects, example);
    if k > 0 && example - objects[k - 1].address < objects[k - 1].size {
      assert PossibleValue(cs, p, example);
      return Some(objects[k - 1]);
    }
    r := SearchDown(objects, cs, solver, p, k);
    if r.None? {
      r := SearchUp(objects, cs, solver, p, k);
    }
  }

  method SearchDown(objects: seq<MemoryObject>, cs: seq<Expr>, solver: Solver, p: Expr, start: nat)
    returns (r: Option<MemoryObject>)
    requires InOrder(objects) && IsPointer(p) && Satisfiable(cs) && Exact(solver) && start <= |objects|
    ensures r.Some? ==> r.value in objects && MayPointTo(cs, p, r.value)
    ensures r.None? ==> forall j :: 0 <= j < start ==> !MayPointTo(cs, p, objects[j])
  {
    var i := start;
    while i > 0
      invariant 0 <= i <= start && forall j :: i <= j < start ==> !MayPointTo(cs, p, objects[j])
    {
      i := i - 1;
      var mo := objects[i];
      var inside := AskInside(cs, solver, p, mo);
      if inside {
        return Some(mo);
      }
      var neverBelow := AskNeverBelow(cs, solver, p, mo);
      if neverBelow {
        NothingBelow(cs, p, objects, i);
        break;
      }
    }
    r := None;
  }

  method SearchUp(objects: seq<MemoryObject>, cs: seq<Expr>, solver: Solver, p: Expr, start: nat)
    returns (r: Option<MemoryObject>)
    requires InOrder(objects) && IsPointer(p) && Satisfiable(cs) && Exact(solver) && start <= |objects|
    requires forall j :: 0 <= j < start ==> !MayPointTo(cs, p, objects[j])
    ensures r.Some? ==> r.value in objects && MayPointTo(cs, p, r.value)
    ensures r.None? ==> forall mo :: mo in objects ==> !MayPointTo(cs, p, mo)
  {
    for i := start to |objects|
      invariant forall j :: 0 <= j < i ==> !MayPointTo(cs, p, objects[j])
    {
      var mo := objects[i];
      var below := AskAlwaysBelow(cs, solver, p, mo);
      if below {
        NothingAbove(cs, p, objects, i);
        break;
      }
      var inside := AskInside(cs, solver, p, mo);
      if inside {
        return Some(mo);
      }
    }
    r := None;
  }

  // --- All resolutions ---------------------------------------------------------------------------------

  /** The results so far are exactly the objects numbered from lo to hi that the pointer may
      be in, each once. */
  ghost predicate Collected(rl: seq<MemoryObject>, cs: seq<Expr>, p: Expr, objects: seq<MemoryObject>, lo: int, hi: int)
    requires 0 <= lo <= hi <= |objects|
  {
    && (forall j, k :: 0 <= j < k < |rl| ==> rl[j] != rl[k])
    && (forall mo :: mo in rl ==> MayPointTo(cs, p, mo) && exists j :: lo <= j < hi && objects[j] == mo)
    && (forall j :: lo <= j < hi && MayPointTo(cs, p, objects[j]) ==> objects[j] in rl)
  }

  /** Looking at one more object on either side. */
  lemma {:induction false} CollectOne(rl: seq<MemoryObject>, cs: seq<Expr>, p: Expr, objects: seq<MemoryObject>,
                                      lo: int, hi: int, i: int)
    requires InOrder(objects) && 0 <= lo <= hi <= |objects| && Collected(rl, cs, p, objects, lo, hi)
    requires 0 <= i < |objects| && (i == lo - 1 || i == hi)
    ensures Collected(if MayPointTo(cs, p, objects[i]) then rl + [objects[i]] else rl, cs, p, objects,
                      if i < lo then i else lo, if i < lo then hi else hi + 1)
  {
    var l, h := if i < lo then i else lo, if i < lo then hi else hi + 1;
    if MayPointTo(cs, p, objects[i]) {
      NotCollected(rl, cs, p, objects, lo, hi, i);
      CollectMore(rl, cs, p, objects, lo, hi, i, l, h);
    } else {
      CollectNone(rl, cs, p, objects, lo, hi, l, h);
    }
  }

  lemma {:induction false} CollectMore(rl: seq<MemoryObject>, cs: seq<Expr>, p: Expr, objects: seq<MemoryObject>,
                                       lo: int, hi: int, i: int, l: int, h: int)
    requires 0 <= l <= lo <= hi <= h <= |objects| && Collected(rl, cs, p, objects, lo, hi)
    requires (i == lo - 1 && l == i && h == hi) || (i == hi && l == lo && h == hi + 1)
    requires MayPointTo(cs, p, objects[i]) && objects[i] !in rl
    ensures Collected(rl + [objects[i]], cs, p, objects, l, h)
  {
    var now := rl + [objects[i]];
    forall mo | mo in now ensures MayPointTo(cs, p, mo) && exists j :: l <= j < h && objects[j] == mo {
      if mo in rl {
        var j :| lo <= j < hi && objects[j] == mo;
      }
    }
    forall j | l <= j < h && MayPointTo(cs, p, objects[j]) ensures objects[j] in now {
      if j == i {
        assert now[|rl|] == objects[i];
      } else {
        assert objects[j] in rl;
      }
    }
  }

  lemma {:induction false} NotCollected(rl: seq<MemoryObject>, cs: seq<Expr>, p: Expr, objects: seq<MemoryObject>,
                                        lo: int, hi: int, i: int)
    requires InOrder(objects) && 0 <= lo <= hi <= |objects| && Collected(rl, cs, p, objects, lo, hi)
    requires 0 <= i < |objects| && !(lo <= i < hi)
    ensures objects[i] !in rl
  {
    forall j | lo <= j < hi ensures objects[j] != objects[i] {
      assert objects[j].address != objects[i].address;
    }
  }

  /** Skipping objects the pointer cannot be in. */
  lemma {:induction false} CollectNone(rl: seq<MemoryObject>, cs: seq<Expr>, p: Expr, objects: seq<MemoryObject>,
                                       lo: int, hi: int, l: int, h: int)
    requires 0 <= l <= lo <= hi <= h <= |objects| && Collected(rl, cs, p, objects, lo, hi)
    requires forall j :: l <= j < lo || hi <= j < h ==> !MayPointTo(cs, p, objects[j])
    ensures Collected(rl, cs, p, objects, l, h)
  {
  }

  /** Every object the pointer may be in, each once, unless the limit on the number of
      results (which counts from two) cuts the list short. */
  method Resolve(objects: seq<MemoryObject>, cs: seq<Expr>, solver: Solver, p: Expr, maxResolutions: nat)
    returns (incomplete: bool, rl: seq<MemoryObject>)
    requires InOrder(objects) && IsPointer(p) && Satisfiable(cs) && Exact(solver)
    ensures forall j, k :: 0 <= j < k < |rl| ==> rl[j] != rl[k]
    ensures forall mo :: mo in rl ==> mo in objects && MayPointTo(cs, p, mo)
    ensures !incomplete ==> forall mo :: mo in objects && MayPointTo(cs, p, mo) ==> mo in rl
    ensures incomplete ==> 1 < maxResolutions == |rl|
  {
    if p.Constant? {
      var r := ResolveOneConstant(objects, p.value);
      ConstantPointer(cs, p, objects, r);
      return false, if r.Some? then [r.value] else [];
    }
    var example := solver.getValue(cs, p);
    var start := UpperBound(objects, example);
    var done;
    done, incomplete, rl := CollectDown(objects, cs, solver, p, start, maxResolutions);
    if !done {
      incomplete, rl := CollectUp(objects, cs, solver, p, start, maxResolutions, rl);
    }
  }

  lemma {:induction false} ConstantPointer(cs: seq<Expr>, p: Expr, objects: seq<MemoryObject>, r: Option<MemoryObject>)
    requires InOrder(objects) && IsPointer(p) && p.Constant? && Satisfiable(cs)
    requires r.Some? ==> r.value in objects && Inside(r.value, p.value)
    requires r.None? ==> forall mo :: mo in objects ==> !Inside(mo, p.value)
    ensures forall mo :: mo in objects ==> (MayPointTo(cs, p, mo) <==> r == Some(mo))
  {
    var a :| Satisfies(cs, a);
    forall mo | mo in objects ensures MayPointTo(cs, p, mo) <==> r == Some(mo) {
      assert Satisfies(cs, a) && Eval(p, a) == p.value;
      if r.Some? && r.value != mo {
        var i: int :| 0 <= i < |objects| && objects[i] == mo;
        var j: int :| 0 <= j < |objects| && objects[j] == r.value;
        assert if i < j then mo.address + Extent(mo) <= r.value.address
               else r.value.address + Extent(r.value) <= mo.address;
      }
    }
  }

  /** Record an object, and decide whether the search is over: it is when this first result
      always holds the pointer, or when the limit is reached. */
  method Record(objects: seq<MemoryObject>, cs: seq<Expr>, solver: Solver, p: Expr, maxResolutions: nat,
                rl: seq<MemoryObject>, i: nat, ghost lo: int, ghost hi: int)
    returns (done: bool, incomplete: bool, now: seq<MemoryObject>)
    requires InOrder(objects) && IsPointer(p) && Satisfiable(cs) && Exact(solver)
    requires 0 <= lo <= hi <= |objects| && Collected(rl, cs, p, objects, lo, hi)
    requires i < |objects| && (i == lo - 1 || i == hi)
    ensures Collected(now, cs, p, objects, if i < lo then i else lo, if i < lo then hi else hi + 1)
    ensures incomplete ==> done && 1 < maxResolutions == |now|
    ensures done && !incomplete ==> Collected(now, cs, p, objects, 0, |objects|)
  {
    CollectOne(rl, cs, p, objects, lo, hi, i);
    var inside := AskInside(cs, solver, p, objects[i]);
    if !inside {
      return false, false, rl;
    }
    now := rl + [objects[i]];
    if |now| == 1 {
      var always := AskAlwaysInside(cs, solver, p, objects[i]);
      if always {
        NowhereElse(cs, p, objects, i);
        CollectNone(now, cs, p, objects, if i < lo then i else lo, if i < lo then hi else hi + 1, 0, |objects|);
        return true, false, now;
      }
    } else if |now| == maxResolutions {
      return true, true, now;
    }
    return false, false, now;
  }

  method CollectDown(objects: seq<MemoryObject>, cs: seq<Expr>, solver: Solver, p: Expr, start: nat,
                     maxResolutions: nat)
    returns (done: bool, incomplete: bool, rl: seq<MemoryObject>)
    requires InOrder(objects) && IsPointer(p) && Satisfiable(cs) && Exact(solver) && start <= |objects|
    ensures exists lo, hi :: 0 <= lo <= hi <= |objects| && Collected(rl, cs, p, objects, lo, hi)
    ensures !done ==> Collected(rl, cs, p, objects, 0, start) && !incomplete
    ensures done && !incomplete ==> Collected(rl, cs, p, objects, 0, |objects|)
    ensures incomplete ==> 1 < maxResolutions == |rl|
  {
    var i := start;
    done, incomplete, rl := false, false, [];
    while i > 0
      invariant 0 <= i <= start && !done && !incomplete && Collected(rl, cs, p, objects, i, start)
    {
      i := i - 1;
      done, incomplete, rl := Record(objects, cs, solver, p, maxResolutions, rl, i, i + 1, start);
      if done {
        return;
      }
      var neverBelow := AskNeverBelow(cs, solver, p, objects[i]);
      if neverBelow {
        NothingBelow(cs, p, objects, i);
        CollectNone(rl, cs, p, objects, i, start, 0, start);
        return;
      }
    }
  }

  method CollectUp(objects: seq<MemoryObject>, cs: seq<Expr>, solver: Solver, p: Expr, start: nat, maxResolutions: nat,
                   found: seq<MemoryObject>)
    returns (incomplete: bool, rl: seq<MemoryObject>)
    requires InOrder(objects) && IsPointer(p) && Satisfiable(cs) && Exact(solver) && start <= |objects|
    requires Collected(found, cs, p, objects, 0, start)
    ensures exists lo, hi :: 0 <= lo <= hi <= |objects| && Collected(rl, cs, p, objects, lo, hi)
    ensures !incomplete ==> Collected(rl, cs, p, objects, 0, |objects|)
    ensures incomplete ==> 1 < maxResolutions == |rl|
  {
    incomplete, rl := false, found;
    for i := start to |objects|
      invariant !incomplete && Collected(rl, cs, p, objects, 0, i)
    {
      var below := AskAlwaysBelow(cs, solver, p, objects[i]);
      if below {
        NothingAbove(cs, p, objects, i);
        CollectNone(rl, cs, p, objects, 0, i, 0, |objects|);
        return;
      }
      var done;
      done, incomplete, rl := Record(objects, cs, solver, p, maxResolutions, rl, i, 0, i);
      if done {
        return;
      }
    }
  }
}
