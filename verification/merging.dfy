/** Merging two states at the same place in the program: what differs becomes a selection on
    which of the two paths an input belongs to. */
module Merging {
  import Bits
  import opened Exprs
  import opened AddressSpaces
  import opened Booleans
  import opened Constraints
  import opened Constructors
  import opened ObjectLayers
  import opened ObjectStates
  import Slices

  // --- Memory --------------------------------------------------------------------------------

  /** Images that agree on the bytes of every assignment. */
  ghost predicate SameImages(m: Memory, n: Memory) {
    m.Keys == n.Keys && forall mo, a :: mo in m ==> m[mo].bytes(a) == n[mo].bytes(a)
  }

  /** What the spaces stand for is only a matter of bytes. */
  lemma {:induction false} RefinesSame(spaces: seq<AddressSpace>, held: set<ObjectState>, footprint: set<object>,
                                       ms: seq<Memory>, ns: seq<Memory>)
    requires Refines(spaces, held, footprint, ms) && |ns| == |ms|
    requires forall i :: 0 <= i < |ms| ==> SameImages(ms[i], ns[i])
    ensures Refines(spaces, held, footprint, ns)
  {
    hide ObjectState.Valid, ObjectState.Bytes, Isolated;
    forall i | 0 <= i < |spaces| ensures Denotes(spaces[i], ns[i]) {
      assert Denotes(spaces[i], ms[i]);
    }
  }

  /** The first k bytes as in y where the input is not on A's path, all others as in x. */
  ghost function Mixed(x: Image, y: Image, inA: Expr, k: nat): (m: Image) {
    Image(a => MixedBytes(x.bytes(a), y.bytes(a), Holds(inA, a), k))
  }

  function MixedBytes(x: seq<nat>, y: seq<nat>, inA: bool, k: nat): (r: seq<nat>)
    ensures |r| == |x|
  {
    seq(|x|, j requires 0 <= j < |x| => if j < k && j < |y| && !inA then y[j] else x[j])
  }

  /** Merging byte k turns the mix of the first k bytes into that of k + 1. */
  lemma {:induction false} MixedStep(x: seq<nat>, y: seq<nat>, inA: bool, k: nat)
    requires k < |x| == |y|
    ensures MixedBytes(x, y, inA, k)[k] == x[k]
    ensures MixedBytes(x, y, inA, k)[k := if inA then x[k] else y[k]] == MixedBytes(x, y, inA, k + 1)
  {
  }

  // --- One byte ---------------------------------------------------------------------------------

  function At(i: nat): (e: Expr) {
    Constant(i, INDEX_BITS)
  }

  lemma {:induction false} ByteAccess(size: nat, i: nat)
    requires i < size <= Bits.Pow2(INDEX_BITS)
    ensures WellTyped(At(i)) && Slices.ZExtCreate(At(i), INDEX_BITS) == At(i)
    ensures Accessible(size, At(i), 1, true) && AccessSize(8) == 1 <= Bits.Pow2(INDEX_BITS)
  {
    Bits.Pow2Widths();
  }

  /** Accesses of one byte are plain indexing. */
  lemma {:induction false} OneByte(bytes: seq<nat>, i: nat, v: nat)
    requires i < |bytes| <= Bits.Pow2(32) && v < 0x100 && bytes[i] < 0x100
    ensures LoadWidth(bytes, i, 8, true) == bytes[i]
    ensures StoreWidth(bytes, i, v, 8, true) == bytes[i := v]
  {
    Bits.Pow2Widths();
    Bits.TruncWhole(v, 8);
    Bits.TruncWhole(i, 32);
  }

  /** The images of an object in two memories, of the object's size and made of bytes. */
  ghost predicate ByteImage(image: Image, size: nat) {
    forall a :: |image.bytes(a)| == size && forall i :: 0 <= i < size ==> image.bytes(a)[i] < 0x100
  }

  lemma {:induction false} ImagesFit(spaces: seq<AddressSpace>, held: set<ObjectState>, footprint: set<object>,
                                     ms: seq<Memory>, i: nat, mo: MemoryObject)
    requires Refines(spaces, held, footprint, ms) && i < |ms| && mo in ms[i]
    ensures ByteImage(ms[i][mo], mo.size) && mo.size <= Bits.Pow2(INDEX_BITS)
  {
    var os := spaces[i].objects[mo];
    assert InEpoch(spaces[i], held) && Depicts(os, ms[i][mo]);
    forall a ensures |ms[i][mo].bytes(a)| == mo.size
             ensures forall k :: 0 <= k < mo.size ==> ms[i][mo].bytes(a)[k] < 0x100 {
      BytesBounded(os.View(), a);
      assert ms[i][mo].bytes(a) == os.Bytes(a);
    }
  }

  /** Byte k of the image becomes a choice between two images' bytes. */
  ghost function Choice(x: Image, y: Image, inA: Expr, k: nat): (m: Image) {
    Image(a => if k < |x.bytes(a)| && k < |y.bytes(a)| && !Holds(inA, a) then x.bytes(a)[k := y.bytes(a)[k]]
               else x.bytes(a))
  }

  /** What the write of the selected byte means. */
  lemma {:induction false} ChoiceWritten(x: Image, y: Image, size: nat, inA: Expr, k: nat, av: Expr, bv: Expr,
                                         a: Assignment)
    requires ByteImage(x, size) && ByteImage(y, size) && k < size <= Bits.Pow2(INDEX_BITS) && IsBool(inA)
    requires WellTyped(av) && WellTyped(bv) && Width(av) == Width(bv) == 8
    requires Eval(av, a) == x.bytes(a)[k] && Eval(bv, a) == y.bytes(a)[k]
    ensures Written(x.bytes(a), At(k), SelectCreate(inA, av, bv), true, a) == Choice(x, y, inA, k).bytes(a)
  {
    Bits.Pow2Widths();
    SelectValue(inA, av, bv, a);
    EvalBound(SelectCreate(inA, av, bv), a);
    OneByte(x.bytes(a), k, Eval(SelectCreate(inA, av, bv), a));
    Bits.TruncWhole(k, 32);
  }

  /** Reads byte k of the object in both spaces and writes their selection to the first. */
  method MergeByte(spaces: seq<AddressSpace>, ia: nat, ib: nat, mo: MemoryObject, k: nat, inA: Expr,
                   ghost held: set<ObjectState>, ghost footprint: set<object>, ghost ms: seq<Memory>)
    returns (ghost now: set<ObjectState>, ghost wider: set<object>)
    requires Refines(spaces, held, footprint, ms) && ia < |ms| && ib < |ms| && ia != ib
    requires mo in ms[ia] && mo in ms[ib] && k < mo.size && IsBool(inA)
    modifies spaces[ia], footprint
    ensures Refines(spaces, now, wider, ms[ia := ms[ia][mo := Choice(ms[ia][mo], ms[ib][mo], inA, k)]])
    ensures fresh(wider - footprint)
  {
    hide Refines, Isolated;
    ImagesFit(spaces, held, footprint, ms, ia, mo);
    ImagesFit(spaces, held, footprint, ms, ib, mo);
    ByteAccess(mo.size, k);
    var opA, opB := Op.Read(ia, mo, At(k), 8, true), Op.Read(ib, mo, At(k), 8, true);
    var av, bv;
    av, wider := PerformRead(spaces, opA, held, footprint, ms);
    assert forall o :: o in wider ==> o in footprint || fresh(o);
    bv, wider := PerformRead(spaces, opB, held, wider, ms);
    assert forall o :: o in wider ==> o in footprint || fresh(o);
    ReadByte(ms, opA, av);
    ReadByte(ms, opB, bv);
    var opW := Op.Write(ia, mo, At(k), SelectCreate(inA, av, bv), true);
    now, wider := PerformStore(spaces, opW, held, wider, ms);
    assert forall o :: o in wider ==> o in footprint || fresh(o);
    ByteMerged(ms, opW, ib, inA, k, av, bv);
    RefinesSame(spaces, now, wider, Step(ms, opW), ms[ia := ms[ia][mo := Choice(ms[ia][mo], ms[ib][mo], inA, k)]]);
  }

  /** What the answer to a one-byte read says. */
  lemma {:induction false} ReadByte(ms: seq<Memory>, op: Op, r: Expr)
    requires op.Read? && op.at < |ms| && op.mo in ms[op.at] && op.width == 8 && op.little && Enabled(ms, op)
    requires op.offset.Constant? && op.offset == At(op.offset.value)
    requires op.offset.value < op.mo.size <= Bits.Pow2(INDEX_BITS)
    requires ByteImage(ms[op.at][op.mo], op.mo.size) && Answers(ms, op, r)
    ensures WellTyped(r) && Width(r) == 8
    ensures forall a :: Eval(r, a) == ms[op.at][op.mo].bytes(a)[op.offset.value]
  {
    Bits.Pow2Widths();
    forall a ensures Eval(r, a) == ms[op.at][op.mo].bytes(a)[op.offset.value] {
      Bits.TruncWhole(op.offset.value, 32);
      OneByte(ms[op.at][op.mo].bytes(a), op.offset.value, 0);
    }
  }

  lemma {:induction false} ByteMerged(ms: seq<Memory>, op: Op, ib: nat, inA: Expr, k: nat, av: Expr, bv: Expr)
    requires op.Write? && op.at < |ms| && op.mo in ms[op.at] && Enabled(ms, op) && op.offset == At(k) && op.little
    requires ib < |ms| && op.mo in ms[ib]
    requires ByteImage(ms[op.at][op.mo], op.mo.size) && ByteImage(ms[ib][op.mo], op.mo.size)
    requires k < op.mo.size <= Bits.Pow2(INDEX_BITS) && IsBool(inA)
    requires WellTyped(av) && WellTyped(bv) && Width(av) == Width(bv) == 8
    requires forall a :: Eval(av, a) == ms[op.at][op.mo].bytes(a)[k]
    requires forall a :: Eval(bv, a) == ms[ib][op.mo].bytes(a)[k]
    requires op.value == SelectCreate(inA, av, bv)
    ensures var ns := ms[op.at := ms[op.at][op.mo := Choice(ms[op.at][op.mo], ms[ib][op.mo], inA, k)]];
            |Step(ms, op)| == |ns| && forall i :: 0 <= i < |ns| ==> SameImages(Step(ms, op)[i], ns[i])
  {
    hide Written, Choice, Eval, Writeable;
    forall a ensures Written(ms[op.at][op.mo].bytes(a), op.offset, op.value, true, a)
                  == Choice(ms[op.at][op.mo], ms[ib][op.mo], inA, k).bytes(a) {
      ChoiceWritten(ms[op.at][op.mo], ms[ib][op.mo], op.mo.size, inA, k, av, bv, a);
    }
  }

  // --- Whole objects and memories ------------------------------------------------------------------

  lemma {:induction false} ChoiceMixes(ms: seq<Memory>, ia: nat, ib: nat, mo: MemoryObject, inA: Expr, k: nat)
    requires ia < |ms| && ib < |ms| && ia != ib && mo in ms[ia] && mo in ms[ib] && k < mo.size
    requires ByteImage(ms[ia][mo], mo.size) && ByteImage(ms[ib][mo], mo.size)
    ensures var (x, y) := (ms[ia][mo], ms[ib][mo]);
            var before := ms[ia := ms[ia][mo := Mixed(x, y, inA, k)]];
            var after := ms[ia := ms[ia][mo := Mixed(x, y, inA, k + 1)]];
            var chosen := before[ia := before[ia][mo := Choice(before[ia][mo], before[ib][mo], inA, k)]];
            |chosen| == |after| && forall i :: 0 <= i < |after| ==> SameImages(chosen[i], after[i])
  {
    hide Holds;
    var x, y := ms[ia][mo], ms[ib][mo];
    forall a ensures Choice(Mixed(x, y, inA, k), y, inA, k).bytes(a) == Mixed(x, y, inA, k + 1).bytes(a) {
      MixedStep(x.bytes(a), y.bytes(a), Holds(inA, a), k);
    }
  }

  lemma {:induction false} MixedNothing(ms: seq<Memory>, ia: nat, mo: MemoryObject, y: Image, inA: Expr)
    requires ia < |ms| && mo in ms[ia]
    ensures var ns := ms[ia := ms[ia][mo := Mixed(ms[ia][mo], y, inA, 0)]];
            |ns| == |ms| && forall i :: 0 <= i < |ms| ==> SameImages(ms[i], ns[i])
  {
    hide Holds;
    forall a ensures Mixed(ms[ia][mo], y, inA, 0).bytes(a) == ms[ia][mo].bytes(a) {
    }
  }

  /** Merges all bytes of one object. */
  method MergeObject(spaces: seq<AddressSpace>, ia: nat, ib: nat, mo: MemoryObject, inA: Expr,
                     ghost held: set<ObjectState>, ghost footprint: set<object>, ghost ms: seq<Memory>)
    returns (ghost now: set<ObjectState>, ghost wider: set<object>)
    requires Refines(spaces, held, footprint, ms) && ia < |ms| && ib < |ms| && ia != ib
    requires mo in ms[ia] && mo in ms[ib] && IsBool(inA)
    modifies spaces[ia], footprint
    ensures Refines(spaces, now, wider, ms[ia := ms[ia][mo := Mixed(ms[ia][mo], ms[ib][mo], inA, mo.size)]])
    ensures fresh(wider - footprint)
  {
    hide Refines, Mixed, Choice;
    ImagesFit(spaces, held, footprint, ms, ia, mo);
    ImagesFit(spaces, held, footprint, ms, ib, mo);
    ghost var x, y := ms[ia][mo], ms[ib][mo];
    MixedNothing(ms, ia, mo, y, inA);
    RefinesSame(spaces, held, footprint, ms, ms[ia := ms[ia][mo := Mixed(x, y, inA, 0)]]);
    now, wider := held, footprint;
    for k := 0 to mo.size
      invariant Refines(spaces, now, wider, ms[ia := ms[ia][mo := Mixed(x, y, inA, k)]])
      invariant fresh(wider - footprint)
    {
      assert forall o :: o in wider ==> o in footprint || fresh(o);
      ghost var before := ms[ia := ms[ia][mo := Mixed(x, y, inA, k)]];
      now, wider := MergeByte(spaces, ia, ib, mo, k, inA, now, wider, before);
      ChoiceMixes(ms, ia, ib, mo, inA, k);
      RefinesSame(spaces, now, wider, before[ia := before[ia][mo := Choice(before[ia][mo], before[ib][mo], inA, k)]],
                  ms[ia := ms[ia][mo := Mixed(x, y, inA, k + 1)]]);
    }
  }

  /** The memory after the given objects are merged. */
  ghost function MergedMemory(m: Memory, n: Memory, inA: Expr, done: set<MemoryObject>): (r: Memory) {
    map mo | mo in m :: if mo in done && mo in n then Mixed(m[mo], n[mo], inA, mo.size) else m[mo]
  }

  method MergeMemory(spaces: seq<AddressSpace>, ia: nat, ib: nat, mutated: set<MemoryObject>, inA: Expr,
                     ghost held: set<ObjectState>, ghost footprint: set<object>, ghost ms: seq<Memory>)
    returns (ghost now: set<ObjectState>, ghost wider: set<object>)
    requires Refines(spaces, held, footprint, ms) && ia < |ms| && ib < |ms| && ia != ib && IsBool(inA)
    requires forall mo :: mo in mutated ==> mo in ms[ia] && mo in ms[ib]
    modifies spaces[ia], footprint
    ensures Refines(spaces, now, wider, ms[ia := MergedMemory(ms[ia], ms[ib], inA, mutated)])
    ensures fresh(wider - footprint)
  {
    hide Refines, Mixed;
    now, wider := held, footprint;
    var todo := mutated;
    assert MergedMemory(ms[ia], ms[ib], inA, {}) == ms[ia];
    assert mutated - todo == {} && ms[ia := ms[ia]] == ms;
    while todo != {}
      invariant todo <= mutated && fresh(wider - footprint)
      invariant Refines(spaces, now, wider, ms[ia := MergedMemory(ms[ia], ms[ib], inA, mutated - todo)])
      decreases todo
    {
      assert forall o :: o in wider ==> o in footprint || fresh(o);
      var mo :| mo in todo;
      ghost var before := MergedMemory(ms[ia], ms[ib], inA, mutated - todo);
      now, wider := MergeObject(spaces, ia, ib, mo, inA, now, wider, ms[ia := before]);
      assert forall o :: o in wider ==> o in footprint || fresh(o);
      assert before[mo := Mixed(before[mo], ms[ib][mo], inA, mo.size)]
          == MergedMemory(ms[ia], ms[ib], inA, mutated - (todo - {mo}));
      assert ms[ia := before][ia := before[mo := Mixed(before[mo], ms[ib][mo], inA, mo.size)]]
          == ms[ia := MergedMemory(ms[ia], ms[ib], inA, mutated - (todo - {mo}))];
      todo := todo - {mo};
    }
    assert mutated - todo == mutated;
  }

  /** Every byte of the merged memory is A's on the inputs of A's path and B's on all others,
      provided that only mutated objects differ. */
  lemma {:induction false} MergedBytes(m: Memory, n: Memory, inA: Expr, mutated: set<MemoryObject>, mo: MemoryObject,
                                       a: Assignment)
    requires m.Keys == n.Keys && mo in m && ByteImage(m[mo], mo.size) && ByteImage(n[mo], mo.size)
    requires mo !in mutated ==> m[mo].bytes(a) == n[mo].bytes(a)
    ensures MergedMemory(m, n, inA, mutated)[mo].bytes(a) == if Holds(inA, a) then m[mo].bytes(a) else n[mo].bytes(a)
  {
    hide Holds;
  }

  // --- Path conditions ------------------------------------------------------------------------------

  /** A conjunction of the given conditions, in any order. */
  method Conjoin(es: set<Expr>) returns (e: Expr)
    requires forall x :: x in es ==> IsBool(x)
    ensures IsBool(e) && forall a :: Holds(e, a) <==> AllHold(es, a)
  {
    hide AndCreate, Holds;
    e := Bool(true);
    BoolHolds();
    var todo := es;
    while todo != {}
      invariant todo <= es && IsBool(e)
      invariant forall a :: Holds(e, a) <==> forall x :: x in es - todo ==> Holds(x, a)
      decreases todo
    {
      var x :| x in todo;
      forall a ensures Holds(AndCreate(e, x), a) <==> Holds(e, a) && Holds(x, a) {
        Connectives(e, x, a);
      }
      e := AndCreate(e, x);
      todo := todo - {x};
    }
  }

  lemma {:induction false} BoolHolds()
    ensures forall a :: Holds(Bool(true), a)
  {
  }

  ghost predicate AllHold(es: set<Expr>, a: Assignment) {
    forall x :: x in es ==> Holds(x, a)
  }

  function ToSet(cs: seq<Expr>): (es: set<Expr>) {
    set c | c in cs
  }

  /** A conjunction is the set of its conditions. */
  lemma {:induction false} SatisfiesAll(cs: seq<Expr>, a: Assignment)
    ensures Satisfies(cs, a) <==> AllHold(ToSet(cs), a)
  {
    hide Holds;
    if AllHold(ToSet(cs), a) {
      forall i | 0 <= i < |cs| ensures Holds(cs[i], a) {
        assert cs[i] in ToSet(cs);
      }
    }
  }

  /** The common conditions and one of the two remainders. */
  lemma {:induction false} EitherPath(ca: seq<Expr>, cb: seq<Expr>, inA: Expr, inB: Expr, a: Assignment)
    requires IsBool(inA) && IsBool(inB)
    requires Holds(inA, a) <==> AllHold(ToSet(ca) - ToSet(cb), a)
    requires Holds(inB, a) <==> AllHold(ToSet(cb) - ToSet(ca), a)
    ensures var common := ToSet(ca) * ToSet(cb);
            && (Satisfies(ca, a) <==> AllHold(common, a) && Holds(inA, a))
            && (Satisfies(cb, a) <==> AllHold(common, a) && Holds(inB, a))
            && (AllHold(common, a) && Holds(OrCreate(inA, inB), a) <==> Satisfies(ca, a) || Satisfies(cb, a))
  {
    hide Holds, OrCreate;
    SatisfiesAll(ca, a);
    SatisfiesAll(cb, a);
    Connectives(inA, inB, a);
  }

  /** The conditions and one more, added one by one to an empty path condition. */
  method RebuildConstraints(common: set<Expr>, last: Expr, rewriteEqualities: bool) returns (cs: seq<Expr>)
    requires (forall x :: x in common ==> IsBool(x)) && IsBool(last)
    requires exists a :: AllHold(common, a) && Holds(last, a)
    ensures AllBool(cs) && forall a :: Satisfies(cs, a) <==> AllHold(common, a) && Holds(last, a)
  {
    hide Holds;
    ghost var w :| AllHold(common, w) && Holds(last, w);
    var manager := new ConstraintManager([], rewriteEqualities);
    var todo := common;
    while todo != {}
      invariant todo <= common && manager.Valid() && fresh(manager)
      invariant forall a :: Satisfies(manager.constraints, a) <==> AllHold(common - todo, a)
      decreases todo
    {
      var x :| x in todo;
      AddOne(manager.constraints, x, w);
      var ok := manager.AddConstraint(x);
      assert common - (todo - {x}) == common - todo + {x};
      todo := todo - {x};
    }
    assert common - todo == common;
    AddOne(manager.constraints, last, w);
    var ok := manager.AddConstraint(last);
    cs := manager.constraints;
  }

  lemma {:induction false} AddOne(cs: seq<Expr>, x: Expr, w: Assignment)
    requires Satisfies(cs, w) && Holds(x, w)
    ensures Satisfiable(cs + [x])
  {
    SatisfiesPush(cs, x, w);
  }

  // --- Local variables --------------------------------------------------------------------------------

  /** A frame: who called it, which function it runs and its registers, some of them unset. */
  datatype StackFrame = StackFrame(caller: nat, kf: nat, locals: seq<Option<Expr>>)

  predicate SameShape(a: seq<StackFrame>, b: seq<StackFrame>) {
    |a| == |b| && forall i :: 0 <= i < |a| ==> a[i].caller == b[i].caller && a[i].kf == b[i].kf
  }

  /** Registers of one function: as many, and of the same types where both are set. */
  predicate Alike(a: StackFrame, b: StackFrame) {
    && |a.locals| == |b.locals|
    && forall i :: 0 <= i < |a.locals| && a.locals[i].Some? && b.locals[i].Some? ==>
         && WellTyped(a.locals[i].value) && WellTyped(b.locals[i].value)
         && Width(a.locals[i].value) == Width(b.locals[i].value)
  }

  /** A register bound in both has A's value on the inputs of A's path and B's on all
      others; any other register stays as it was. */
  ghost predicate MergedLocal(m: Option<Expr>, x: Option<Expr>, y: Option<Expr>, inA: Expr) {
    if x.Some? && y.Some? then
      && m.Some? && WellTyped(m.value) && Width(m.value) == Width(x.value)
      && forall a :: Eval(m.value, a) == if Holds(inA, a) then Eval(x.value, a) else Eval(y.value, a)
    else m == x
  }

  ghost predicate MergedFrame(m: StackFrame, x: StackFrame, y: StackFrame, inA: Expr)
    requires |x.locals| == |y.locals|
  {
    && m.caller == x.caller && m.kf == x.kf && |m.locals| == |x.locals|
    && forall i :: 0 <= i < |x.locals| ==> MergedLocal(m.locals[i], x.locals[i], y.locals[i], inA)
  }

  method MergeFrame(x: StackFrame, y: StackFrame, inA: Expr) returns (m: StackFrame)
    requires IsBool(inA) && Alike(x, y)
    ensures MergedFrame(m, x, y, inA)
  {
    hide Eval, SelectCreate;
    var locals := x.locals;
    for i := 0 to |x.locals|
      invariant |locals| == |x.locals| && forall j :: i <= j < |locals| ==> locals[j] == x.locals[j]
      invariant forall j :: 0 <= j < i ==> MergedLocal(locals[j], x.locals[j], y.locals[j], inA)
    {
      if x.locals[i].Some? && y.locals[i].Some? {
        var av, bv := x.locals[i].value, y.locals[i].value;
        forall a ensures Eval(SelectCreate(inA, av, bv), a) == if Holds(inA, a) then Eval(av, a) else Eval(bv, a) {
          SelectValue(inA, av, bv, a);
        }
        locals := locals[i := Some(SelectCreate(inA, av, bv))];
      }
    }
    m := x.(locals := locals);
  }

  // --- States ---------------------------------------------------------------------------------------------

  class ExecutionState {
    var pc: nat
    var stack: seq<StackFrame>
    var symbolics: seq<(MemoryObject, Array)>
    var addressSpace: AddressSpace
    var constraints: seq<Expr>

    constructor (pc: nat, stack: seq<StackFrame>, symbolics: seq<(MemoryObject, Array)>, addressSpace: AddressSpace,
                 constraints: seq<Expr>)
      ensures this.pc == pc && this.stack == stack && this.symbolics == symbolics
      ensures this.addressSpace == addressSpace && this.constraints == constraints
    {
      this.pc, this.stack, this.symbolics, this.addressSpace, this.constraints :=
        pc, stack, symbolics, addressSpace, constraints;
    }

    predicate Mergeable(b: ExecutionState)
      reads this, b, addressSpace, b.addressSpace
    {
      && pc == b.pc && symbolics == b.symbolics && SameShape(stack, b.stack)
      && addressSpace.objects.Keys == b.addressSpace.objects.Keys
    }

    /** The merged state's path is the union of the two. On the inputs of A's path it has A's
        registers and bytes and on those of B's path, when no input is on both, it has B's. */
    method Merge(b: ExecutionState, rewriteEqualities: bool, spaces: seq<AddressSpace>, ia: nat, ib: nat,
                 ghost held: set<ObjectState>, ghost footprint: set<object>, ghost ms: seq<Memory>)
      returns (ok: bool, ghost merged: Memory, ghost now: set<ObjectState>, ghost wider: set<object>)
      requires Refines(spaces, held, footprint, ms) && ia < |ms| && ib < |ms| && ia != ib
      requires spaces[ia] == addressSpace && spaces[ib] == b.addressSpace && this !in footprint && b !in footprint
      requires AllBool(constraints) && AllBool(b.constraints) && Satisfiable(constraints)
      requires SameShape(stack, b.stack) ==> forall i :: 0 <= i < |stack| ==> Alike(stack[i], b.stack[i])
      modifies this`stack, this`constraints, spaces[ia], footprint
      ensures ok == old(Mergeable(b))
      ensures !ok ==> unchanged(this) && merged == ms[ia]
      ensures Refines(spaces, now, wider, ms[ia := merged]) && fresh(wider - footprint)
      ensures ok ==> AllBool(constraints) && UnionOf(constraints, old(constraints), old(b.constraints))
      ensures ok ==> merged.Keys == ms[ia].Keys == ms[ib].Keys
      ensures ok ==> |stack| == |old(stack)| == |b.stack|
      ensures ok ==> forall a :: Satisfies(old(constraints), a) ==>
                BytesAs(merged, ms[ia], a) && LocalsAs(stack, old(stack), old(b.stack), a)
      ensures ok ==> forall a :: Satisfies(old(b.constraints), a) && !Satisfies(old(constraints), a) ==>
                BytesAs(merged, ms[ib], a) && LocalsAs(stack, old(b.stack), old(stack), a)
    {
      hide Refines, Satisfies, Eval, Holds, Mixed, BytesAs, LocalsAs, UnionOf, SameShape;
      merged, now, wider := ms[ia], held, footprint;
      if !Mergeable(b) {
        assert ms[ia := ms[ia]] == ms;
        return false, merged, now, wider;
      }
      var inA, cs := MergeConditions(constraints, b.constraints, rewriteEqualities);
      var newStack := MergeStack(stack, b.stack, inA);
      stack, constraints := newStack, cs;
      StillThere(World(spaces, held, footprint, ms));
      merged, now, wider := MergeSpaces(spaces, ia, ib, inA, held, footprint, ms);
      ok := true;
    }

    /** Giving the state new registers and constraints does not touch any memory. */
    twostate lemma {:induction false} StillThere(w: World)
      requires old(Refines(w.spaces, w.held, w.footprint, w.ms)) && this !in w.footprint
      requires forall t :: t in w.spaces ==> unchanged(t)
      requires forall o :: o in w.footprint ==> old(allocated(o)) && unchanged(o)
      ensures Refines(w.spaces, w.held, w.footprint, w.ms)
    {
      forall os | os in w.held ensures unchanged(os) && unchanged(old(os.Repr)) {
        assert os in old(os.Repr) && old(os.Repr) <= w.footprint;
      }
      StillRefines(w);
    }
  }

  /** The first space's memory becomes a mix of both, by the path an input is on. */
  method MergeSpaces(spaces: seq<AddressSpace>, ia: nat, ib: nat, inA: Expr, ghost held: set<ObjectState>,
                     ghost footprint: set<object>, ghost ms: seq<Memory>)
    returns (ghost merged: Memory, ghost now: set<ObjectState>, ghost wider: set<object>)
    requires Refines(spaces, held, footprint, ms) && ia < |spaces| == |ms| && ib < |ms| && ia != ib && IsBool(inA)
    requires spaces[ia].objects.Keys == spaces[ib].objects.Keys
    modifies spaces[ia], footprint
    ensures Refines(spaces, now, wider, ms[ia := merged]) && fresh(wider - footprint)
    ensures merged.Keys == ms[ia].Keys == ms[ib].Keys
    ensures forall a :: BytesAs(merged, if Holds(inA, a) then ms[ia] else ms[ib], a)
  {
    hide Refines, Eval, Holds, Mixed, MergedMemory, BytesAs, ByteImage;
    SameKeys(spaces, held, footprint, ms, ia, ib);
    var a, b := spaces[ia].objects, spaces[ib].objects;
    var mutated := set mo | mo in a && a[mo] != b[mo];
    Unmutated(spaces, held, footprint, ms, ia, ib, mutated);
    now, wider := MergeMemory(spaces, ia, ib, mutated, inA, held, footprint, ms);
    merged := MergedMemory(ms[ia], ms[ib], inA, mutated);
    MemoryMerged(ms[ia], ms[ib], inA, mutated);
  }

  /** Which path an input is on, and the condition of both paths together. */
  method MergeConditions(ca: seq<Expr>, cb: seq<Expr>, rewriteEqualities: bool) returns (inA: Expr, cs: seq<Expr>)
    requires AllBool(ca) && AllBool(cb) && Satisfiable(ca)
    ensures IsBool(inA) && AllBool(cs) && UnionOf(cs, ca, cb)
    ensures forall a :: Satisfies(ca, a) ==> Holds(inA, a)
    ensures forall a :: Satisfies(cb, a) && !Satisfies(ca, a) ==> !Holds(inA, a)
  {
    hide Satisfies, Holds, AllHold;
    var common := ToSet(ca) * ToSet(cb);
    assert ToSet(ca) - common == ToSet(ca) - ToSet(cb) && ToSet(cb) - common == ToSet(cb) - ToSet(ca);
    inA := Conjoin(ToSet(ca) - common);
    var inB := Conjoin(ToSet(cb) - common);
    forall a
      ensures Satisfies(ca, a) <==> AllHold(common, a) && Holds(inA, a)
      ensures Satisfies(cb, a) <==> AllHold(common, a) && Holds(inB, a)
      ensures AllHold(common, a) && Holds(OrCreate(inA, inB), a) <==> Satisfies(ca, a) || Satisfies(cb, a)
    {
      EitherPath(ca, cb, inA, inB, a);
    }
    cs := RebuildConstraints(common, OrCreate(inA, inB), rewriteEqualities);
  }

  method MergeStack(x: seq<StackFrame>, y: seq<StackFrame>, inA: Expr) returns (m: seq<StackFrame>)
    requires IsBool(inA) && SameShape(x, y) && forall i :: 0 <= i < |x| ==> Alike(x[i], y[i])
    ensures |m| == |x| == |y|
    ensures forall a :: if Holds(inA, a) then LocalsAs(m, x, y, a) else LocalsAs(m, y, x, a)
  {
    hide Eval, Holds;
    m := x;
    for i := 0 to |x|
      invariant |m| == |x| && forall j :: i <= j < |x| ==> m[j] == x[j]
      invariant forall j :: 0 <= j < i ==> MergedFrame(m[j], x[j], y[j], inA)
    {
      var f := MergeFrame(x[i], y[i], inA);
      m := m[i := f];
    }
  }

  lemma {:induction false} MemoryMerged(m: Memory, n: Memory, inA: Expr, mutated: set<MemoryObject>)
    requires m.Keys == n.Keys && forall mo :: mo in m ==> ByteImage(m[mo], mo.size) && ByteImage(n[mo], mo.size)
    requires forall mo, a :: mo in m && mo in n && mo !in mutated ==> m[mo].bytes(a) == n[mo].bytes(a)
    ensures MergedMemory(m, n, inA, mutated).Keys == m.Keys
    ensures forall a :: BytesAs(MergedMemory(m, n, inA, mutated), if Holds(inA, a) then m else n, a)
  {
    hide Holds;
    forall a, mo | mo in m
      ensures MergedMemory(m, n, inA, mutated)[mo].bytes(a) == (if Holds(inA, a) then m else n)[mo].bytes(a)
    {
      MergedBytes(m, n, inA, mutated, mo, a);
    }
  }

  ghost predicate UnionOf(c: seq<Expr>, ca: seq<Expr>, cb: seq<Expr>) {
    forall a :: Satisfies(c, a) <==> Satisfies(ca, a) || Satisfies(cb, a)
  }

  ghost predicate BytesAs(m: Memory, n: Memory, a: Assignment) {
    forall mo :: mo in m && mo in n ==> m[mo].bytes(a) == n[mo].bytes(a)
  }

  /** The registers that are set in both x and y have in m the values they have in x. */
  ghost predicate LocalsAs(m: seq<StackFrame>, x: seq<StackFrame>, y: seq<StackFrame>, a: Assignment) {
    forall i, j ::
      0 <= i < |m| && i < |x| && i < |y| && 0 <= j < |m[i].locals| && j < |x[i].locals| && j < |y[i].locals| ==>
      x[i].locals[j].Some? && y[i].locals[j].Some? ==>
      m[i].locals[j].Some? && Eval(m[i].locals[j].value, a) == Eval(x[i].locals[j].value, a)
  }

  lemma {:induction false} SameKeys(spaces: seq<AddressSpace>, held: set<ObjectState>, footprint: set<object>,
                                    ms: seq<Memory>, ia: nat, ib: nat)
    requires Refines(spaces, held, footprint, ms) && ia < |ms| && ib < |ms| && ia != ib
    ensures |spaces| == |ms| && spaces[ia] != spaces[ib]
    ensures spaces[ia].objects.Keys == ms[ia].Keys && spaces[ib].objects.Keys == ms[ib].Keys
    ensures forall mo :: mo in ms[ia] ==> ByteImage(ms[ia][mo], mo.size)
    ensures forall mo :: mo in ms[ib] ==> ByteImage(ms[ib][mo], mo.size)
  {
    forall mo | mo in ms[ia] ensures ByteImage(ms[ia][mo], mo.size) {
      ImagesFit(spaces, held, footprint, ms, ia, mo);
    }
    forall mo | mo in ms[ib] ensures ByteImage(ms[ib][mo], mo.size) {
      ImagesFit(spaces, held, footprint, ms, ib, mo);
    }
  }

  /** Objects the two spaces share have the same bytes in both. */
  lemma {:induction false} Unmutated(spaces: seq<AddressSpace>, held: set<ObjectState>, footprint: set<object>,
                                     ms: seq<Memory>, ia: nat, ib: nat, mutated: set<MemoryObject>)
    requires Refines(spaces, held, footprint, ms) && ia < |ms| && ib < |ms|
    requires forall mo :: mo in spaces[ia].objects && mo in spaces[ib].objects && mo !in mutated ==>
               spaces[ia].objects[mo] == spaces[ib].objects[mo]
    ensures forall mo, a :: mo in ms[ia] && mo in ms[ib] && mo !in mutated ==>
              ms[ia][mo].bytes(a) == ms[ib][mo].bytes(a)
  {
    forall mo, a | mo in ms[ia] && mo in ms[ib] && mo !in mutated ensures ms[ia][mo].bytes(a) == ms[ib][mo].bytes(a) {
      assert Depicts(spaces[ia].objects[mo], ms[ia][mo]) && Depicts(spaces[ib].objects[mo], ms[ib][mo]);
    }
  }
}
