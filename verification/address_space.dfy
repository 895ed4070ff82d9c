/** Address spaces share object states copy-on-write. Epoch numbers decide who may write an
    object in place; the claim is that any number of address spaces, under any sequence of
    forks, bindings, reads and writes, behave as if each had its own copy of everything. */
module AddressSpaces {
  import Bits
  import opened Exprs
  import opened Slices
  import opened ObjectLayers
  import opened ObjectStates
  import opened Constructors
  import opened Booleans

  datatype MemoryObject = MemoryObject(address: nat, size: nat)

  class AddressSpace {
    var cowKey: nat
    var objects: map<MemoryObject, ObjectState>

    constructor Empty()
      ensures cowKey == 1 && objects == map[]
    {
      cowKey, objects := 1, map[];
    }

    /** A fork shares every object; raising both epochs disowns them on both sides. */
    constructor Fork(b: AddressSpace)
      modifies b`cowKey
      ensures b.cowKey == cowKey == old(b.cowKey) + 1 && objects == b.objects
    {
      b.cowKey := b.cowKey + 1;
      cowKey, objects := b.cowKey, b.objects;
    }

    method BindObject(mo: MemoryObject, os: ObjectState)
      requires os.copyOnWriteOwner == 0 && os.Valid() && this !in os.Repr
      modifies this`objects, os`copyOnWriteOwner
      ensures os.copyOnWriteOwner == cowKey && objects == old(objects)[mo := os]
      ensures os.Valid() && forall a :: os.Bytes(a) == old(os.Bytes(a))
    {
      os.SetOwner(cowKey);
      objects := objects[mo := os];
    }

    method UnbindObject(mo: MemoryObject)
      modifies this`objects
      ensures objects == old(objects) - {mo}
    {
      objects := objects - {mo};
    }

    method FindObject(mo: MemoryObject) returns (os: ObjectState?)
      ensures os == if mo in objects then objects[mo] else null
    {
      os := if mo in objects then objects[mo] else null;
    }

    /** The object itself if this space owns it, and otherwise a copy bound in its place. */
    method GetWriteable(mo: MemoryObject, os: ObjectState) returns (w: ObjectState)
      requires mo in objects && objects[mo] == os && os.Valid() && !os.readOnly
      modifies this`objects
      ensures objects == old(objects)[mo := w] && w.copyOnWriteOwner == cowKey
      ensures w == os || (fresh(w) && fresh(w.Repr))
      ensures w == os <==> old(os.copyOnWriteOwner) == cowKey
      ensures w.Valid() && w.View() == old(os.View()) && w.size == os.size && !w.readOnly
    {
      if cowKey == os.copyOnWriteOwner {
        w := os;
        assert objects == objects[mo := w];
      } else {
        w := new ObjectState.Copy(os);
        w.SetOwner(cowKey);
        objects := objects[mo := w];
      }
    }
  }

  // --- Objects that have nothing in common --------------------------------------------------

  ghost predicate NothingShared(os: ObjectState, other: ObjectState)
    reads os, other
  {
    os.Repr !! other.Repr
  }

  /** Intact objects, no two of which share a buffer. */
  ghost predicate Separate(held: set<ObjectState>)
    reads *
  {
    && (forall os :: os in held ==> os.Valid())
    && (forall os, other {:trigger NothingShared(os, other)} ::
          os in held && other in held && os != other ==> NothingShared(os, other))
  }

  /** Nothing about the object changed except, perhaps, how it stores its bytes. */
  twostate predicate SameObject(os: ObjectState)
    reads *
  {
    && old(os.Valid()) && os.Valid() && os.readOnly == old(os.readOnly)
    && os.copyOnWriteOwner == old(os.copyOnWriteOwner)
    && forall a :: os.Bytes(a) == old(os.Bytes(a))
  }

  /** Objects nobody worked on are the same objects. */
  twostate lemma {:induction false} Unaffected(held: set<ObjectState>)
    requires old(Separate(held))
    requires forall os :: os in held ==> unchanged(os) && unchanged(old(os.Repr))
    ensures Separate(held) && forall os :: os in held ==> SameObject(os)
  {
  }

  /** One more object, apart from those there. */
  lemma {:induction false} OneMore(held: set<ObjectState>, os: ObjectState)
    requires Separate(held) && os.Valid() && forall other :: other in held - {os} ==> NothingShared(os, other)
    ensures Separate(held + {os})
  {
    forall x, y | x in held + {os} && y in held + {os} && x != y ensures NothingShared(x, y) {
      assert x != os ==> NothingShared(os, x);
      assert y != os ==> NothingShared(os, y);
    }
  }

  // --- The isolation invariant -------------------------------------------------------------

  /** A space binds intact objects of the right size, none from a later epoch than its own. */
  ghost predicate InEpoch(s: AddressSpace, held: set<ObjectState>)
    reads *
  {
    && (forall mo :: mo in s.objects ==>
          && s.objects[mo] in held && s.objects[mo].size == mo.size
          && 0 < s.objects[mo].copyOnWriteOwner <= s.cowKey)
    && (forall os :: os in held ==> s !in os.Repr)
    && 0 < s.cowKey
  }

  /** One object in two spaces belongs to neither; within a space it is bound once. */
  ghost predicate Disowned(s: AddressSpace, mo: MemoryObject, t: AddressSpace, no: MemoryObject)
    requires mo in s.objects && no in t.objects
    reads *
  {
    s.objects[mo] == t.objects[no] ==>
      mo == no && (s == t || (s.objects[mo].copyOnWriteOwner < s.cowKey && s.objects[mo].copyOnWriteOwner < t.cowKey))
  }

  /** Nothing is written in place that another space can see. */
  ghost predicate Unshared(spaces: seq<AddressSpace>)
    reads *
  {
    forall s, t, mo, no :: s in spaces && t in spaces && mo in s.objects && no in t.objects ==> Disowned(s, mo, t, no)
  }

  ghost predicate Isolated(spaces: seq<AddressSpace>, held: set<ObjectState>)
    reads *
  {
    && Separate(held)
    && (forall i, j :: 0 <= i < j < |spaces| ==> spaces[i] != spaces[j])
    && (forall s :: s in spaces ==> InEpoch(s, held))
    && Unshared(spaces)
  }

  /** No other binding holds the object. */
  ghost predicate Private(spaces: seq<AddressSpace>, s: AddressSpace, mo: MemoryObject)
    requires mo in s.objects
    reads *
  {
    forall t, no :: t in spaces && no in t.objects && t.objects[no] == s.objects[mo] ==> t == s && no == mo
  }

  /** What a space owns, no other space holds. */
  lemma {:induction false} OwnedIsPrivate(spaces: seq<AddressSpace>, held: set<ObjectState>, s: AddressSpace,
                                          mo: MemoryObject)
    requires Isolated(spaces, held) && s in spaces && mo in s.objects && s.objects[mo].copyOnWriteOwner == s.cowKey
    ensures Private(spaces, s, mo)
  {
    forall t, no | t in spaces && no in t.objects && t.objects[no] == s.objects[mo] ensures t == s && no == mo {
      assert Disowned(s, mo, t, no);
    }
  }

  method ForkSpace(spaces: seq<AddressSpace>, s: AddressSpace, ghost held: set<ObjectState>)
    returns (child: AddressSpace)
    requires Isolated(spaces, held) && s in spaces
    modifies s`cowKey
    ensures fresh(child) && Isolated(spaces + [child], held)
    ensures child.objects == s.objects && forall os :: os in held ==> SameObject(os)
  {
    hide ObjectState.Valid, NothingShared;
    child := new AddressSpace.Fork(s);
    forall t, u, mo, no | t in spaces + [child] && u in spaces + [child] && mo in t.objects && no in u.objects
      ensures Disowned(t, mo, u, no)
    {
      assert old(Disowned(if t == child then s else t, mo, if u == child then s else u, no));
    }
  }

  /** Binding aside, one step leaves every other binding of every space as it was. */
  twostate predicate Elsewhere(spaces: seq<AddressSpace>, s: AddressSpace, mo: MemoryObject)
    reads *
  {
    forall t, no :: t in spaces && !(t == s && no == mo) ==>
      (no in t.objects <==> no in old(t.objects))
      && (no in t.objects ==> t.objects[no] == old(t.objects[no]) && SameObject(t.objects[no]))
  }

  datatype Binding = Binding(spaces: seq<AddressSpace>, s: AddressSpace, mo: MemoryObject, ghost held: set<ObjectState>)

  /** Replacing one binding by an object no space holds keeps the spaces apart. */
  twostate lemma {:induction false} StillUnshared(b: Binding)
    requires old(Unshared(b.spaces)) && b.s in b.spaces && b.mo in b.s.objects
    requires forall t :: t in b.spaces ==> t.cowKey == old(t.cowKey) && (t != b.s ==> t.objects == old(t.objects))
    requires b.s.objects == old(b.s.objects)[b.mo := b.s.objects[b.mo]]
    requires forall t, no :: t in b.spaces && no in old(t.objects) ==>
               old(t.objects[no]) != b.s.objects[b.mo]
               && old(t.objects[no]).copyOnWriteOwner == old(t.objects[no].copyOnWriteOwner)
    ensures Unshared(b.spaces)
  {
    forall t, u, no, po | t in b.spaces && u in b.spaces && no in t.objects && po in u.objects
      ensures Disowned(t, no, u, po)
    {
      if !(t == b.s && no == b.mo) && !(u == b.s && po == b.mo) {
        assert old(Disowned(t, no, u, po));
      }
    }
  }

  twostate lemma {:induction false} StillInEpoch(b: Binding)
    requires b.s in b.spaces && b.mo in b.s.objects && forall t :: t in b.spaces ==> old(InEpoch(t, b.held))
    requires forall t :: t in b.spaces ==> t.cowKey == old(t.cowKey) && (t != b.s ==> t.objects == old(t.objects))
    requires b.s.objects == old(b.s.objects)[b.mo := b.s.objects[b.mo]]
    requires forall os :: os in b.held ==> os.Repr == old(os.Repr) && os.copyOnWriteOwner == old(os.copyOnWriteOwner)
    requires b.s.objects[b.mo].size == b.mo.size && 0 < b.s.objects[b.mo].copyOnWriteOwner == b.s.cowKey
    requires forall t :: t in b.spaces ==> t !in b.s.objects[b.mo].Repr
    ensures forall t :: t in b.spaces ==> InEpoch(t, b.held + {b.s.objects[b.mo]})
  {
  }

  twostate lemma {:induction false} ElsewhereKept(b: Binding)
    requires forall t :: t in b.spaces ==> (t != b.s ==> t.objects == old(t.objects))
    requires b.mo in b.s.objects && b.s.objects == old(b.s.objects)[b.mo := b.s.objects[b.mo]]
    requires forall t, no :: t in b.spaces && no in old(t.objects) ==> old(t.objects[no]) in b.held
    requires forall os :: os in b.held ==> SameObject(os)
    ensures Elsewhere(b.spaces, b.s, b.mo)
  {
  }

  /** The same with everything that isolation asks for. */
  twostate lemma {:induction false} StillIsolated(b: Binding)
    requires old(Isolated(b.spaces, b.held)) && b.s in b.spaces && b.mo in b.s.objects
    requires forall t :: t in b.spaces ==> t.cowKey == old(t.cowKey) && (t != b.s ==> t.objects == old(t.objects))
    requires b.s.objects == old(b.s.objects)[b.mo := b.s.objects[b.mo]]
    requires forall os :: os in b.held ==> unchanged(os) && unchanged(old(os.Repr))
    requires Joins(b, b.s.objects[b.mo])
    ensures Isolated(b.spaces, b.held + {b.s.objects[b.mo]}) && Elsewhere(b.spaces, b.s, b.mo)
  {
    var os := b.s.objects[b.mo];
    assert forall t, no :: t in b.spaces && no in old(t.objects) ==> old(t.objects[no]) in b.held;
    Unaffected(b.held);
    OneMore(b.held, os);
    StillUnshared(b);
    StillInEpoch(b);
    ElsewhereKept(b);
  }

  /** The object is intact, fits its place, is owned by the space and is apart from all others. */
  ghost predicate Joins(b: Binding, os: ObjectState)
    reads *
  {
    && os !in b.held && os.Valid() && os.size == b.mo.size && 0 < os.copyOnWriteOwner == b.s.cowKey
    && (forall other :: other in b.held ==> NothingShared(os, other))
    && (forall t :: t in b.spaces ==> t !in os.Repr)
  }

  method Bind(spaces: seq<AddressSpace>, s: AddressSpace, mo: MemoryObject, os: ObjectState,
              ghost held: set<ObjectState>)
    requires Isolated(spaces, held) && s in spaces
    requires os.Valid() && os.copyOnWriteOwner == 0 && os.size == mo.size && os !in held
    requires forall other :: other in held ==> NothingShared(os, other)
    requires forall t :: t in spaces ==> t !in os.Repr
    modifies s`objects, os`copyOnWriteOwner
    ensures Isolated(spaces, held + {os}) && Elsewhere(spaces, s, mo)
    ensures s.cowKey == old(s.cowKey) && s.objects == old(s.objects)[mo := os]
    ensures os.readOnly == old(os.readOnly) && os.Repr == old(os.Repr) && forall a :: os.Bytes(a) == old(os.Bytes(a))
  {
    s.BindObject(mo, os);
    StillIsolated(Binding(spaces, s, mo, held));
  }

  method Unbind(spaces: seq<AddressSpace>, s: AddressSpace, mo: MemoryObject, ghost held: set<ObjectState>)
    requires Isolated(spaces, held) && s in spaces
    modifies s`objects
    ensures Isolated(spaces, held) && Elsewhere(spaces, s, mo)
    ensures s.cowKey == old(s.cowKey) && s.objects == old(s.objects) - {mo}
  {
    s.UnbindObject(mo);
    Unaffected(held);
    FewerUnshared(spaces);
  }

  twostate lemma {:induction false} FewerUnshared(spaces: seq<AddressSpace>)
    requires old(Unshared(spaces))
    requires forall t :: t in spaces ==> t.cowKey == old(t.cowKey) && t.objects.Keys <= old(t.objects).Keys
    requires forall t, no :: t in spaces && no in t.objects ==>
               t.objects[no] == old(t.objects[no])
               && t.objects[no].copyOnWriteOwner == old(t.objects[no].copyOnWriteOwner)
    ensures Unshared(spaces)
  {
    forall t, u, no, po | t in spaces && u in spaces && no in t.objects && po in u.objects
      ensures Disowned(t, no, u, po)
    {
      assert old(Disowned(t, no, u, po));
    }
  }

  /** The object to write to, with the guarantee that no other binding sees it. */
  method Own(spaces: seq<AddressSpace>, s: AddressSpace, mo: MemoryObject, ghost held: set<ObjectState>)
    returns (w: ObjectState, ghost now: set<ObjectState>)
    requires Isolated(spaces, held) && s in spaces && mo in s.objects && !s.objects[mo].readOnly
    modifies s`objects
    ensures Isolated(spaces, now) && Elsewhere(spaces, s, mo) && held <= now && fresh(now - held)
    ensures s.cowKey == old(s.cowKey) && s.objects == old(s.objects)[mo := w] && w in now && now <= held + {w}
    ensures w == old(s.objects[mo]) || (fresh(w) && fresh(w.Repr))
    ensures w.Valid() && !w.readOnly && forall a :: w.Bytes(a) == old(s.objects[mo].Bytes(a))
    ensures Private(spaces, s, mo)
  {
    hide ObjectState.Valid, ObjectState.View;
    var os := s.FindObject(mo);
    w := s.GetWriteable(mo, os);
    if w == old(s.objects[mo]) {
      now := held;
      assert s.objects == old(s.objects);
      Unaffected(held);
      FewerUnshared(spaces);
      OwnedIsPrivate(spaces, held, s, mo);
    } else {
      now := held + {w};
      StillIsolated(Binding(spaces, s, mo, held));
    }
  }

  /** Working inside one object keeps the spaces isolated and the other objects as they are. */
  twostate lemma {:induction false} Touched(b: Binding)
    requires old(Isolated(b.spaces, b.held)) && b.s in b.spaces && b.mo in old(b.s.objects)
    requires forall t :: t in b.spaces ==> unchanged(t)
    requires forall os :: os in b.held && os != b.s.objects[b.mo] ==> unchanged(os) && unchanged(old(os.Repr))
    requires old(b.s.objects[b.mo].Allocated()) && b.s.objects[b.mo].Kept() && b.s.objects[b.mo].Valid()
    ensures Isolated(b.spaces, b.held)
    ensures forall os :: os in b.held && os != b.s.objects[b.mo] ==> SameObject(os)
  {
    var os := b.s.objects[b.mo];
    Unaffected(b.held - {os});
    forall other | other in b.held - {os} ensures NothingShared(os, other) {
      assert old(NothingShared(os, other)) && other.Repr == old(other.Repr);
    }
    OneMore(b.held - {os}, os);
    assert b.held - {os} + {os} == b.held;
    FewerUnshared(b.spaces);
  }

  method WriteInPlace(spaces: seq<AddressSpace>, s: AddressSpace, mo: MemoryObject, ghost held: set<ObjectState>,
                      offset: Expr, value: Expr, little: bool)
    requires Isolated(spaces, held) && s in spaces && mo in s.objects && !s.objects[mo].readOnly
    requires Writeable(mo, offset, value, little)
    modifies s.objects[mo].Repr
    ensures Isolated(spaces, held) && forall t :: t in spaces ==> unchanged(t)
    ensures forall os :: os in held && os != s.objects[mo] ==> SameObject(os) && os.Repr == old(os.Repr)
    ensures !s.objects[mo].readOnly && fresh(s.objects[mo].Repr - old(s.objects[mo].Repr))
    ensures forall a :: s.objects[mo].Bytes(a) == Written(old(s.objects[mo].Bytes(a)), offset, value, little, a)
  {
    assert forall os :: os in held && os != s.objects[mo] ==> NothingShared(s.objects[mo], os) && os in os.Repr;
    s.objects[mo].Write(offset, value, little);
    Touched(Binding(spaces, s, mo, held));
  }

  /** A read may flush the object's layers but changes no bytes. */
  method ReadInPlace(spaces: seq<AddressSpace>, s: AddressSpace, mo: MemoryObject, ghost held: set<ObjectState>,
                     offset: Expr, width: nat, little: bool)
    returns (r: Expr)
    requires Isolated(spaces, held) && s in spaces && mo in s.objects && Readable(mo, offset, width, little)
    modifies s.objects[mo].Repr
    ensures Isolated(spaces, held) && forall t :: t in spaces ==> unchanged(t)
    ensures forall os :: os in held ==> SameObject(os) && (os != s.objects[mo] ==> os.Repr == old(os.Repr))
    ensures fresh(s.objects[mo].Repr - old(s.objects[mo].Repr))
    ensures WellTyped(r) && Width(r) == width
    ensures forall a :: Bits.Trunc(Eval(offset, a), 32) + AccessSize(width) <= mo.size ==>
              Eval(r, a) == LoadWidth(old(s.objects[mo].Bytes(a)), Bits.Trunc(Eval(offset, a), 32), width, little)
  {
    assert forall os :: os in held && os != s.objects[mo] ==> NothingShared(s.objects[mo], os) && os in os.Repr;
    r := s.objects[mo].Read(offset, width, little);
    Touched(Binding(spaces, s, mo, held));
  }

  /** What the write operation accepts. */
  ghost predicate Writeable(mo: MemoryObject, offset: Expr, value: Expr, little: bool) {
    && WellTyped(offset) && WellTyped(value) && IsAccessWidth(Width(value))
    && AccessSize(Width(value)) <= Bits.Pow2(INDEX_BITS)
    && Accessible(mo.size, ZExtCreate(offset, INDEX_BITS), AccessSize(Width(value)), little)
  }

  ghost function Written(bytes: seq<nat>, offset: Expr, value: Expr, little: bool, a: Assignment): (r: seq<nat>) {
    StoreWidth(bytes, Bits.Trunc(Eval(offset, a), 32), Eval(value, a), Width(value), little)
  }

  // --- Value semantics -------------------------------------------------------------------------

  /** An object as a value: its bytes under each assignment. */
  datatype Image = Image(bytes: Assignment -> seq<nat>)

  function Zeros(size: nat): (bytes: seq<nat>) {
    seq(size, _ => 0)
  }

  function Initially(source: Array, size: nat, a: Assignment): (bytes: seq<nat>) {
    seq(size, i => if 0 <= i then InitialValue(source, i, a) else 0)
  }

  /** A memory as a value; copying it copies every object. */
  type Memory = map<MemoryObject, Image>

  datatype Op =
    | Fork(at: nat)
    | Drop(at: nat)
    | Allocate(at: nat, mo: MemoryObject, arrayId: nat, useConstantArrays: bool)
    | Symbolize(at: nat, mo: MemoryObject, arrayId: nat, source: Array)
    | Free(at: nat, mo: MemoryObject)
    | Write(at: nat, mo: MemoryObject, offset: Expr, value: Expr, little: bool)
    | Read(at: nat, mo: MemoryObject, offset: Expr, width: nat, little: bool)

  ghost predicate Enabled(ms: seq<Memory>, op: Op) {
    && op.at < |ms|
    && (op.Allocate? || op.Symbolize? ==> op.mo.size < 0x1_0000_0000)
    && (op.Symbolize? ==> RootFits(Some(op.source)))
    && (op.Write? ==> op.mo in ms[op.at] && Writeable(op.mo, op.offset, op.value, op.little))
    && (op.Read? ==> op.mo in ms[op.at] && Readable(op.mo, op.offset, op.width, op.little))
  }

  ghost predicate Readable(mo: MemoryObject, offset: Expr, width: nat, little: bool) {
    && WellTyped(offset) && IsAccessWidth(width) && AccessSize(width) <= Bits.Pow2(INDEX_BITS)
    && Accessible(mo.size, ZExtCreate(offset, INDEX_BITS), AccessSize(width), little)
  }

  /** What each operation means when every memory is a value of its own. */
  ghost function Step(ms: seq<Memory>, op: Op): (after: seq<Memory>)
    requires Enabled(ms, op)
  {
    var m := ms[op.at];
    match op
    case Fork(at) => ms + [m]
    case Drop(at) => ms[..at] + ms[at + 1..]
    case Allocate(at, mo, _, _) => ms[at := m[mo := Image(a => Zeros(mo.size))]]
    case Symbolize(at, mo, _, source) => ms[at := m[mo := Image(a => Initially(source, mo.size, a))]]
    case Free(at, mo) => ms[at := m - {mo}]
    case Write(at, mo, offset, value, little) =>
      ms[at := m[mo := Image(a => Written(m[mo].bytes(a), offset, value, little, a))]]
    case Read(_, _, _, _, _) => ms
  }

  /** What a read must answer. */
  ghost predicate Answers(ms: seq<Memory>, op: Op, r: Expr)
    requires Enabled(ms, op)
  {
    op.Read? ==>
      && WellTyped(r) && Width(r) == op.width
      && forall a :: var off := Bits.Trunc(Eval(op.offset, a), 32); var bytes := ms[op.at][op.mo].bytes(a);
                     off + AccessSize(op.width) <= |bytes| ==> Eval(r, a) == LoadWidth(bytes, off, op.width, op.little)
  }

  ghost predicate Depicts(os: ObjectState, image: Image)
    reads *
  {
    !os.readOnly && os.Valid() && forall a :: os.Bytes(a) == image.bytes(a)
  }

  ghost predicate Denotes(s: AddressSpace, m: Memory)
    reads *
  {
    s.objects.Keys == m.Keys && forall mo :: mo in m ==> Depicts(s.objects[mo], m[mo])
  }

  ghost predicate Refines(spaces: seq<AddressSpace>, held: set<ObjectState>, footprint: set<object>, ms: seq<Memory>)
    reads *
  {
    && Isolated(spaces, held) && (forall os :: os in held ==> os.Repr <= footprint)
    && |spaces| == |ms| && forall i :: 0 <= i < |spaces| ==> Denotes(spaces[i], ms[i])
  }

  method PerformFork(spaces: seq<AddressSpace>, op: Op, ghost held: set<ObjectState>, ghost footprint: set<object>,
                     ghost ms: seq<Memory>)
    returns (after: seq<AddressSpace>)
    requires Refines(spaces, held, footprint, ms) && Enabled(ms, op) && op.Fork?
    modifies spaces[op.at]
    ensures Refines(after, held, footprint, Step(ms, op)) && forall s :: s in after ==> s in spaces || fresh(s)
  {
    hide ObjectState.Valid, ObjectState.View;
    var child := ForkSpace(spaces, spaces[op.at], held);
    after := spaces + [child];
    StillDenoted(World(spaces, held, footprint, ms));
    forall os | os in held ensures os.Repr <= footprint {
      assert os.Repr == old(os.Repr);
    }
  }

  datatype Scene = Scene(spaces: seq<AddressSpace>, ms: seq<Memory>, at: nat, mo: MemoryObject)

  /** What a step leaves alone still depicts the same memories. */
  twostate lemma {:induction false} OthersDenote(c: Scene)
    requires c.at < |c.spaces| == |c.ms|
    requires forall i, j :: 0 <= i < j < |c.spaces| ==> c.spaces[i] != c.spaces[j]
    requires forall i :: 0 <= i < |c.spaces| ==> old(Denotes(c.spaces[i], c.ms[i]))
    requires Elsewhere(c.spaces, c.spaces[c.at], c.mo)
    ensures forall i :: 0 <= i < |c.spaces| && i != c.at ==> Denotes(c.spaces[i], c.ms[i])
    ensures forall no :: no != c.mo ==> (no in c.ms[c.at] <==> no in c.spaces[c.at].objects)
    ensures forall no :: no != c.mo && no in c.ms[c.at] ==> Depicts(c.spaces[c.at].objects[no], c.ms[c.at][no])
  {
  }

  /** One object now depicts a new image and everything else is as before. */
  lemma {:induction false} Redenotes(c: Scene, image: Image)
    requires c.at < |c.spaces| == |c.ms|
    requires forall i :: 0 <= i < |c.spaces| && i != c.at ==> Denotes(c.spaces[i], c.ms[i])
    requires forall no :: no != c.mo ==> (no in c.ms[c.at] <==> no in c.spaces[c.at].objects)
    requires forall no :: no != c.mo && no in c.ms[c.at] ==> Depicts(c.spaces[c.at].objects[no], c.ms[c.at][no])
    requires c.mo in c.spaces[c.at].objects && Depicts(c.spaces[c.at].objects[c.mo], image)
    ensures forall i :: 0 <= i < |c.spaces| ==> Denotes(c.spaces[i], c.ms[c.at := c.ms[c.at][c.mo := image]][i])
  {
    assert c.spaces[c.at].objects.Keys == c.ms[c.at][c.mo := image].Keys;
  }

  /** A new object that depicts what the operation asks for. */
  method NewObject(op: Op) returns (os: ObjectState)
    requires op.Allocate? || op.Symbolize?
    requires op.mo.size < 0x1_0000_0000 && (op.Symbolize? ==> RootFits(Some(op.source)))
    ensures os.Valid() && fresh(os.Repr) && fresh(os) && os.copyOnWriteOwner == 0 && os.size == op.mo.size
    ensures Depicts(os, Image(a => if op.Allocate? then Zeros(op.mo.size) else Initially(op.source, op.mo.size, a)))
  {
    if op.Allocate? {
      os := new ObjectState.Concrete(op.mo.size, op.arrayId, op.useConstantArrays);
    } else {
      os := new ObjectState.Symbolic(op.mo.size, op.arrayId, op.source);
    }
  }

  method PerformBind(spaces: seq<AddressSpace>, op: Op, os: ObjectState, ghost held: set<ObjectState>,
                     ghost footprint: set<object>, ghost ms: seq<Memory>)
    requires Refines(spaces, held, footprint, ms) && Enabled(ms, op) && (op.Allocate? || op.Symbolize?)
    requires os.Valid() && os.copyOnWriteOwner == 0 && os.size == op.mo.size && os !in held
    requires forall other :: other in held ==> NothingShared(os, other)
    requires forall t :: t in spaces ==> t !in os.Repr
    requires Depicts(os, Image(a => if op.Allocate? then Zeros(op.mo.size) else Initially(op.source, op.mo.size, a)))
    modifies spaces[op.at], os`copyOnWriteOwner
    ensures Refines(spaces, held + {os}, footprint + os.Repr, Step(ms, op))
  {
    hide ObjectState.Valid, ObjectState.View;
    Bind(spaces, spaces[op.at], op.mo, os, held);
    forall other | other in held + {os} ensures other.Repr <= footprint + os.Repr {
      assert other == os || (other in held && other.Repr == old(other.Repr));
    }
    OthersDenote(Scene(spaces, ms, op.at, op.mo));
    Redenotes(Scene(spaces, ms, op.at, op.mo), Step(ms, op)[op.at][op.mo]);
  }

  /** Replacing an object by one that depicts the same changes no memory. */
  twostate lemma {:induction false} SameDenoted(c: Scene)
    requires c.at < |c.spaces| == |c.ms|
    requires forall i, j :: 0 <= i < j < |c.spaces| ==> c.spaces[i] != c.spaces[j]
    requires forall i :: 0 <= i < |c.spaces| ==> old(Denotes(c.spaces[i], c.ms[i]))
    requires Elsewhere(c.spaces, c.spaces[c.at], c.mo) && c.mo in c.ms[c.at] && c.mo in c.spaces[c.at].objects
    requires Depicts(c.spaces[c.at].objects[c.mo], c.ms[c.at][c.mo])
    ensures forall i :: 0 <= i < |c.spaces| ==> Denotes(c.spaces[i], c.ms[i])
  {
    OthersDenote(c);
    assert c.spaces[c.at].objects.Keys == c.ms[c.at].Keys;
  }

  method PerformOwn(spaces: seq<AddressSpace>, op: Op, ghost held: set<ObjectState>, ghost footprint: set<object>,
                    ghost ms: seq<Memory>)
    returns (ghost now: set<ObjectState>, ghost wider: set<object>)
    requires Refines(spaces, held, footprint, ms) && Enabled(ms, op) && op.Write?
    modifies spaces[op.at]
    ensures Refines(spaces, now, wider, ms) && fresh(wider - footprint) && op.mo in spaces[op.at].objects
    ensures Private(spaces, spaces[op.at], op.mo)
  {
    hide ObjectState.Valid, ObjectState.View;
    var w: ObjectState;
    w, now := Own(spaces, spaces[op.at], op.mo, held);
    wider := footprint + w.Repr;
    forall os | os in now ensures os.Repr <= wider {
      assert os == w || (os in held && os.Repr == old(os.Repr));
    }
    assert Depicts(w, ms[op.at][op.mo]);
    SameDenoted(Scene(spaces, ms, op.at, op.mo));
  }

  method PerformWrite(spaces: seq<AddressSpace>, op: Op, ghost held: set<ObjectState>, ghost footprint: set<object>,
                      ghost ms: seq<Memory>)
    returns (ghost wider: set<object>)
    requires Refines(spaces, held, footprint, ms) && Enabled(ms, op) && op.Write? && op.mo in spaces[op.at].objects
    requires Private(spaces, spaces[op.at], op.mo)
    modifies footprint
    ensures Refines(spaces, held, wider, Step(ms, op)) && fresh(wider - footprint)
  {
    var os := spaces[op.at].objects[op.mo];
    assert spaces[op.at] in spaces && InEpoch(spaces[op.at], held);
    assert Denotes(spaces[op.at], ms[op.at]) && Depicts(os, ms[op.at][op.mo]);
    assert os in held;
    WriteInPlace(spaces, spaces[op.at], op.mo, held, op.offset, op.value, op.little);
    wider := footprint + os.Repr;
    forall other | other in held ensures other.Repr <= wider {
      assert other == os || other.Repr == old(other.Repr);
    }
    OthersDenote(Scene(spaces, ms, op.at, op.mo));
    Redenotes(Scene(spaces, ms, op.at, op.mo), Step(ms, op)[op.at][op.mo]);
  }

  /** What is bound in a space is held and depicts its image. */
  lemma {:induction false} HeldImage(spaces: seq<AddressSpace>, held: set<ObjectState>, ms: seq<Memory>, at: nat,
                                     mo: MemoryObject)
    requires Isolated(spaces, held) && at < |spaces| == |ms| && Denotes(spaces[at], ms[at]) && mo in ms[at]
    ensures spaces[at] in spaces && mo in spaces[at].objects && spaces[at].objects[mo] in held
    ensures spaces[at].objects[mo].size == mo.size && Depicts(spaces[at].objects[mo], ms[at][mo])
    ensures forall a :: |ms[at][mo].bytes(a)| == mo.size && spaces[at].objects[mo].Bytes(a) == ms[at][mo].bytes(a)
    ensures forall t, no :: t in spaces && no in t.objects ==> t.objects[no] in held
  {
    assert InEpoch(spaces[at], held);
  }

  lemma {:induction false} ReadAnswers(ms: seq<Memory>, op: Op, r: Expr)
    requires Enabled(ms, op) && op.Read? && WellTyped(r) && Width(r) == op.width
    requires forall a :: |ms[op.at][op.mo].bytes(a)| == op.mo.size
    requires forall a :: var off := Bits.Trunc(Eval(op.offset, a), 32);
               off + AccessSize(op.width) <= op.mo.size ==>
                 Eval(r, a) == LoadWidth(ms[op.at][op.mo].bytes(a), off, op.width, op.little)
    ensures Answers(ms, op, r)
  {
  }

  method PerformRead(spaces: seq<AddressSpace>, op: Op, ghost held: set<ObjectState>, ghost footprint: set<object>,
                     ghost ms: seq<Memory>)
    returns (r: Expr, ghost wider: set<object>)
    requires Refines(spaces, held, footprint, ms) && Enabled(ms, op) && op.Read?
    modifies footprint
    ensures Refines(spaces, held, wider, ms) && fresh(wider - footprint) && Answers(ms, op, r)
  {
    hide ObjectState.Valid, ObjectState.Bytes, LoadWidth, Isolated, Denotes, Answers;
    var s := spaces[op.at];
    HeldImage(spaces, held, ms, op.at, op.mo);
    assert forall t, no :: t in spaces && no in t.objects ==> t.objects[no] in held;
    r := ReadInPlace(spaces, s, op.mo, held, op.offset, op.width, op.little);
    wider := footprint + s.objects[op.mo].Repr;
    ReadAnswers(ms, op, r);
    StillDenoted(World(spaces, held, footprint, ms));
  }

  datatype World = World(spaces: seq<AddressSpace>, ghost held: set<ObjectState>, ghost footprint: set<object>,
                         ghost ms: seq<Memory>)

  twostate lemma {:induction false} StillDenoted(w: World)
    requires |w.spaces| == |w.ms| && forall i :: 0 <= i < |w.spaces| ==> old(Denotes(w.spaces[i], w.ms[i]))
    requires forall t :: t in w.spaces ==> t.objects == old(t.objects)
    requires forall t, mo :: t in w.spaces && mo in t.objects ==> SameObject(t.objects[mo])
    ensures forall i :: 0 <= i < |w.spaces| ==> Denotes(w.spaces[i], w.ms[i])
  {
  }

  /** Allocation disturbs nothing. */
  twostate lemma {:induction false} StillRefines(w: World)
    requires old(Refines(w.spaces, w.held, w.footprint, w.ms))
    requires forall t :: t in w.spaces ==> unchanged(t)
    requires forall os :: os in w.held ==> unchanged(os) && unchanged(old(os.Repr))
    ensures Refines(w.spaces, w.held, w.footprint, w.ms)
  {
    Unaffected(w.held);
    FewerUnshared(w.spaces);
    StillDenoted(w);
  }

  method PerformFree(spaces: seq<AddressSpace>, op: Op, ghost held: set<ObjectState>, ghost footprint: set<object>,
                     ghost ms: seq<Memory>)
    requires Refines(spaces, held, footprint, ms) && Enabled(ms, op) && op.Free?
    modifies spaces[op.at]
    ensures Refines(spaces, held, footprint, Step(ms, op))
  {
    Unbind(spaces, spaces[op.at], op.mo, held);
    OthersDenote(Scene(spaces, ms, op.at, op.mo));
    assert spaces[op.at].objects.Keys == (ms[op.at] - {op.mo}).Keys;
  }

  method PerformDrop(spaces: seq<AddressSpace>, op: Op, ghost held: set<ObjectState>, ghost footprint: set<object>,
                     ghost ms: seq<Memory>)
    returns (after: seq<AddressSpace>)
    requires Refines(spaces, held, footprint, ms) && Enabled(ms, op) && op.Drop?
    ensures Refines(after, held, footprint, Step(ms, op)) && forall s :: s in after ==> s in spaces
  {
    hide Denotes, Separate, InEpoch, Disowned;
    after := spaces[..op.at] + spaces[op.at + 1..];
    var left := ms[..op.at] + ms[op.at + 1..];
    forall i | 0 <= i < |after|
      ensures after[i] in spaces && Denotes(after[i], left[i])
      ensures forall j :: i < j < |after| ==> after[i] != after[j]
    {
      var k := if i < op.at then i else i + 1;
      assert after[i] == spaces[k] && left[i] == ms[k];
    }
  }

  method PerformAllocation(spaces: seq<AddressSpace>, op: Op, ghost held: set<ObjectState>,
                           ghost footprint: set<object>, ghost ms: seq<Memory>)
    returns (ghost now: set<ObjectState>, ghost wider: set<object>)
    requires Refines(spaces, held, footprint, ms) && Enabled(ms, op) && (op.Allocate? || op.Symbolize?)
    modifies spaces[op.at]
    ensures Refines(spaces, now, wider, Step(ms, op)) && fresh(wider - footprint)
  {
    var os := NewObject(op);
    StillRefines(World(spaces, held, footprint, ms));
    now, wider := held + {os}, footprint + os.Repr;
    PerformBind(spaces, op, os, held, footprint, ms);
  }

  method PerformStore(spaces: seq<AddressSpace>, op: Op, ghost held: set<ObjectState>, ghost footprint: set<object>,
                      ghost ms: seq<Memory>)
    returns (ghost now: set<ObjectState>, ghost wider: set<object>)
    requires Refines(spaces, held, footprint, ms) && Enabled(ms, op) && op.Write?
    modifies spaces[op.at], footprint
    ensures Refines(spaces, now, wider, Step(ms, op)) && fresh(wider - footprint)
  {
    hide ObjectState.Valid, ObjectState.View;
    now, wider := PerformOwn(spaces, op, held, footprint, ms);
    assert forall o :: o in wider ==> o in footprint || fresh(o);
    wider := PerformWrite(spaces, op, now, wider, ms);
  }

  /** One step of any kind refines the same step on memories that are values. */
  method Perform(spaces: seq<AddressSpace>, op: Op, ghost held: set<ObjectState>, ghost footprint: set<object>,
                 ghost ms: seq<Memory>)
    returns (after: seq<AddressSpace>, r: Expr, ghost now: set<ObjectState>, ghost wider: set<object>)
    requires Refines(spaces, held, footprint, ms) && Enabled(ms, op)
    modifies footprint, set s | s in spaces
    ensures Refines(after, now, wider, Step(ms, op)) && Answers(ms, op, r)
    ensures fresh(wider - footprint) && forall s :: s in after ==> s in spaces || fresh(s)
  {
    after, now, wider, r := spaces, held, footprint, Bool(false);
    var s := spaces[op.at];
    assert s in spaces;
    assert s in set t | t in spaces;
    match op
    case Fork(_) => after := PerformFork(spaces, op, held, footprint, ms);
    case Drop(_) => after := PerformDrop(spaces, op, held, footprint, ms);
    case Allocate(_, _, _, _) => now, wider := PerformAllocation(spaces, op, held, footprint, ms);
    case Symbolize(_, _, _, _) => now, wider := PerformAllocation(spaces, op, held, footprint, ms);
    case Free(_, _) => PerformFree(spaces, op, held, footprint, ms);
    case Write(_, _, _, _, _) => now, wider := PerformStore(spaces, op, held, footprint, ms);
    case Read(_, _, _, _, _) => r, wider := PerformRead(spaces, op, held, footprint, ms);
  }

  ghost predicate AllEnabled(ms: seq<Memory>, ops: seq<Op>)
    decreases |ops|
  {
    ops == [] || (Enabled(ms, ops[0]) && AllEnabled(Step(ms, ops[0]), ops[1..]))
  }

  ghost function Steps(ms: seq<Memory>, ops: seq<Op>): (after: seq<Memory>)
    requires AllEnabled(ms, ops)
    decreases |ops|
  {
    if ops == [] then ms else Steps(Step(ms, ops[0]), ops[1..])
  }

  ghost predicate AllAnswers(ms: seq<Memory>, ops: seq<Op>, rs: seq<Expr>)
    requires AllEnabled(ms, ops) && |rs| == |ops|
    decreases |ops|
  {
    ops == [] || (Answers(ms, ops[0], rs[0]) && AllAnswers(Step(ms, ops[0]), ops[1..], rs[1..]))
  }

  /** Whole runs: however the spaces fork, allocate, write and read, every read answers what
      the value-copied memories would, and so do the spaces left at the end. */
  method Run(spaces: seq<AddressSpace>, ops: seq<Op>, ghost held: set<ObjectState>, ghost footprint: set<object>,
             ghost ms: seq<Memory>)
    returns (after: seq<AddressSpace>, rs: seq<Expr>, ghost now: set<ObjectState>, ghost wider: set<object>)
    requires Refines(spaces, held, footprint, ms) && AllEnabled(ms, ops)
    modifies footprint, set s | s in spaces
    ensures Refines(after, now, wider, Steps(ms, ops))
    ensures |rs| == |ops| && AllAnswers(ms, ops, rs)
    ensures fresh(wider - footprint) && forall s :: s in after ==> s in spaces || fresh(s)
    decreases |ops|
  {
    if ops == [] {
      return spaces, [], held, footprint;
    }
    var r, rest;
    after, r, now, wider := Perform(spaces, ops[0], held, footprint, ms);
    assert forall o :: o in wider ==> o in footprint || fresh(o);
    after, rest, now, wider := Run(after, ops[1..], now, wider, Step(ms, ops[0]));
    rs := [r] + rest;
  }

  /** A run starts from one empty memory. */
  method Boot() returns (spaces: seq<AddressSpace>)
    ensures Refines(spaces, {}, {}, [map[]]) && fresh(spaces)
  {
    var s := new AddressSpace.Empty();
    spaces := [s];
  }

  /** A memory is what its own operations make it, whatever the others do. */
  lemma {:induction false} OnlyOwnOperations(ms: seq<Memory>, ops: seq<Op>, i: nat)
    requires i < |ms| && AllEnabled(ms, ops) && forall k :: 0 <= k < |ops| ==> !ops[k].Drop?
    requires forall k :: 0 <= k < |ops| && ops[k].at == i ==> ops[k].Fork? || ops[k].Read?
    ensures i < |Steps(ms, ops)| && Steps(ms, ops)[i] == ms[i]
    decreases |ops|
  {
    if ops != [] {
      var next := Step(ms, ops[0]);
      assert i < |next| && next[i] == ms[i];
      assert forall k :: 0 <= k < |ops[1..]| ==> ops[1..][k] == ops[k + 1];
      OnlyOwnOperations(next, ops[1..], i);
    }
  }
}
