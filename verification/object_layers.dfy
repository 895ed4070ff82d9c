/** The three overlapping layers that hold the bytes of one memory object, as a value:
    concrete bytes, known symbolic bytes and an update list over an array. Together they
    behave as one plain byte array; the operations below are what the object's methods do
    to the layers. */
module ObjectLayers {
  import Bits
  import BitLaws
  import opened Exprs
  import opened Slices
  import opened LinearForms
  import opened Constructors
  import opened ByteOrder

  /** The cached state of one byte. An unflushed byte is newer than the update list. */
  datatype Cell = Cell(concrete: bool, store: nat, known: Option<Expr>, unflushed: bool)

  /** `root` is absent until a constant array is needed. */
  datatype Layers = Layers(cells: seq<Cell>, root: Option<Array>, updates: Updates)

  const INDEX_BITS := 32
  const BYTE_BITS := 8

  function Index(i: nat): (e: Expr) {
    Constant(i, INDEX_BITS)
  }

  function Byte(v: nat): (e: Expr) {
    Constant(v, BYTE_BITS)
  }

  predicate IsByte(e: Expr) {
    WellTyped(e) && Width(e) == BYTE_BITS
  }

  predicate IsIndex(e: Expr) {
    WellTyped(e) && Width(e) == INDEX_BITS
  }

  /** Well-typed updates whose constant indices lie inside the object. */
  predicate UpdatesFit(u: Updates, size: nat) {
    u.Update? ==>
      && UpdatesFit(u.next, size)
      && IsIndex(u.index) && IsByte(u.value)
      && (u.index.Constant? ==> u.index.value < size)
  }

  predicate RootFits(root: Option<Array>) {
    root.Some? ==> root.value.Valid() && root.value.domain == INDEX_BITS && root.value.range == BYTE_BITS
  }

  predicate CellFits(c: Cell) {
    c.store < 0x100 && (c.known.Some? ==> IsByte(c.known.value))
  }

  /** Everything is well typed. */
  predicate Shaped(m: Layers) {
    && |m.cells| <= Bits.Pow2(INDEX_BITS)
    && RootFits(m.root) && UpdatesFit(m.updates, |m.cells|)
    && forall i :: 0 <= i < |m.cells| ==> CellFits(m.cells[i])
  }

  /** What the update list says about byte i; without an array the bytes start as zero. */
  function FlushedByte(root: Option<Array>, u: Updates, i: nat, a: Assignment): (v: nat)
    decreases u
  {
    match u
    case NoUpdate => if root.Some? then InitialValue(root.value, i, a) else 0
    case Update(next, index, value) =>
      if Eval(index, a) == i then Eval(value, a) else FlushedByte(root, next, i, a)
  }

  /** The byte itself: the newest layer that has it wins. */
  function ByteAt(m: Layers, i: nat, a: Assignment): (v: nat)
    requires i < |m.cells|
  {
    var c := m.cells[i];
    if c.concrete then c.store
    else if c.known.Some? then Eval(c.known.value, a)
    else FlushedByte(m.root, m.updates, i, a)
  }

  /** The object as a plain byte array. */
  function Contents(m: Layers, a: Assignment): (bytes: seq<nat>) {
    seq(|m.cells|, i requires 0 <= i < |m.cells| => ByteAt(m, i, a))
  }

  // --- The cache invariant --------------------------------------------------------------

  /** A byte is not both concrete and known symbolic, an unflushed byte has a cached value,
      and a flushed byte that still has one agrees with the update list. */
  ghost predicate Coherent(m: Layers, i: nat)
    requires i < |m.cells|
  {
    var c := m.cells[i];
    && !(c.concrete && c.known.Some?)
    && (c.unflushed ==> c.concrete || c.known.Some?)
    && (!c.unflushed ==> forall a :: FlushedByte(m.root, m.updates, i, a) == ByteAt(m, i, a))
  }

  ghost predicate Valid(m: Layers) {
    Shaped(m) && forall i :: 0 <= i < |m.cells| ==> Coherent(m, i)
  }

  /** The two objects hold the same bytes under every assignment. */
  ghost predicate SameBytes(m: Layers, n: Layers) {
    |m.cells| == |n.cells| && forall i, a :: 0 <= i < |m.cells| ==> ByteAt(m, i, a) == ByteAt(n, i, a)
  }

  lemma {:induction false} SameContents(m: Layers, n: Layers, a: Assignment)
    requires SameBytes(m, n)
    ensures Contents(m, a) == Contents(n, a)
  {
  }

  lemma {:induction false} BytesBounded(m: Layers, a: Assignment)
    requires Valid(m)
    ensures |Contents(m, a)| == |m.cells| && forall i :: 0 <= i < |m.cells| ==> Contents(m, a)[i] < 0x100
  {
    forall i | 0 <= i < |m.cells| ensures ByteAt(m, i, a) < 0x100 {
      Bits.Pow2Widths();
      FlushedBounded(m.root, m.updates, |m.cells|, i, a);
      if m.cells[i].known.Some? {
        EvalBound(m.cells[i].known.value, a);
      }
    }
  }

  lemma {:induction false} FlushedBounded(root: Option<Array>, u: Updates, size: nat, i: nat, a: Assignment)
    requires RootFits(root) && UpdatesFit(u, size)
    ensures FlushedByte(root, u, i, a) < Bits.Pow2(BYTE_BITS)
    decreases u
  {
    match u
    case NoUpdate =>
    case Update(next, _, value) => EvalBound(value, a); FlushedBounded(root, next, size, i, a);
  }

  // --- Operations -------------------------------------------------------------------------

  /** write8 of a concrete byte. */
  function WriteConcrete(m: Layers, i: nat, v: nat): (n: Layers)
    requires i < |m.cells|
  {
    m.(cells := m.cells[i := Cell(true, v, None, true)])
  }

  /** write8 of a symbolic byte. */
  function WriteKnown(m: Layers, i: nat, e: Expr): (n: Layers)
    requires i < |m.cells|
  {
    m.(cells := m.cells[i := Cell(false, m.cells[i].store, Some(e), true)])
  }

  /** The cached value of an unflushed byte. */
  function Cached(c: Cell): (e: Expr)
    requires c.concrete || c.known.Some?
  {
    if c.concrete then Byte(c.store) else c.known.value
  }

  /** Brings byte i into the update list and keeps its cached value. */
  function FlushForRead(m: Layers, i: nat): (n: Layers)
    requires i < |m.cells| && (m.cells[i].unflushed ==> m.cells[i].concrete || m.cells[i].known.Some?)
  {
    if m.cells[i].unflushed then
      m.(cells := m.cells[i := m.cells[i].(unflushed := false)],
         updates := Update(m.updates, Index(i), Cached(m.cells[i])))
    else m
  }

  /** Brings byte i into the update list and forgets its cached value. */
  function FlushForWrite(m: Layers, i: nat): (n: Layers)
    requires i < |m.cells| && (m.cells[i].unflushed ==> m.cells[i].concrete || m.cells[i].known.Some?)
  {
    var f := FlushForRead(m, i);
    f.(cells := f.cells[i := f.cells[i].(concrete := false, known := None)])
  }

  /** The byte is neither cached nor newer than the update list. */
  predicate Uncached(m: Layers, i: nat)
    requires i < |m.cells|
  {
    !m.cells[i].concrete && m.cells[i].known.None? && !m.cells[i].unflushed
  }

  /** A write at a symbolic index. */
  function Extend(m: Layers, index: Expr, value: Expr): (n: Layers) {
    m.(updates := Update(m.updates, index, value))
  }

  // --- They implement a byte array ----------------------------------------------------------

  lemma {:induction false} WriteConcreteCorrect(m: Layers, i: nat, v: nat)
    requires Valid(m) && i < |m.cells| && v < 0x100
    ensures Valid(WriteConcrete(m, i, v))
    ensures forall a :: Contents(WriteConcrete(m, i, v), a) == Contents(m, a)[i := v]
  {
    var n := WriteConcrete(m, i, v);
    forall j | 0 <= j < |n.cells| ensures Coherent(n, j) {
      OtherByteCoherent(m, n, i, j);
    }
  }

  lemma {:induction false} WriteKnownCorrect(m: Layers, i: nat, e: Expr)
    requires Valid(m) && i < |m.cells| && IsByte(e)
    ensures Valid(WriteKnown(m, i, e))
    ensures forall a :: Contents(WriteKnown(m, i, e), a) == Contents(m, a)[i := Eval(e, a)]
  {
    var n := WriteKnown(m, i, e);
    forall j | 0 <= j < |n.cells| ensures Coherent(n, j) {
      OtherByteCoherent(m, n, i, j);
    }
  }

  /** Replacing one cell by an unflushed one keeps every byte coherent. */
  lemma {:induction false} OtherByteCoherent(m: Layers, n: Layers, i: nat, j: nat)
    requires Valid(m) && i < |m.cells| && j < |m.cells|
    requires |n.cells| == |m.cells| && n == m.(cells := m.cells[i := n.cells[i]])
    requires n.cells[i].unflushed && n.cells[i].concrete == n.cells[i].known.None?
    ensures Coherent(n, j)
  {
    assert Coherent(m, j);
    if j != i && !n.cells[j].unflushed {
      forall a ensures FlushedByte(n.root, n.updates, j, a) == ByteAt(n, j, a) {
        assert ByteAt(n, j, a) == ByteAt(m, j, a);
      }
    }
  }

  lemma {:induction false} FlushForReadCorrect(m: Layers, i: nat)
    requires Valid(m) && i < |m.cells|
    ensures Coherent(m, i)
    ensures Valid(FlushForRead(m, i)) && SameBytes(FlushForRead(m, i), m)
    ensures !FlushForRead(m, i).cells[i].unflushed
  {
    assert Coherent(m, i) && CellFits(m.cells[i]);
    var n := FlushForRead(m, i);
    if m.cells[i].unflushed {
      Bits.Pow2Widths();
      forall j, a | 0 <= j < |m.cells|
        ensures FlushedByte(n.root, n.updates, j, a)
             == if j == i then ByteAt(m, i, a) else FlushedByte(m.root, m.updates, j, a)
        ensures ByteAt(n, j, a) == ByteAt(m, j, a)
      {
        assert Coherent(m, j);
      }
      forall j | 0 <= j < |n.cells| ensures Coherent(n, j) {
        assert Coherent(m, j);
      }
    }
  }

  lemma {:induction false} FlushForWriteCorrect(m: Layers, i: nat)
    requires Valid(m) && i < |m.cells|
    ensures Coherent(m, i)
    ensures Valid(FlushForWrite(m, i)) && SameBytes(FlushForWrite(m, i), m)
    ensures Uncached(FlushForWrite(m, i), i)
    ensures forall j {:trigger Uncached(FlushForWrite(m, i), j)} ::
              0 <= j < |m.cells| && Uncached(m, j) ==> Uncached(FlushForWrite(m, i), j)
  {
    FlushForReadCorrect(m, i);
    var f := FlushForRead(m, i);
    var n := FlushForWrite(m, i);
    assert Coherent(f, i);
    forall j, a | 0 <= j < |m.cells| ensures ByteAt(n, j, a) == ByteAt(f, j, a) {
    }
    forall j | 0 <= j < |n.cells| ensures Coherent(n, j) {
      assert Coherent(f, j);
      forall a ensures ByteAt(n, j, a) == ByteAt(f, j, a) {}
    }
  }

  lemma {:induction false} ExtendCorrect(m: Layers, index: Expr, value: Expr)
    requires Valid(m) && IsIndex(index) && IsByte(value) && !index.Constant?
    requires forall i :: 0 <= i < |m.cells| ==> Uncached(m, i)
    ensures Valid(Extend(m, index, value))
    ensures forall a :: Contents(Extend(m, index, value), a) == Store(Contents(m, a), Eval(index, a), Eval(value, a))
  {
    var n := Extend(m, index, value);
    forall j | 0 <= j < |n.cells| ensures Coherent(n, j) {
      assert Uncached(m, j);
    }
    forall a ensures Contents(n, a) == Store(Contents(m, a), Eval(index, a), Eval(value, a)) {
      forall j | 0 <= j < |n.cells|
        ensures ByteAt(n, j, a) == if Eval(index, a) == j then Eval(value, a) else ByteAt(m, j, a)
      {
        assert Uncached(m, j);
      }
    }
  }

  // --- Reading through the update list ------------------------------------------------------

  /** With an array present, the update list is read like any expression's. */
  lemma {:induction false} FlushedIsRead(root: Array, u: Updates, size: nat, i: nat, a: Assignment)
    requires RootFits(Some(root)) && UpdatesFit(u, size)
    ensures UpdatesWellTyped(root, u)
    ensures ReadValue(root, u, i, a) == FlushedByte(Some(root), u, i, a)
    decreases u
  {
    if u.Update? {
      FlushedIsRead(root, u.next, size, i, a);
    }
  }

  // --- The lazily created constant array ------------------------------------------------------

  type Write = (Expr, Expr)

  /** The updates, oldest first. */
  function WritesOf(u: Updates): (ws: seq<Write>) {
    if u.Update? then WritesOf(u.next) + [(u.index, u.value)] else []
  }

  function UpdatesOf(ws: seq<Write>): (u: Updates) {
    if ws == [] then NoUpdate else Update(UpdatesOf(ws[..|ws| - 1]), ws[|ws| - 1].0, ws[|ws| - 1].1)
  }

  predicate IsConstantWrite(w: Write) {
    w.0.Constant? && w.1.Constant?
  }

  predicate WritesFit(ws: seq<Write>, size: nat) {
    forall k :: 0 <= k < |ws| ==>
      IsIndex(ws[k].0) && IsByte(ws[k].1) && (ws[k].0.Constant? ==> ws[k].0.value < size)
  }

  /** The value of byte i after the writes, starting from `v`. */
  function AfterWrites(v: nat, ws: seq<Write>, i: nat, a: Assignment): (r: nat) {
    if ws == [] then v
    else if Eval(ws[|ws| - 1].0, a) == i then Eval(ws[|ws| - 1].1, a)
    else AfterWrites(v, ws[..|ws| - 1], i, a)
  }

  lemma {:induction false} WritesOfFit(u: Updates, size: nat)
    requires UpdatesFit(u, size)
    ensures WritesFit(WritesOf(u), size)
    decreases u
  {
    if u.Update? {
      WritesOfFit(u.next, size);
    }
  }

  lemma {:induction false} UpdatesOfFit(ws: seq<Write>, size: nat)
    requires WritesFit(ws, size)
    ensures UpdatesFit(UpdatesOf(ws), size)
  {
    if ws != [] {
      UpdatesOfFit(ws[..|ws| - 1], size);
    }
  }

  lemma {:induction false} FlushedAsWrites(root: Option<Array>, u: Updates, i: nat, a: Assignment)
    ensures FlushedByte(root, u, i, a)
         == AfterWrites(FlushedByte(root, NoUpdate, i, a), WritesOf(u), i, a)
    decreases u
  {
    if u.Update? {
      FlushedAsWrites(root, u.next, i, a);
      assert WritesOf(u)[..|WritesOf(u)| - 1] == WritesOf(u.next);
    }
  }

  lemma {:induction false} WritesAsFlushed(root: Option<Array>, ws: seq<Write>, i: nat, a: Assignment)
    ensures FlushedByte(root, UpdatesOf(ws), i, a)
         == AfterWrites(FlushedByte(root, NoUpdate, i, a), ws, i, a)
  {
    if ws != [] {
      WritesAsFlushed(root, ws[..|ws| - 1], i, a);
    }
  }

  /** The oldest write can be applied to the starting value first. */
  lemma {:induction false} OldestFirst(v: nat, ws: seq<Write>, i: nat, a: Assignment)
    requires ws != []
    ensures AfterWrites(v, ws, i, a)
         == AfterWrites(if Eval(ws[0].0, a) == i then Eval(ws[0].1, a) else v, ws[1..], i, a)
  {
    if |ws| > 1 {
      assert ws[1..][..|ws| - 2] == ws[..|ws| - 1][1..];
      OldestFirst(v, ws[..|ws| - 1], i, a);
    } else {
      assert ws[..0] == [] && ws[1..] == [];
    }
  }

  /** Applying the oldest write, when it is constant, to a table of starting values. */
  lemma {:induction false} AbsorbWrite(table: seq<nat>, ws: seq<Write>, i: nat, a: Assignment)
    requires ws != [] && IsConstantWrite(ws[0]) && ws[0].0.value < |table| && i < |table|
    ensures AfterWrites(table[ws[0].0.value := ws[0].1.value][i], ws[1..], i, a)
         == AfterWrites(table[i], ws, i, a)
  {
    OldestFirst(table[i], ws, i, a);
  }

  /** Another array and update list that say the same about every byte. */
  lemma {:induction false} Reseated(m: Layers, n: Layers)
    requires Valid(m) && n.cells == m.cells && RootFits(n.root) && UpdatesFit(n.updates, |m.cells|)
    requires forall i, a :: 0 <= i < |m.cells| ==>
               FlushedByte(n.root, n.updates, i, a) == FlushedByte(m.root, m.updates, i, a)
    ensures Valid(n) && SameBytes(n, m)
  {
    forall i, a | 0 <= i < |m.cells| ensures ByteAt(n, i, a) == ByteAt(m, i, a) {
    }
    forall i | 0 <= i < |n.cells| ensures Coherent(n, i) {
      assert Coherent(m, i);
      if !n.cells[i].unflushed {
        forall a ensures FlushedByte(n.root, n.updates, i, a) == ByteAt(n, i, a) {
          assert ByteAt(n, i, a) == ByteAt(m, i, a);
        }
      }
    }
  }

  /** The constant array built from the leading constant writes, with the others on top,
      reads as the writes did. */
  lemma {:induction false} ConstantArrayReads(m: Layers, table: seq<nat>, rest: seq<Write>, id: nat, i: nat,
                                              a: Assignment)
    requires m.root.None? && |table| == |m.cells| && i < |table|
    requires AfterWrites(table[i], rest, i, a) == AfterWrites(0, WritesOf(m.updates), i, a)
    ensures FlushedByte(Some(Array(id, |table|, INDEX_BITS, BYTE_BITS, table)), UpdatesOf(rest), i, a)
         == FlushedByte(m.root, m.updates, i, a)
  {
    FlushedAsWrites(m.root, m.updates, i, a);
    WritesAsFlushed(Some(Array(id, |table|, INDEX_BITS, BYTE_BITS, table)), rest, i, a);
  }

  /** Replacing a missing array by the constant array and the remaining writes. */
  lemma {:induction false} ConstantArrayInstalled(m: Layers, n: Layers, table: seq<nat>, ws: seq<Write>, id: nat)
    requires Valid(m) && m.root.None? && |table| == |m.cells| && WritesFit(ws, |m.cells|)
    requires forall i :: 0 <= i < |table| ==> table[i] < 0x100
    requires forall i, a :: 0 <= i < |table| ==>
               AfterWrites(table[i], ws, i, a) == AfterWrites(0, WritesOf(m.updates), i, a)
    requires n == Layers(m.cells, Some(Array(id, |table|, INDEX_BITS, BYTE_BITS, table)), UpdatesOf(ws))
    ensures Valid(n) && SameBytes(n, m)
  {
    Bits.Pow2Widths();
    UpdatesOfFit(ws, |m.cells|);
    forall i, a | 0 <= i < |m.cells|
      ensures FlushedByte(n.root, n.updates, i, a) == FlushedByte(m.root, m.updates, i, a)
    {
      ConstantArrayReads(m, table, ws, id, i, a);
    }
    Reseated(m, n);
  }

  // --- Values of several bytes ----------------------------------------------------------------

  /** Widths an object can be accessed with: whole bytes or a Boolean. */
  predicate IsAccessWidth(w: nat) {
    w == 1 || (0 < w && w % 8 == 0)
  }

  function AccessSize(w: nat): (n: nat) {
    if w == 1 then 1 else w / 8
  }

  /** What reading a value of width w at `off` yields. */
  function LoadWidth(bytes: seq<nat>, off: nat, w: nat, little: bool): (v: nat)
    requires IsAccessWidth(w) && off + AccessSize(w) <= |bytes|
  {
    if w == 1 then Bits.Slice(bytes[off], 0, 1) else Load(bytes, off, w / 8, little)
  }

  /** What writing a value of width w at `off` leaves. */
  function StoreWidth(bytes: seq<nat>, off: nat, v: nat, w: nat, little: bool): (r: seq<nat>)
    ensures |r| == |bytes|
  {
    if w == 1 then Store(bytes, off, v) else StoreValue(bytes, off, v, w / 8, little)
  }

  /** The memory law: a value written is the value read back. */
  lemma {:induction false} ReadBack(bytes: seq<nat>, off: nat, v: nat, w: nat, little: bool)
    requires IsAccessWidth(w) && off + AccessSize(w) <= |bytes| <= Bits.Pow2(32) && v < Bits.Pow2(w)
    ensures LoadWidth(StoreWidth(bytes, off, v, w, little), off, w, little) == v
  {
    Bits.TruncWhole(v, w);
    if w == 1 {
      assert Bits.Drop(v, 0) == v;
    } else {
      LoadAfterStore(bytes, off, v, w / 8, little);
    }
  }

  /** A value of any access width is laid out in the byte order when it is written, and so it
      lies where it is read. */
  lemma {:induction false} WidthLaidOut(bytes: seq<nat>, off: nat, v: nat, w: nat, little: bool)
    requires IsAccessWidth(w) && off + AccessSize(w) <= |bytes| <= Bits.Pow2(32) && v < Bits.Pow2(w)
    requires forall i :: 0 <= i < |bytes| ==> bytes[i] < 0x100
    ensures LaidOut(StoreWidth(bytes, off, v, w, little), off, v, AccessSize(w), little)
    ensures forall j :: 0 <= j < |bytes| && !(off <= j < off + AccessSize(w)) ==>
              StoreWidth(bytes, off, v, w, little)[j] == bytes[j]
    ensures 1 < w ==> LaidOut(bytes, off, LoadWidth(bytes, off, w, little), AccessSize(w), little)
    ensures w == 1 ==> LoadWidth(bytes, off, w, little) == bytes[off] % 2
  {
    hide Bits.Slice;
    Bits.Pow2Widths();
    if w == 1 {
      WholeByte(v);
      BitLaws.SliceQuotient(bytes[off], 0, 1);
      Bits.Pow2Double(0);
    } else {
      StoredLaidOut(bytes, off, v, w / 8, little);
      LoadedLaidOut(bytes, off, w / 8, little);
    }
  }

  lemma {:induction false} LoadedFromLayers(m: Layers, off: nat, w: nat, little: bool, a: Assignment)
    requires Valid(m) && IsAccessWidth(w) && 1 < w && off + AccessSize(w) <= |m.cells|
    ensures LaidOut(Contents(m, a), off, LoadWidth(Contents(m, a), off, w, little), w / 8, little)
  {
    hide Valid, Contents, LaidOut;
    BytesBounded(m, a);
    LoadedLaidOut(Contents(m, a), off, w / 8, little);
  }

  lemma {:induction false} StoredInLayers(m: Layers, offset: Expr, value: Expr, little: bool)
    requires Valid(m) && WellTyped(value) && IsAccessWidth(Width(value))
    ensures forall a :: Bits.Trunc(Eval(offset, a), 32) + AccessSize(Width(value)) <= |m.cells| ==>
              LaidOut(StoreWidth(Contents(m, a), Bits.Trunc(Eval(offset, a), 32), Eval(value, a), Width(value), little),
                      Bits.Trunc(Eval(offset, a), 32), Eval(value, a), AccessSize(Width(value)), little)
  {
    hide LaidOut;
    forall a | Bits.Trunc(Eval(offset, a), 32) + AccessSize(Width(value)) <= |m.cells|
      ensures LaidOut(StoreWidth(Contents(m, a), Bits.Trunc(Eval(offset, a), 32), Eval(value, a), Width(value), little),
                      Bits.Trunc(Eval(offset, a), 32), Eval(value, a), AccessSize(Width(value)), little)
    {
      BytesBounded(m, a);
      EvalBound(value, a);
      WidthLaidOut(Contents(m, a), Bits.Trunc(Eval(offset, a), 32), Eval(value, a), Width(value), little);
    }
  }

  lemma {:induction false} WordInLayers(m: Layers, off: nat, value: nat, n: nat, little: bool)
    requires Valid(m) && off + n <= |m.cells|
    ensures forall a :: LaidOut(StoreValue(Contents(m, a), off, value, n, little), off, value, n, little)
  {
    hide LaidOut;
    forall a ensures LaidOut(StoreValue(Contents(m, a), off, value, n, little), off, value, n, little) {
      StoredLaidOut(Contents(m, a), off, value, n, little);
    }
  }

  /** The offset of part i of an n-byte value at a symbolic offset. */
  function PartOffset(offset: Expr, i: nat, n: nat, little: bool): (e: Expr)
    requires IsIndex(offset) && i < n <= Bits.Pow2(INDEX_BITS)
    ensures IsIndex(e)
  {
    AddCreate(offset, Index(ByteIndex(i, n, little)))
  }

  lemma {:induction false} PartOffsetValue(offset: Expr, i: nat, n: nat, little: bool, a: Assignment)
    requires IsIndex(offset) && i < n <= Bits.Pow2(INDEX_BITS)
    ensures Eval(PartOffset(offset, i, n, little), a)
         == Bits.Trunc(Eval(offset, a) + ByteIndex(i, n, little), 32)
  {
    EvalBound(offset, a);
    AddValue(offset, Index(ByteIndex(i, n, little)), a);
    Bits.AddModIsTrunc(Eval(offset, a), ByteIndex(i, n, little), 32);
  }

  /** No part offset folds to a constant, which the symbolic byte accesses rely on. */
  ghost predicate StaysSymbolic(offset: Expr, n: nat, little: bool)
    requires IsIndex(offset) && n <= Bits.Pow2(INDEX_BITS)
  {
    forall i :: 0 <= i < n ==> !PartOffset(offset, i, n, little).Constant?
  }

  /** What the callers see to: a constant offset is in bounds and a symbolic one does not
      fold away. */
  ghost predicate Accessible(size: nat, index: Expr, n: nat, little: bool)
    requires IsIndex(index) && n <= Bits.Pow2(INDEX_BITS)
  {
    if index.Constant? then index.value + n <= size else StaysSymbolic(index, n, little)
  }

  /** Offsets in hoisted form stay symbolic. */
  lemma {:induction false} HoistedStaysSymbolic(offset: Expr, n: nat, little: bool)
    requires IsIndex(offset) && n <= Bits.Pow2(INDEX_BITS) && Hoisted(offset) && !offset.Constant?
    ensures StaysSymbolic(offset, n, little)
  {
    forall i | 0 <= i < n ensures !PartOffset(offset, i, n, little).Constant? {
      AddHoisted(offset, Index(ByteIndex(i, n, little)));
    }
  }

  /** Joining one more byte on the left. */
  lemma {:induction false} AssembleMore(bytes: seq<nat>, off: nat, n: nat, little: bool, i: nat)
    requires off + n <= |bytes| && i < n
    ensures Assemble(Parts(bytes, off, n, little)[..i + 1])
         == Bits.Join(bytes[off + ByteIndex(i, n, little)], Assemble(Parts(bytes, off, n, little)[..i]), 8 * i)
  {
    var ps := Parts(bytes, off, n, little);
    assert ps[..i + 1][..i] == ps[..i];
  }

  // --- Part by part ---------------------------------------------------------------------------

  /** `b` is part i of the n-byte value at `index`, wherever that is in bounds. */
  ghost predicate PartRead(b: Expr, m: Layers, index: Expr, i: nat, n: nat, little: bool)
    requires i < n
  {
    IsByte(b) && forall a :: Eval(index, a) + n <= |m.cells| ==>
      Eval(b, a) == Contents(m, a)[Eval(index, a) + ByteIndex(i, n, little)]
  }

  /** `r` holds the i least significant bytes of the n-byte value at `index`. */
  ghost predicate PartsRead(r: Expr, m: Layers, index: Expr, i: nat, n: nat, little: bool)
    requires i <= n
  {
    WellTyped(r) && Width(r) == 8 * i && forall a :: Eval(index, a) + n <= |m.cells| ==>
      Eval(r, a) == Assemble(Parts(Contents(m, a), Eval(index, a), n, little)[..i])
  }

  lemma {:induction false} FirstPart(b: Expr, m: Layers, index: Expr, n: nat, little: bool)
    requires 0 < n && PartRead(b, m, index, 0, n, little)
    ensures PartsRead(b, m, index, 1, n, little)
  {
    forall a | Eval(index, a) + n <= |m.cells|
      ensures Eval(b, a) == Assemble(Parts(Contents(m, a), Eval(index, a), n, little)[..1])
    {
      AssembleMore(Contents(m, a), Eval(index, a), n, little, 0);
    }
  }

  lemma {:induction false} NextPart(b: Expr, r: Expr, m: Layers, index: Expr, i: nat, n: nat, little: bool)
    requires i < n && PartRead(b, m, index, i, n, little) && PartsRead(r, m, index, i, n, little)
    ensures PartsRead(ConcatCreate(b, r), m, index, i + 1, n, little)
  {
    forall a | Eval(index, a) + n <= |m.cells|
      ensures Eval(ConcatCreate(b, r), a) == Assemble(Parts(Contents(m, a), Eval(index, a), n, little)[..i + 1])
    {
      ConcatValue(b, r, a);
      AssembleMore(Contents(m, a), Eval(index, a), n, little, i);
    }
  }

  lemma {:induction false} AllParts(r: Expr, m: Layers, index: Expr, n: nat, little: bool, a: Assignment)
    requires PartsRead(r, m, index, n, n, little) && Eval(index, a) + n <= |m.cells|
    ensures Eval(r, a) == Load(Contents(m, a), Eval(index, a), n, little)
  {
    var ps := Parts(Contents(m, a), Eval(index, a), n, little);
    assert ps[..n] == ps;
  }

  /** `after` is `before` with the i least significant bytes of `value` stored at `index`. */
  ghost predicate PartsStored(after: Layers, before: Layers, index: Expr, value: Expr, i: nat, n: nat, little: bool)
    requires i <= n
  {
    forall a :: Contents(after, a)
             == StoreParts(Contents(before, a), Eval(index, a), Eval(value, a), i, n, little)
  }

  /** `after` is `before` with part i of `value` stored. */
  ghost predicate PartStored(after: Layers, before: Layers, index: Expr, value: Expr, i: nat, n: nat, little: bool)
    requires i < n
  {
    forall a :: Contents(after, a)
             == Store(Contents(before, a),
                      Bits.Trunc(Eval(index, a) + ByteIndex(i, n, little), 32),
                      Bits.Slice(Eval(value, a), 8 * i, 8))
  }

  lemma {:induction false} NextPartStored(after: Layers, mid: Layers, before: Layers, index: Expr, value: Expr, i: nat,
                                          n: nat, little: bool)
    requires i < n && PartsStored(mid, before, index, value, i, n, little)
    requires PartStored(after, mid, index, value, i, n, little)
    ensures PartsStored(after, before, index, value, i + 1, n, little)
  {
  }

  lemma {:induction false} NothingStored(m: Layers, index: Expr, value: Expr, n: nat, little: bool)
    ensures PartsStored(m, m, index, value, 0, n, little)
  {
  }

  lemma {:induction false} EverythingStored(after: Layers, before: Layers, index: Expr, value: Expr, n: nat,
                                            little: bool)
    requires PartsStored(after, before, index, value, n, n, little)
    ensures forall a :: Contents(after, a)
                     == StoreValue(Contents(before, a), Eval(index, a), Eval(value, a), n, little)
  {
  }
}
