/** The state of one memory object. Its methods work on separately allocated buffers; each
    is specified by what it does to the layers, and the public ones by what they do to the
    plain byte array the layers stand for. */
module ObjectStates {
  import Bits
  import opened Exprs
  import opened Slices
  import opened Constructors
  import opened ObjectLayers
  import opened ByteOrder

  class ObjectState {
    const size: nat
    const arrayId: nat
    var concreteStore: array<nat>
    var concreteMask: array?<bool>
    var flushMask: array?<bool>
    var knownSymbolics: array?<Option<Expr>>
    var root: Option<Array>
    var updates: Updates
    var readOnly: bool
    var copyOnWriteOwner: nat
    ghost var Repr: set<object>

    /** The buffers are there, of the right length and not shared with each other. */
    ghost predicate Allocated()
      reads this, Repr
    {
      && this in Repr
      && concreteStore in Repr && concreteStore.Length == size
      && (concreteMask != null ==> concreteMask in Repr && concreteMask.Length == size)
      && (flushMask != null ==> flushMask in Repr && flushMask.Length == size)
      && (concreteMask != null && flushMask != null ==> concreteMask != flushMask)
      && (knownSymbolics != null ==> knownSymbolics in Repr && knownSymbolics.Length == size)
    }

    ghost function CellAt(i: nat): (c: Cell)
      requires Allocated() && i < size
      reads this, Repr
    {
      Cell(concreteMask == null || concreteMask[i],
           concreteStore[i],
           if knownSymbolics == null then None else knownSymbolics[i],
           flushMask == null || flushMask[i])
    }

    ghost function View(): (m: Layers)
      requires Allocated()
      reads this, Repr
      ensures |m.cells| == size && m.root == root && m.updates == updates
    {
      Layers(seq(size, i requires 0 <= i < size && Allocated() reads this, Repr => CellAt(i)), root, updates)
    }

    ghost predicate Valid()
      reads this, Repr
    {
      Allocated() && ObjectLayers.Valid(View())
    }

    /** The object as a plain byte array. */
    ghost function Bytes(a: Assignment): (bytes: seq<nat>)
      requires Allocated()
      reads this, Repr
    {
      Contents(View(), a)
    }

    /** Only buffers changed: ownership and protection are as before. */
    twostate predicate Kept()
      requires old(Allocated())
      reads this, Repr
    {
      && Allocated() && fresh(Repr - old(Repr))
      && readOnly == old(readOnly) && copyOnWriteOwner == old(copyOnWriteOwner)
    }

    // --- Construction -------------------------------------------------------------------------

    /** A concrete object of zeros. Unless constant arrays are in use, its updates start from
        a symbolic array of its own. */
    constructor Concrete(size: nat, arrayId: nat, useConstantArrays: bool)
      requires size < 0x1_0000_0000
      ensures Valid() && fresh(Repr) && !readOnly && copyOnWriteOwner == 0
      ensures this.size == size && this.arrayId == arrayId
      ensures forall a :: Bytes(a) == seq(size, _ => 0)
    {
      this.size, this.arrayId := size, arrayId;
      var store := new nat[size](_ => 0);
      concreteStore := store;
      concreteMask, flushMask, knownSymbolics := null, null, null;
      root := if useConstantArrays then None else Some(Array(arrayId, size, INDEX_BITS, BYTE_BITS, []));
      updates := NoUpdate;
      readOnly, copyOnWriteOwner := false, 0;
      Repr := {this, store};
      new;
      Bits.Pow2Widths();
      forall i | 0 <= i < size ensures View().cells[i] == Cell(true, 0, None, true) {}
    }

    /** An object whose contents are those of an array. */
    constructor Symbolic(size: nat, arrayId: nat, source: Array)
      requires size < 0x1_0000_0000 && RootFits(Some(source))
      ensures Valid() && fresh(Repr) && !readOnly && copyOnWriteOwner == 0
      ensures this.size == size && this.arrayId == arrayId
      ensures forall a :: Bytes(a) == seq(size, i => if 0 <= i then InitialValue(source, i, a) else 0)
    {
      this.size, this.arrayId := size, arrayId;
      var store := new nat[size](_ => 0);
      concreteStore := store;
      concreteMask, flushMask, knownSymbolics := null, null, null;
      root, updates := Some(source), NoUpdate;
      readOnly, copyOnWriteOwner := false, 0;
      Repr := {this, store};
      new;
      Bits.Pow2Widths();
      assert forall i :: 0 <= i < size ==> View().cells[i] == Cell(true, 0, None, true);
      MakeSymbolic();
      assert forall i :: 0 <= i < size ==> Uncached(View(), i);
    }

    /** A copy, to be modified independently of the original. */
    constructor Copy(os: ObjectState)
      requires os.Valid() && !os.readOnly
      ensures Valid() && fresh(Repr) && !readOnly && copyOnWriteOwner == 0
      ensures size == os.size && View() == os.View()
    {
      hide ObjectLayers.Valid;
      size, arrayId := os.size, os.arrayId;
      var store := CopyBuffer(os.concreteStore);
      var concrete := CopyOptionalBuffer(os.concreteMask);
      var flush := CopyOptionalBuffer(os.flushMask);
      var known := CopyOptionalBuffer(os.knownSymbolics);
      concreteStore, concreteMask, flushMask, knownSymbolics := store, concrete, flush, known;
      root, updates := os.root, os.updates;
      readOnly, copyOnWriteOwner := false, 0;
      Repr := {this, store} + Present(concrete) + Present(flush) + Present(known);
      new;
      SameCells(os);
    }

    /** Two objects with equal buffers have the same layers. */
    lemma {:induction false} SameCells(os: ObjectState)
      requires Allocated() && os.Allocated() && size == os.size && root == os.root && updates == os.updates
      requires forall i :: 0 <= i < size ==> concreteStore[i] == os.concreteStore[i]
      requires (concreteMask == null) == (os.concreteMask == null) && (flushMask == null) == (os.flushMask == null)
      requires (knownSymbolics == null) == (os.knownSymbolics == null)
      requires concreteMask != null ==> forall i :: 0 <= i < size ==> concreteMask[i] == os.concreteMask[i]
      requires flushMask != null ==> forall i :: 0 <= i < size ==> flushMask[i] == os.flushMask[i]
      requires knownSymbolics != null ==> forall i :: 0 <= i < size ==> knownSymbolics[i] == os.knownSymbolics[i]
      ensures View() == os.View()
    {
      assert View().cells == os.View().cells;
    }

    /** Taking ownership touches none of the buffers. */
    method SetOwner(owner: nat)
      requires Allocated()
      modifies this`copyOnWriteOwner
      ensures Allocated() && copyOnWriteOwner == owner && View() == old(View())
      ensures forall a :: Bytes(a) == old(Bytes(a))
    {
      copyOnWriteOwner := owner;
      assert View().cells == old(View()).cells;
    }

    static ghost function Present(buffer: object?): (r: set<object>) {
      if buffer == null then {} else {buffer}
    }

    static method CopyBuffer<T>(buffer: array<T>) returns (copy: array<T>)
      ensures fresh(copy) && copy.Length == buffer.Length && copy[..] == buffer[..]
      ensures forall i :: 0 <= i < copy.Length ==> copy[i] == buffer[i]
    {
      copy := new T[buffer.Length](i requires 0 <= i < buffer.Length reads buffer => buffer[i]);
    }

    static method CopyOptionalBuffer<T>(buffer: array?<T>) returns (copy: array?<T>)
      ensures copy == null <==> buffer == null
      ensures copy != null ==> fresh(copy) && copy.Length == buffer.Length
      ensures copy != null ==> forall i :: 0 <= i < copy.Length ==> copy[i] == buffer[i]
    {
      copy := null;
      if buffer != null {
        copy := CopyBuffer(buffer);
      }
    }

    /** Forgets every cached value, leaving the bytes to the array. */
    method MakeSymbolic()
      requires Allocated() && updates.NoUpdate?
      modifies Repr
      ensures Kept() && root == old(root) && updates == old(updates)
      ensures forall i :: 0 <= i < size ==> Uncached(View(), i) && View().cells[i].store == old(View()).cells[i].store
    {
      for i := 0 to size
        invariant Kept() && root == old(root) && updates == old(updates)
        invariant forall j :: 0 <= j < size ==> View().cells[j].store == old(View()).cells[j].store
        invariant forall j :: 0 <= j < i ==>
                    !View().cells[j].concrete && View().cells[j].known.None? && !View().cells[j].unflushed
      {
        MarkByteSymbolic(i);
        SetKnownSymbolic(i, None);
        MarkByteFlushed(i);
      }
    }

    /** All bytes become concrete again; the update list stays but is older than all. */
    method MakeConcrete()
      requires Valid()
      modifies this
      ensures Allocated() && Repr == old(Repr) && readOnly == old(readOnly) && copyOnWriteOwner == old(copyOnWriteOwner)
      ensures concreteMask == null && flushMask == null && knownSymbolics == null
      ensures root == old(root) && updates == old(updates) && concreteStore == old(concreteStore)
    {
      concreteMask, flushMask, knownSymbolics := null, null, null;
    }

    method InitializeTo(value: nat)
      requires Valid() && value < 0x100
      modifies Repr
      ensures Kept() && Valid() && forall a :: Bytes(a) == seq(size, _ => value)
    {
      MakeConcrete();
      for i := 0 to size
        invariant Kept() && concreteMask == null && flushMask == null && knownSymbolics == null
        invariant root == old(root) && updates == old(updates)
        invariant forall j :: 0 <= j < i ==> concreteStore[j] == value
      {
        concreteStore[i] := value;
      }
      forall i | 0 <= i < size ensures View().cells[i] == Cell(true, value, None, true) {}
    }

    method InitializeToZero()
      requires Valid()
      modifies Repr
      ensures Kept() && Valid() && forall a :: Bytes(a) == seq(size, _ => 0)
    {
      InitializeTo(0);
    }

    /** "Random" contents are always the byte 0xAB. */
    method InitializeToRandom()
      requires Valid()
      modifies Repr
      ensures Kept() && Valid() && forall a :: Bytes(a) == seq(size, _ => 0xAB)
    {
      InitializeTo(0xAB);
    }

    // --- Per-byte state --------------------------------------------------------------------

    method IsByteConcrete(offset: nat) returns (b: bool)
      requires Allocated() && offset < size
      ensures b == View().cells[offset].concrete
    {
      b := concreteMask == null || concreteMask[offset];
    }

    method IsByteFlushed(offset: nat) returns (b: bool)
      requires Allocated() && offset < size
      ensures b == !View().cells[offset].unflushed
    {
      b := flushMask != null && !flushMask[offset];
    }

    method IsByteKnownSymbolic(offset: nat) returns (b: bool)
      requires Allocated() && offset < size
      ensures b == View().cells[offset].known.Some?
    {
      b := knownSymbolics != null && knownSymbolics[offset].Some?;
    }

    method MarkByteConcrete(offset: nat)
      requires Allocated() && offset < size
      modifies Repr
      ensures Kept()
      ensures View() == old(View()).(cells := old(View()).cells[offset := old(View()).cells[offset].(concrete := true)])
    {
      if concreteMask != null {
        concreteMask[offset] := true;
      }
      assert View().cells == old(View()).cells[offset := old(View()).cells[offset].(concrete := true)];
    }

    method MarkByteSymbolic(offset: nat)
      requires Allocated() && offset < size
      modifies Repr
      ensures Kept() && flushMask == old(flushMask)
      ensures var m := old(View());
              View() == m.(cells := m.cells[offset := m.cells[offset].(concrete := false)])
    {
      if concreteMask == null {
        concreteMask := new bool[size](_ => true);
        Repr := Repr + {concreteMask};
      }
      concreteMask[offset] := false;
      assert View().cells == old(View()).cells[offset := old(View()).cells[offset].(concrete := false)];
    }

    method MarkByteUnflushed(offset: nat)
      requires Allocated() && offset < size
      modifies Repr
      ensures Kept()
      ensures var m := old(View());
              View() == m.(cells := m.cells[offset := m.cells[offset].(unflushed := true)])
    {
      if flushMask != null {
        flushMask[offset] := true;
      }
      assert View().cells == old(View()).cells[offset := old(View()).cells[offset].(unflushed := true)];
    }

    method SetKnownSymbolic(offset: nat, value: Option<Expr>)
      requires Allocated() && offset < size
      modifies Repr
      ensures Kept() && flushMask == old(flushMask)
      ensures View() == old(View()).(cells := old(View()).cells[offset := old(View()).cells[offset].(known := value)])
    {
      if knownSymbolics != null {
        knownSymbolics[offset] := value;
      } else if value.Some? {
        knownSymbolics := new Option<Expr>[size](_ => None);
        Repr := Repr + {knownSymbolics};
        knownSymbolics[offset] := value;
      }
      assert View().cells == old(View()).cells[offset := old(View()).cells[offset].(known := value)];
    }

    /** When no byte was ever flushed this marks all of them. */
    method MarkByteFlushed(offset: nat)
      requires Allocated() && offset < size
      modifies Repr
      ensures Kept() && flushMask != null
      ensures forall i :: 0 <= i < size ==>
                View().cells[i] == old(View()).cells[i].(unflushed :=
                  old(View()).cells[i].unflushed && old(flushMask) != null && i != offset)
      ensures root == old(root) && updates == old(updates)
    {
      if flushMask == null {
        flushMask := new bool[size](_ => false);
        Repr := Repr + {flushMask};
      } else {
        flushMask[offset] := false;
      }
    }

    method ClearFlushBit(offset: nat)
      requires Allocated() && offset < size && flushMask != null
      modifies Repr
      ensures Kept() && flushMask == old(flushMask)
      ensures var m := old(View());
              View() == m.(cells := m.cells[offset := m.cells[offset].(unflushed := false)])
    {
      flushMask[offset] := false;
      assert View().cells == old(View()).cells[offset := old(View()).cells[offset].(unflushed := false)];
    }

    // --- Flushing ------------------------------------------------------------------------------

    /** Every byte of the range ends up in the update list; no byte changes. */
    method FlushRangeForRead(rangeBase: nat, rangeSize: nat)
      requires Valid() && rangeBase + rangeSize <= size
      modifies Repr
      ensures Kept() && Valid() && root == old(root) && SameBytes(View(), old(View()))
      ensures forall i :: rangeBase <= i < rangeBase + rangeSize ==> !View().cells[i].unflushed
    {
      if flushMask == null {
        flushMask := new bool[size](_ => true);
        Repr := Repr + {flushMask};
        assert View() == old(View());
      }
      for offset := rangeBase to rangeBase + rangeSize
        invariant Kept() && Valid() && root == old(root) && flushMask != null
        invariant SameBytes(View(), old(View()))
        invariant forall i :: rangeBase <= i < offset ==> !View().cells[i].unflushed
      {
        FlushForReadCorrect(View(), offset);
        FlushByteForRead(offset);
      }
    }

    /** The cached value of a byte is added to the update list. */
    method ExtendByCached(offset: nat)
      requires Allocated() && offset < size
      requires View().cells[offset].concrete || View().cells[offset].known.Some?
      modifies this`updates
      ensures Kept() && Repr == old(Repr) && flushMask == old(flushMask)
      ensures View() == old(View()).(updates := Update(old(updates), Index(offset), Cached(old(View()).cells[offset])))
    {
      var concrete := IsByteConcrete(offset);
      if concrete {
        updates := Update(updates, Index(offset), Byte(concreteStore[offset]));
      } else {
        updates := Update(updates, Index(offset), knownSymbolics[offset].value);
      }
      assert View().cells == old(View()).cells;
    }

    /** One round of the loop: an unflushed byte is written to the update list. */
    method FlushByteForRead(offset: nat)
      requires Allocated() && offset < size && flushMask != null
      requires View().cells[offset].unflushed ==> View().cells[offset].concrete || View().cells[offset].known.Some?
      modifies Repr
      ensures Kept() && flushMask != null && View() == FlushForRead(old(View()), offset)
    {
      var flushed := IsByteFlushed(offset);
      if !flushed {
        ExtendByCached(offset);
        ClearFlushBit(offset);
      }
      assert View().cells == FlushForRead(old(View()), offset).cells;
    }

    /** Every byte of the range ends up in the update list only; no byte changes. */
    method FlushRangeForWrite(rangeBase: nat, rangeSize: nat)
      requires Valid() && rangeBase + rangeSize <= size
      modifies Repr
      ensures Kept() && Valid() && root == old(root) && SameBytes(View(), old(View()))
      ensures forall i :: rangeBase <= i < rangeBase + rangeSize ==> Uncached(View(), i)
    {
      if flushMask == null {
        flushMask := new bool[size](_ => true);
        Repr := Repr + {flushMask};
        assert View() == old(View());
      }
      for offset := rangeBase to rangeBase + rangeSize
        invariant Kept()
        invariant ObjectLayers.Valid(View())
        invariant root == old(root)
        invariant flushMask != null
        invariant SameBytes(View(), old(View()))
        invariant forall i :: rangeBase <= i < offset ==> Uncached(View(), i)
      {
        FlushForWriteCorrect(View(), offset);
        FlushByteForWrite(offset);
      }
    }

    /** One round of the loop: a flushed byte still has to forget its cached value. */
    method FlushByteForWrite(offset: nat)
      requires Allocated() && offset < size && flushMask != null
      requires View().cells[offset].unflushed ==> View().cells[offset].concrete || View().cells[offset].known.Some?
      requires !(View().cells[offset].concrete && View().cells[offset].known.Some?)
      modifies Repr
      ensures Kept() && flushMask != null && View() == FlushForWrite(old(View()), offset)
    {
      hide ObjectState.View, ObjectState.CellAt;
      var flushed := IsByteFlushed(offset);
      var concrete := IsByteConcrete(offset);
      var known := IsByteKnownSymbolic(offset);
      if !flushed {
        ExtendByCached(offset);
        if concrete {
          MarkByteSymbolic(offset);
        } else {
          SetKnownSymbolic(offset, None);
        }
        ClearFlushBit(offset);
      } else if concrete {
        MarkByteSymbolic(offset);
      } else if known {
        SetKnownSymbolic(offset, None);
      }
      assert View().cells == FlushForWrite(old(View()), offset).cells;
    }

    // --- The lazily created constant array -------------------------------------------------

    /** Afterwards there is an array to read from, and every byte is what it was. */
    method GetUpdates()
      requires Valid()
      modifies Repr
      ensures Kept() && Valid() && root.Some?
      ensures View().cells == old(View()).cells && SameBytes(View(), old(View()))
      ensures old(root).Some? ==> View() == old(View())
    {
      if root.Some? {
        return;
      }
      var writes := CollectWrites();
      WritesOfFit(updates, size);
      var table, begin := AbsorbConstantWrites(writes);
      ghost var before := View();
      root := Some(Array(arrayId, size, INDEX_BITS, BYTE_BITS, table));
      updates := ExtendWith(writes[begin..]);
      ConstantArrayInstalled(before, View(), table, writes[begin..], arrayId);
    }

    static method ExtendWith(writes: seq<Write>) returns (u: Updates)
      ensures u == UpdatesOf(writes)
    {
      u := NoUpdate;
      for i := 0 to |writes|
        invariant u == UpdatesOf(writes[..i])
      {
        u := Update(u, writes[i].0, writes[i].1);
        assert writes[..i + 1][..i] == writes[..i];
      }
      assert writes[..|writes|] == writes;
    }

    /** The updates in the order they were made. */
    method CollectWrites() returns (writes: seq<Write>)
      ensures writes == WritesOf(updates)
    {
      writes := [];
      var un := updates;
      while un.Update?
        invariant WritesOf(un) + writes == WritesOf(updates)
        decreases un
      {
        writes := [(un.index, un.value)] + writes;
        un := un.next;
      }
    }

    /** Moves leading constant writes into a table of bytes that starts as zero. */
    method AbsorbConstantWrites(writes: seq<Write>) returns (table: seq<nat>, begin: nat)
      requires WritesFit(writes, size)
      ensures begin <= |writes| && (begin < |writes| ==> !IsConstantWrite(writes[begin]))
      ensures |table| == size && forall i :: 0 <= i < size ==> table[i] < 0x100
      ensures forall i, a :: 0 <= i < size ==>
                AfterWrites(table[i], writes[begin..], i, a) == AfterWrites(0, writes, i, a)
    {
      table := seq(size, _ => 0);
      begin := 0;
      assert writes[0..] == writes;
      while begin < |writes| && IsConstantWrite(writes[begin])
        invariant begin <= |writes| && |table| == size
        invariant forall i :: 0 <= i < size ==> table[i] < 0x100
        invariant forall i, a :: 0 <= i < size ==>
                    AfterWrites(table[i], writes[begin..], i, a) == AfterWrites(0, writes, i, a)
      {
        var (index, value) := writes[begin];
        Bits.Pow2Widths();
        forall i, a | 0 <= i < size
          ensures AfterWrites(table[index.value := value.value][i], writes[begin + 1..], i, a)
               == AfterWrites(0, writes, i, a)
        {
          assert writes[begin..][1..] == writes[begin + 1..];
          AbsorbWrite(table, writes[begin..], i, a);
        }
        table := table[index.value := value.value];
        begin := begin + 1;
      }
    }

    // --- Single bytes ---------------------------------------------------------------------------

    method Read8(offset: nat) returns (r: Expr)
      requires Valid() && offset < size
      modifies Repr
      ensures Kept() && Valid() && forall a :: Bytes(a) == old(Bytes(a))
      ensures IsByte(r) && forall a :: Eval(r, a) == old(Bytes(a))[offset]
    {
      Bits.Pow2Widths();
      assert Coherent(View(), offset) && CellFits(View().cells[offset]);
      var concrete := IsByteConcrete(offset);
      var known := IsByteKnownSymbolic(offset);
      if concrete {
        r := Byte(concreteStore[offset]);
      } else if known {
        r := knownSymbolics[offset].value;
      } else {
        GetUpdates();
        forall a ensures Bytes(a) == old(Bytes(a)) {
          SameContents(View(), old(View()), a);
        }
        r := ReadArray(Index(offset));
      }
    }

    /** A read expression over the object's array. */
    method ReadArray(index: Expr) returns (r: Expr)
      requires Valid() && root.Some? && IsIndex(index)
      ensures IsByte(r) && forall a :: Eval(r, a) == FlushedByte(root, updates, Eval(index, a), a)
    {
      FlushedIsRead(root.value, updates, size, 0, Assignment(map[]));
      r := ReadExprCreate(root.value, updates, index);
      forall a ensures Eval(r, a) == FlushedByte(root, updates, Eval(index, a), a) {
        ReadCreateValue(root.value, updates, index, a);
        FlushedIsRead(root.value, updates, size, Eval(index, a), a);
      }
    }

    /** A read at a symbolic offset flushes every byte first; in bounds it yields the byte
        at the offset. */
    method Read8Symbolic(offset: Expr) returns (r: Expr)
      requires Valid() && IsIndex(offset) && !offset.Constant?
      modifies Repr
      ensures Kept() && Valid() && forall a :: Bytes(a) == old(Bytes(a))
      ensures IsByte(r)
      ensures forall a :: Eval(offset, a) < size ==> Eval(r, a) == old(Bytes(a))[Eval(offset, a)]
    {
      FlushRangeForRead(0, size);
      ghost var flushed := View();
      GetUpdates();
      forall a ensures Bytes(a) == old(Bytes(a)) {
        SameContents(View(), flushed, a);
        SameContents(flushed, old(View()), a);
      }
      r := ReadArray(ZExtCreate(offset, INDEX_BITS));
      forall a | Eval(offset, a) < size ensures Eval(r, a) == old(Bytes(a))[Eval(offset, a)] {
        assert Coherent(View(), Eval(offset, a));
        assert ByteAt(View(), Eval(offset, a), a) == ByteAt(flushed, Eval(offset, a), a);
      }
    }

    method Write8(offset: nat, value: nat)
      requires Valid() && offset < size && value < 0x100
      modifies Repr
      ensures Kept() && Valid() && forall a :: Bytes(a) == old(Bytes(a))[offset := value]
    {
      WriteConcreteCorrect(View(), offset, value);
      concreteStore[offset] := value;
      assert View().cells == old(View()).cells[offset := old(View()).cells[offset].(store := value)];
      SetKnownSymbolic(offset, None);
      MarkByteConcrete(offset);
      MarkByteUnflushed(offset);
      assert View() == WriteConcrete(old(View()), offset, value);
    }

    method Write8Expr(offset: nat, value: Expr)
      requires Valid() && offset < size && IsByte(value)
      modifies Repr
      ensures Kept() && Valid() && forall a :: Bytes(a) == old(Bytes(a))[offset := Eval(value, a)]
    {
      if value.Constant? {
        Bits.Pow2Widths();
        Write8(offset, value.value);
      } else {
        WriteKnownCorrect(View(), offset, value);
        SetKnownSymbolic(offset, Some(value));
        MarkByteSymbolic(offset);
        MarkByteUnflushed(offset);
        assert View() == WriteKnown(old(View()), offset, value);
      }
    }

    /** A write at a symbolic offset; out of bounds it changes nothing. */
    method Write8Symbolic(offset: Expr, value: Expr)
      requires Valid() && IsIndex(offset) && !offset.Constant? && IsByte(value)
      modifies Repr
      ensures Kept() && Valid()
      ensures forall a :: Bytes(a) == Store(old(Bytes(a)), Eval(offset, a), Eval(value, a))
    {
      FlushRangeForWrite(0, size);
      ghost var flushed := View();
      ExtendCorrect(flushed, offset, value);
      updates := Update(updates, ZExtCreate(offset, INDEX_BITS), value);
      assert View() == Extend(flushed, offset, value);
      forall a ensures Bytes(a) == Store(old(Bytes(a)), Eval(offset, a), Eval(value, a)) {
        SameContents(flushed, old(View()), a);
      }
    }

    // --- Values of several bytes ------------------------------------------------------------------

    /** A read at a concrete offset. */
    method ReadAt(offset: nat, width: nat, little: bool) returns (r: Expr)
      requires Valid() && IsAccessWidth(width) && offset + AccessSize(width) <= size
      modifies Repr
      ensures Kept() && Valid() && forall a :: Bytes(a) == old(Bytes(a))
      ensures WellTyped(r) && Width(r) == width
      ensures forall a :: Eval(r, a) == LoadWidth(old(Bytes(a)), offset, width, little)
    {
      if width == 1 {
        var b := Read8(offset);
        r := ExtractCreate(b, 0, 1);
        forall a ensures Eval(r, a) == LoadWidth(old(Bytes(a)), offset, width, little) {
          ExtractValue(b, 0, 1, a);
        }
      } else {
        r := ReadBytesAt(offset, width / 8, little);
      }
    }

    method ReadBytesAt(offset: nat, n: nat, little: bool) returns (r: Expr)
      requires Valid() && 0 < n && offset + n <= size
      modifies Repr
      ensures Kept() && Valid() && forall a :: Bytes(a) == old(Bytes(a))
      ensures WellTyped(r) && Width(r) == 8 * n
      ensures forall a :: Eval(r, a) == Load(old(Bytes(a)), offset, n, little)
    {
      ghost var m := View();
      r := ReadPartAt(offset, 0, n, little, m);
      FirstPart(r, m, Index(offset), n, little);
      for i := 1 to n
        invariant Kept() && Valid() && forall a :: Bytes(a) == old(Bytes(a))
        invariant PartsRead(r, m, Index(offset), i, n, little)
      {
        var b := ReadPartAt(offset, i, n, little, m);
        NextPart(b, r, m, Index(offset), i, n, little);
        r := ConcatCreate(b, r);
      }
      forall a ensures Eval(r, a) == Load(old(Bytes(a)), offset, n, little) {
        AllParts(r, m, Index(offset), n, little, a);
      }
    }

    method ReadPartAt(offset: nat, i: nat, n: nat, little: bool, ghost m: Layers) returns (r: Expr)
      requires Valid() && i < n && offset + n <= size
      requires |m.cells| == size && forall a :: Bytes(a) == Contents(m, a)
      modifies Repr
      ensures Kept() && Valid() && forall a :: Bytes(a) == old(Bytes(a))
      ensures PartRead(r, m, Index(offset), i, n, little)
    {
      r := Read8(offset + ByteIndex(i, n, little));
    }

    /** A read: the offset is cut to 32 bits, and a constant one is read directly. Where the
        whole range is in bounds the result is the value stored there. */
    method Read(offset: Expr, width: nat, little: bool) returns (r: Expr)
      requires Valid() && WellTyped(offset) && IsAccessWidth(width) && AccessSize(width) <= Bits.Pow2(INDEX_BITS)
      requires Accessible(size, ZExtCreate(offset, INDEX_BITS), AccessSize(width), little)
      modifies Repr
      ensures Kept() && Valid() && forall a :: Bytes(a) == old(Bytes(a))
      ensures WellTyped(r) && Width(r) == width
      ensures forall a :: Bits.Trunc(Eval(offset, a), 32) + AccessSize(width) <= size ==>
                Eval(r, a) == LoadWidth(old(Bytes(a)), Bits.Trunc(Eval(offset, a), 32), width, little)
      ensures forall a :: Bits.Trunc(Eval(offset, a), 32) + AccessSize(width) <= size && 1 < width ==>
                LaidOut(old(Bytes(a)), Bits.Trunc(Eval(offset, a), 32), Eval(r, a), width / 8, little)
    {
      hide LaidOut;
      ghost var m := View();
      var index := ZExtCreate(offset, INDEX_BITS);
      forall a ensures Eval(index, a) == Bits.Trunc(Eval(offset, a), 32) {
        ZExtValue(offset, INDEX_BITS, a);
      }
      if index.Constant? {
        r := ReadAt(index.value, width, little);
      } else if width == 1 {
        var b := Read8Symbolic(index);
        r := ExtractCreate(b, 0, 1);
        forall a ensures Eval(r, a) == Bits.Slice(Eval(b, a), 0, 1) {
          ExtractValue(b, 0, 1, a);
        }
      } else {
        r := ReadBytesSymbolic(index, width / 8, little);
      }
      forall a | Bits.Trunc(Eval(offset, a), 32) + AccessSize(width) <= size && 1 < width
        ensures LaidOut(old(Bytes(a)), Bits.Trunc(Eval(offset, a), 32), Eval(r, a), width / 8, little)
      {
        LoadedFromLayers(m, Bits.Trunc(Eval(offset, a), 32), width, little, a);
      }
    }

    method ReadBytesSymbolic(index: Expr, n: nat, little: bool) returns (r: Expr)
      requires Valid() && IsIndex(index) && 0 < n <= Bits.Pow2(INDEX_BITS) && StaysSymbolic(index, n, little)
      modifies Repr
      ensures Kept() && Valid() && forall a :: Bytes(a) == old(Bytes(a))
      ensures WellTyped(r) && Width(r) == 8 * n
      ensures forall a :: Eval(index, a) + n <= size ==> Eval(r, a) == Load(old(Bytes(a)), Eval(index, a), n, little)
    {
      ghost var m := View();
      r := ReadPartSymbolic(index, 0, n, little, m);
      FirstPart(r, m, index, n, little);
      for i := 1 to n
        invariant Kept() && Valid() && forall a :: Bytes(a) == old(Bytes(a))
        invariant PartsRead(r, m, index, i, n, little)
      {
        var b := ReadPartSymbolic(index, i, n, little, m);
        NextPart(b, r, m, index, i, n, little);
        r := ConcatCreate(b, r);
      }
      forall a | Eval(index, a) + n <= size ensures Eval(r, a) == Load(old(Bytes(a)), Eval(index, a), n, little) {
        AllParts(r, m, index, n, little, a);
      }
    }

    method ReadPartSymbolic(index: Expr, i: nat, n: nat, little: bool, ghost m: Layers) returns (r: Expr)
      requires Valid() && IsIndex(index) && i < n <= Bits.Pow2(INDEX_BITS) && StaysSymbolic(index, n, little)
      requires |m.cells| == size && forall a :: Bytes(a) == Contents(m, a)
      modifies Repr
      ensures Kept() && Valid() && forall a :: Bytes(a) == old(Bytes(a))
      ensures PartRead(r, m, index, i, n, little)
    {
      r := Read8Symbolic(PartOffset(index, i, n, little));
      forall a | Eval(index, a) + n <= size
        ensures Eval(r, a) == Contents(m, a)[Eval(index, a) + ByteIndex(i, n, little)]
      {
        PartOffsetValue(index, i, n, little, a);
        Bits.TruncWhole(Eval(index, a) + ByteIndex(i, n, little), 32);
      }
    }

    /** A write of a constant of n bytes. */
    method WriteWord(offset: nat, value: nat, n: nat, little: bool)
      requires Valid() && offset + n <= size
      modifies Repr
      ensures Kept() && Valid() && forall a :: Bytes(a) == StoreValue(old(Bytes(a)), offset, value, n, little)
      ensures forall a :: LaidOut(Bytes(a), offset, value, n, little)
    {
      hide LaidOut;
      ghost var m, index, v := View(), Index(offset), Constant(value, 8 * n);
      WordInLayers(m, offset, value, n, little);
      for i := 0 to n
        invariant Kept() && Valid() && PartsStored(View(), m, index, v, i, n, little)
      {
        ghost var mid := View();
        WriteWordPart(offset, value, i, n, little);
        NextPartStored(View(), mid, m, index, v, i, n, little);
      }
    }

    method WriteWordPart(offset: nat, value: nat, i: nat, n: nat, little: bool)
      requires Valid() && i < n && offset + n <= size
      modifies Repr
      ensures Kept() && Valid() && PartStored(View(), old(View()), Index(offset), Constant(value, 8 * n), i, n, little)
    {
      Bits.Pow2Widths();
      Bits.TruncWhole(offset + ByteIndex(i, n, little), 32);
      Write8(offset + ByteIndex(i, n, little), Bits.Slice(value, 8 * i, 8));
      forall a
        ensures Contents(View(), a)
             == Store(Contents(old(View()), a), offset + ByteIndex(i, n, little), Bits.Slice(value, 8 * i, 8))
      {
        assert Bytes(a) == old(Bytes(a))[offset + ByteIndex(i, n, little) := Bits.Slice(value, 8 * i, 8)];
      }
    }

    /** A write at a concrete offset. */
    method WriteAt(offset: nat, value: Expr, little: bool)
      requires Valid() && WellTyped(value) && IsAccessWidth(Width(value)) && offset + AccessSize(Width(value)) <= size
      modifies Repr
      ensures Kept() && Valid()
      ensures forall a :: Bytes(a) == StoreWidth(old(Bytes(a)), offset, Eval(value, a), Width(value), little)
    {
      var w := Width(value);
      if value.Constant? && w == 1 {
        Bits.Pow2Widths();
        Write8(offset, value.value);
      } else if value.Constant? && (w == 8 || w == 16 || w == 32 || w == 64) {
        WriteWord(offset, value.value, w / 8, little);
      } else if w == 1 {
        ZExtToByte(value);
        Write8Expr(offset, ZExtCreate(value, BYTE_BITS));
      } else {
        WriteBytesAt(offset, value, w / 8, little);
      }
    }

    static lemma {:induction false} ZExtToByte(value: Expr)
      requires IsBool(value)
      ensures forall a :: Eval(ZExtCreate(value, BYTE_BITS), a) == Eval(value, a)
    {
      forall a ensures Eval(ZExtCreate(value, BYTE_BITS), a) == Eval(value, a) {
        ZExtValue(value, BYTE_BITS, a);
        BoolValue(value, a);
        Bits.Pow2Widths();
        Bits.TruncWhole(Eval(value, a), BYTE_BITS);
      }
    }

    method WriteBytesAt(offset: nat, value: Expr, n: nat, little: bool)
      requires Valid() && WellTyped(value) && Width(value) == 8 * n && offset + n <= size
      modifies Repr
      ensures Kept() && Valid()
      ensures forall a :: Bytes(a) == StoreValue(old(Bytes(a)), offset, Eval(value, a), n, little)
    {
      ghost var m, index := View(), Index(offset);
      for i := 0 to n
        invariant Kept() && Valid() && PartsStored(View(), m, index, value, i, n, little)
      {
        ghost var mid := View();
        WritePartAt(offset, value, i, n, little);
        NextPartStored(View(), mid, m, index, value, i, n, little);
      }
    }

    method WritePartAt(offset: nat, value: Expr, i: nat, n: nat, little: bool)
      requires Valid() && WellTyped(value) && Width(value) == 8 * n && i < n && offset + n <= size
      modifies Repr
      ensures Kept() && Valid() && PartStored(View(), old(View()), Index(offset), value, i, n, little)
    {
      Bits.Pow2Widths();
      Bits.TruncWhole(offset + ByteIndex(i, n, little), 32);
      forall a ensures Eval(ExtractCreate(value, 8 * i, 8), a) == Bits.Slice(Eval(value, a), 8 * i, 8) {
        ExtractValue(value, 8 * i, 8, a);
      }
      Write8Expr(offset + ByteIndex(i, n, little), ExtractCreate(value, 8 * i, 8));
    }

    /** A write: like a store into a plain byte array under every assignment, wherever the
        offset points; where that is in bounds, the bytes there are the value's in the byte order. */
    method Write(offset: Expr, value: Expr, little: bool)
      requires Valid() && WellTyped(offset) && WellTyped(value) && IsAccessWidth(Width(value))
      requires AccessSize(Width(value)) <= Bits.Pow2(INDEX_BITS)
      requires Accessible(size, ZExtCreate(offset, INDEX_BITS), AccessSize(Width(value)), little)
      modifies Repr
      ensures Kept() && Valid()
      ensures forall a :: Bytes(a)
                == StoreWidth(old(Bytes(a)), Bits.Trunc(Eval(offset, a), 32), Eval(value, a), Width(value), little)
      ensures forall a :: Bits.Trunc(Eval(offset, a), 32) + AccessSize(Width(value)) <= size ==>
                LaidOut(Bytes(a), Bits.Trunc(Eval(offset, a), 32), Eval(value, a), AccessSize(Width(value)), little)
    {
      hide LaidOut, StoreWidth, Contents, ObjectLayers.Valid, Allocated;
      ghost var m := View();
      WriteCut(offset, value, little);
      StoredInLayers(m, offset, value, little);
    }

    /** The write itself: the offset is cut to 32 bits. */
    method WriteCut(offset: Expr, value: Expr, little: bool)
      requires Valid() && WellTyped(offset) && WellTyped(value) && IsAccessWidth(Width(value))
      requires AccessSize(Width(value)) <= Bits.Pow2(INDEX_BITS)
      requires Accessible(size, ZExtCreate(offset, INDEX_BITS), AccessSize(Width(value)), little)
      modifies Repr
      ensures Kept() && Valid()
      ensures forall a :: Bytes(a)
                == StoreWidth(old(Bytes(a)), Bits.Trunc(Eval(offset, a), 32), Eval(value, a), Width(value), little)
    {
      var index := ZExtCreate(offset, INDEX_BITS);
      forall a ensures Eval(index, a) == Bits.Trunc(Eval(offset, a), 32) {
        ZExtValue(offset, INDEX_BITS, a);
      }
      if index.Constant? {
        WriteAt(index.value, value, little);
      } else if Width(value) == 1 {
        ZExtToByte(value);
        Write8Symbolic(index, ZExtCreate(value, BYTE_BITS));
      } else {
        WriteBytesSymbolic(index, value, Width(value) / 8, little);
      }
    }

    method WriteBytesSymbolic(index: Expr, value: Expr, n: nat, little: bool)
      requires Valid() && IsIndex(index) && WellTyped(value) && Width(value) == 8 * n
      requires n <= Bits.Pow2(INDEX_BITS) && StaysSymbolic(index, n, little)
      modifies Repr
      ensures Kept() && Valid()
      ensures forall a :: Bytes(a) == StoreValue(old(Bytes(a)), Eval(index, a), Eval(value, a), n, little)
    {
      ghost var m := View();
      NothingStored(m, index, value, n, little);
      for i := 0 to n
        invariant Kept() && Valid() && PartsStored(View(), m, index, value, i, n, little)
      {
        ghost var mid := View();
        WritePartSymbolic(index, value, i, n, little);
        NextPartStored(View(), mid, m, index, value, i, n, little);
      }
      EverythingStored(View(), m, index, value, n, little);
    }

    method WritePartSymbolic(index: Expr, value: Expr, i: nat, n: nat, little: bool)
      requires Valid() && IsIndex(index) && WellTyped(value) && Width(value) == 8 * n && i < n
      requires n <= Bits.Pow2(INDEX_BITS) && !PartOffset(index, i, n, little).Constant?
      modifies Repr
      ensures Kept() && Valid() && PartStored(View(), old(View()), index, value, i, n, little)
    {
      forall a ensures Eval(ExtractCreate(value, 8 * i, 8), a) == Bits.Slice(Eval(value, a), 8 * i, 8) {
        ExtractValue(value, 8 * i, 8, a);
      }
      forall a
        ensures Eval(PartOffset(index, i, n, little), a) == Bits.Trunc(Eval(index, a) + ByteIndex(i, n, little), 32)
      {
        PartOffsetValue(index, i, n, little, a);
      }
      Write8Symbolic(PartOffset(index, i, n, little), ExtractCreate(value, 8 * i, 8));
    }
  }
}
