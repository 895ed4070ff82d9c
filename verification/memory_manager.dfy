/** The deterministic allocator: a cursor that moves through one preallocated space. It is
    where the order and the gaps that pointer resolution relies on come from. */
module MemoryManagers {
  import Bits
  import opened Constructors
  import opened AddressSpaces
  import opened Resolution

  const LIMIT: nat := 0x1_0000_0000_0000_0000

  /** The 64-bit sum of two 64-bit numbers. */
  function Plus(x: nat, y: nat): (r: nat)
    requires x < LIMIT && y < LIMIT
    ensures r < LIMIT
  {
    if x + y < LIMIT then x + y else x + y - LIMIT
  }

  /** The last multiple of 2^k that is not above x. */
  function RoundDown(x: nat, k: nat): (r: nat)
    ensures r <= x < r + Bits.Pow2(k) && Bits.Trunc(r, k) == 0
  {
    Bits.Pow2Double(if 0 < k then k - 1 else 0);
    if k == 0 then x else 2 * RoundDown(x / 2, k - 1)
  }

  predicate IsPowerOf2(a: nat)
    decreases a
  {
    a == 1 || (a > 1 && a % 2 == 0 && IsPowerOf2(a / 2))
  }

  function Exponent(a: nat): (k: nat)
    requires IsPowerOf2(a)
    ensures a == Bits.Pow2(k)
    decreases a
  {
    Bits.Pow2Double(if a == 1 then 0 else Exponent(a / 2));
    if a == 1 then 0 else 1 + Exponent(a / 2)
  }

  /** Where the next object would go. */
  function Slot(next: nat, alignment: nat): (address: nat)
    requires IsPowerOf2(alignment) && next < LIMIT && alignment < LIMIT
    ensures address < LIMIT
  {
    RoundDown(Plus(Plus(next, alignment - 1), alignment - 1), Exponent(alignment))
  }

  /** A request of no bytes still takes up one. */
  function Reserved(size: nat): (n: nat) {
    if size == 0 then 1 else size
  }

  /** Nothing in placing the request exceeds 64 bits. */
  predicate Fits(next: nat, size: nat, alignment: nat)
    requires IsPowerOf2(alignment) && next < LIMIT && alignment < LIMIT
  {
    next + 2 * (alignment - 1) < LIMIT && Slot(next, alignment) + Reserved(size) < LIMIT
  }

  /** A 64-bit power of two is at most half of what 64 bits can count. */
  lemma {:induction false} PowersFit(a: nat)
    requires IsPowerOf2(a) && a < LIMIT
    ensures 0 < a <= 0x8000_0000_0000_0000
  {
    Bits.Pow2Widths();
    Bits.Pow2Double(63);
    if Exponent(a) >= 64 {
      Bits.Pow2Monotone(64, Exponent(a));
    } else {
      Bits.Pow2Monotone(Exponent(a), 63);
    }
  }

  /** The slot is past the cursor exactly when finding it did not wrap around. */
  lemma {:induction false} SlotPastCursor(next: nat, alignment: nat)
    requires IsPowerOf2(alignment) && alignment <= 0x8000_0000_0000_0000 && next < LIMIT
    ensures next <= Slot(next, alignment) <==> next + 2 * (alignment - 1) < LIMIT
  {
  }

  /** A request is placed past the cursor and ends past its place exactly when it fits. */
  lemma {:induction false} Placement(next: nat, size: nat, alignment: nat)
    requires IsPowerOf2(alignment) && next < LIMIT && size < LIMIT && alignment < LIMIT
    ensures Bits.Trunc(Slot(next, alignment), Exponent(alignment)) == 0
    ensures Fits(next, size, alignment) <==>
      next <= Slot(next, alignment)
      && Plus(Slot(next, alignment), Reserved(size)) == Slot(next, alignment) + Reserved(size)
  {
    PowersFit(alignment);
    SlotPastCursor(next, alignment);
  }

  /** The object takes up no more than was reserved for it, although its size is cut. */
  lemma {:induction false} CutSize(address: nat, size: nat)
    ensures Extent(MemoryObject(address, size % 0x1_0000_0000)) <= Reserved(size)
    ensures 0 < Reserved(size) && (size < LIMIT ==> Reserved(size) < LIMIT)
  {
  }

  class MemoryManager {
    const deterministicSpace: nat
    const spaceSize: nat
    const redZone: nat
    var nextFreeSlot: nat
    var objects: seq<MemoryObject>

    /** The objects lie in the space in address order, each followed by its red zone. */
    ghost predicate Valid()
      reads this
    {
      && deterministicSpace + spaceSize + redZone < LIMIT
      && deterministicSpace <= nextFreeSlot < LIMIT
      && (forall i :: 0 <= i < |objects| ==>
            && deterministicSpace <= objects[i].address
            && objects[i].address + Extent(objects[i]) < deterministicSpace + spaceSize
            && objects[i].address + Extent(objects[i]) + redZone <= nextFreeSlot)
      && (forall i, j :: 0 <= i < j < |objects| ==>
            objects[i].address + Extent(objects[i]) + redZone <= objects[j].address)
    }

    /** What resolution needs follows. */
    lemma {:induction false} ValidInOrder()
      requires Valid()
      ensures InOrder(objects)
    {
      Bits.Pow2Widths();
    }

    constructor (deterministicSpace: nat, spaceSize: nat, redZone: nat)
      requires deterministicSpace + spaceSize + redZone < LIMIT
      ensures Valid() && objects == [] && nextFreeSlot == deterministicSpace
      ensures this.deterministicSpace == deterministicSpace && this.spaceSize == spaceSize && this.redZone == redZone
    {
      this.deterministicSpace, this.spaceSize, this.redZone := deterministicSpace, spaceSize, redZone;
      nextFreeSlot, objects := deterministicSpace, [];
    }

    /** The space and the cursor are within 64 bits. */
    predicate Sane()
      reads this
    {
      deterministicSpace + spaceSize + redZone < LIMIT && nextFreeSlot < LIMIT
    }

    /** A new object, or none when the alignment is not a power of two or the space is used
        up. The object keeps the low 32 bits of its size. It is placed past the cursor, and the
        cursor past it, exactly when no 64-bit sum wrapped around; then the order is kept. */
    method Allocate(size: nat, alignment: nat) returns (r: Option<MemoryObject>)
      requires Sane() && size < LIMIT && alignment < LIMIT
      modifies this
      ensures Sane()
      ensures r.Some? <==>
        IsPowerOf2(alignment) && Slot(old(nextFreeSlot), alignment) != 0
        && Plus(Slot(old(nextFreeSlot), alignment), Reserved(size)) < deterministicSpace + spaceSize
      ensures r.Some? ==> r.value == MemoryObject(Slot(old(nextFreeSlot), alignment), size % 0x1_0000_0000)
      ensures r.Some? ==> Bits.Trunc(r.value.address, Exponent(alignment)) == 0
      ensures objects == if r.Some? then old(objects) + [r.value] else old(objects)
      ensures r.Some? ==> nextFreeSlot == Plus(r.value.address, Reserved(size)) + redZone
      ensures r.Some? ==>
        (Fits(old(nextFreeSlot), size, alignment) <==>
           old(nextFreeSlot) <= r.value.address && r.value.address + Reserved(size) + redZone == nextFreeSlot)
      ensures old(Valid()) && IsPowerOf2(alignment) && Fits(old(nextFreeSlot), size, alignment) ==> Valid()
    {
      hide Slot, Fits, IsPowerOf2, Reserved, Extent;
      if !IsPowerOf2(alignment) {
        return None;
      }
      Placement(nextFreeSlot, size, alignment);
      CutSize(Slot(nextFreeSlot, alignment), size);
      var address := Slot(nextFreeSlot, alignment);
      var end := Plus(address, Reserved(size));
      if end < deterministicSpace + spaceSize {
        nextFreeSlot := end + redZone;
      } else {
        address := 0;
      }
      if address == 0 {
        return None;
      }
      r := Some(MemoryObject(address, size % 0x1_0000_0000));
      objects := objects + [r.value];
    }

    method MarkFreed(mo: MemoryObject)
      requires Valid()
      modifies this
      ensures Valid() && forall o :: o in objects <==> o in old(objects) && o != mo
    {
      var i := 0;
      while i < |objects| && objects[i] != mo
        invariant i <= |objects| && forall j :: 0 <= j < i ==> objects[j] != mo
      {
        i := i + 1;
      }
      if i < |objects| {
        forall j | i < j < |objects| ensures objects[j] != mo {
          assert objects[i].address != objects[j].address;
        }
        Without(objects, i);
        objects := objects[..i] + objects[i + 1..];
      }
    }
  }

  lemma {:induction false} Without(s: seq<MemoryObject>, i: nat)
    requires i < |s| && forall j :: 0 <= j < |s| && j != i ==> s[j] != s[i]
    ensures forall o :: o in s[..i] + s[i + 1..] <==> o in s && o != s[i]
  {
  }

  /** The largest sizes wrap: where the first object goes, where its end and the cursor are
      computed to be, and where the next object goes. */
  lemma {:induction false} HugeSizeWraps()
    ensures IsPowerOf2(8) && !Fits(0x7ff_3000_0000, 0xFFFF_FFFF_FFFF_FFF0, 8)
    ensures Slot(0x7ff_3000_0000, 8) == 0x7ff_3000_0008
    ensures Plus(0x7ff_3000_0008, 0xFFFF_FFFF_FFFF_FFF0) + 10 == 0x7ff_3000_0002
    ensures Slot(0x7ff_3000_0002, 8) == 0x7ff_3000_0010
  {
    assert IsPowerOf2(4);
    assert Exponent(8) == 1 + Exponent(4) == 3;
    Eighths(0x7ff_3000_000E);
    Eighths(0x7ff_3000_0010);
  }

  lemma {:induction false} Eighths(x: nat)
    ensures RoundDown(x, 3) == 8 * (x / 8)
  {
    assert RoundDown(x / 2, 2) == 2 * RoundDown(x / 2 / 2, 1);
    assert RoundDown(x / 2 / 2, 1) == 2 * RoundDown(x / 2 / 2 / 2, 0);
  }

  /** So the second of two requests, made on a fresh space, is placed inside the first. */
  method HugeSizeOverlaps() returns (m: MemoryManager, first: Option<MemoryObject>, second: Option<MemoryObject>)
    ensures first.Some? && second.Some? && m.objects == [first.value, second.value]
    ensures first.value.address < second.value.address < first.value.address + Extent(first.value)
    ensures !InOrder(m.objects)
  {
    HugeSizeWraps();
    m := new MemoryManager(0x7ff_3000_0000, 0x640_0000, 10);
    first := m.Allocate(0xFFFF_FFFF_FFFF_FFF0, 8);
    second := m.Allocate(1, 8);
    assert m.objects[0].address + Extent(m.objects[0]) > m.objects[1].address;
  }
}
