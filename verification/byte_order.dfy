/** Values of several bytes in a plain byte array, in either byte order. */
module ByteOrder {
  import Bits

  /** A plain array store; an index outside the array changes nothing. */
  function Store(bytes: seq<nat>, i: nat, v: nat): (r: seq<nat>)
    ensures |r| == |bytes|
  {
    if i < |bytes| then bytes[i := v] else bytes
  }

  /** Which byte of an n-byte value holds its bits 8i to 8i + 7. */
  function ByteIndex(i: nat, n: nat, little: bool): (k: nat)
    requires i < n
    ensures k < n
  {
    if little then i else n - i - 1
  }

  /** The number whose bytes are given least significant first. */
  function Assemble(bytes: seq<nat>): (v: nat) {
    if bytes == [] then 0
    else Bits.Join(bytes[|bytes| - 1], Assemble(bytes[..|bytes| - 1]), 8 * (|bytes| - 1))
  }

  /** The bytes of the n-byte value at `off`, least significant first. */
  function Parts(bytes: seq<nat>, off: nat, n: nat, little: bool): (ps: seq<nat>)
    requires off + n <= |bytes|
    ensures |ps| == n
  {
    seq(n, i requires 0 <= i < n => bytes[off + ByteIndex(i, n, little)])
  }

  function Load(bytes: seq<nat>, off: nat, n: nat, little: bool): (v: nat)
    requires off + n <= |bytes|
  {
    Assemble(Parts(bytes, off, n, little))
  }

  /** Stores the k least significant bytes of v, of n, at 32-bit offset `off`. */
  function StoreParts(bytes: seq<nat>, off: nat, v: nat, k: nat, n: nat, little: bool): (r: seq<nat>)
    requires k <= n
    ensures |r| == |bytes|
    decreases k
  {
    if k == 0 then bytes
    else
      Store(StoreParts(bytes, off, v, k - 1, n, little),
            Bits.Trunc(off + ByteIndex(k - 1, n, little), 32),
            Bits.Slice(v, 8 * (k - 1), 8))
  }

  function StoreValue(bytes: seq<nat>, off: nat, v: nat, n: nat, little: bool): (r: seq<nat>) {
    StoreParts(bytes, off, v, n, n, little)
  }

  // --- Loads return what was stored -------------------------------------------------------

  /** Which part of an n-byte value lies j bytes after its start. */
  function PartAt(j: nat, n: nat, little: bool): (i: nat)
    requires j < n
    ensures i < n && ByteIndex(i, n, little) == j
  {
    if little then j else n - j - 1
  }

  /** The stored bytes are the value's, the others are untouched. */
  lemma {:induction false} StorePartsAt(bytes: seq<nat>, off: nat, v: nat, k: nat, n: nat, little: bool, j: nat)
    requires k <= n && off + n <= |bytes| <= Bits.Pow2(32) && j < |bytes|
    ensures StoreParts(bytes, off, v, k, n, little)[j]
         == if off <= j < off + n && PartAt(j - off, n, little) < k
            then Bits.Slice(v, 8 * PartAt(j - off, n, little), 8) else bytes[j]
    decreases k
  {
    if k > 0 {
      StorePartsAt(bytes, off, v, k - 1, n, little, j);
      Bits.TruncWhole(off + ByteIndex(k - 1, n, little), 32);
    }
  }

  lemma {:induction false} AssembleSlices(v: nat, ps: seq<nat>)
    requires forall i :: 0 <= i < |ps| ==> ps[i] == Bits.Slice(v, 8 * i, 8)
    ensures Assemble(ps) == Bits.Trunc(v, 8 * |ps|)
  {
    if ps != [] {
      var k := |ps| - 1;
      AssembleSlices(v, ps[..k]);
      Bits.SliceSplit(v, 0, 8 * k, 8);
      assert Bits.Drop(v, 0) == v;
    }
  }

  /** A load of the stored range yields the stored value. */
  lemma {:induction false} LoadAfterStore(bytes: seq<nat>, off: nat, v: nat, n: nat, little: bool)
    requires off + n <= |bytes| <= Bits.Pow2(32)
    ensures Load(StoreValue(bytes, off, v, n, little), off, n, little) == Bits.Trunc(v, 8 * n)
  {
    var ps := Parts(StoreValue(bytes, off, v, n, little), off, n, little);
    forall i | 0 <= i < n ensures ps[i] == Bits.Slice(v, 8 * i, 8) {
      StorePartsAt(bytes, off, v, n, n, little, off + ByteIndex(i, n, little));
    }
    AssembleSlices(v, ps);
  }

  /** A load elsewhere is not affected. */
  lemma {:induction false} LoadBesideStore(bytes: seq<nat>, off: nat, v: nat, n: nat, off': nat, n': nat, little: bool)
    requires off + n <= |bytes| <= Bits.Pow2(32) && off' + n' <= |bytes|
    requires off' + n' <= off || off + n <= off'
    ensures Load(StoreValue(bytes, off, v, n, little), off', n', little) == Load(bytes, off', n', little)
  {
    forall i | 0 <= i < n'
      ensures Parts(StoreValue(bytes, off, v, n, little), off', n', little)[i] == Parts(bytes, off', n', little)[i]
    {
      StorePartsAt(bytes, off, v, n, n, little, off' + ByteIndex(i, n', little));
    }
    assert Parts(StoreValue(bytes, off, v, n, little), off', n', little) == Parts(bytes, off', n', little);
  }

  // --- Which byte comes first -----------------------------------------------------------------

  /** The n bytes from `off` on are the value's: the lowest comes first in little-endian order
      and last in big-endian order. */
  predicate LaidOut(bytes: seq<nat>, off: nat, v: nat, n: nat, little: bool)
    requires off + n <= |bytes|
  {
    forall k :: off <= k < off + n ==>
      bytes[k] == if little then Bits.Slice(v, 8 * (k - off), 8) else Bits.Slice(v, 8 * (off + n - 1 - k), 8)
  }

  lemma {:induction false} StoredLaidOut(bytes: seq<nat>, off: nat, v: nat, n: nat, little: bool)
    requires off + n <= |bytes| <= Bits.Pow2(32)
    ensures LaidOut(StoreValue(bytes, off, v, n, little), off, v, n, little)
    ensures forall j :: 0 <= j < |bytes| && !(off <= j < off + n) ==>
              StoreValue(bytes, off, v, n, little)[j] == bytes[j]
  {
    hide Bits.Slice;
    forall j | 0 <= j < |bytes|
      ensures StoreValue(bytes, off, v, n, little)[j]
           == if off <= j < off + n then Bits.Slice(v, 8 * (if little then j - off else n - 1 - (j - off)), 8)
              else bytes[j]
    {
      StorePartsAt(bytes, off, v, n, n, little, j);
    }
  }

  lemma {:induction false} AssembledSlices(ps: seq<nat>, i: nat)
    requires i < |ps| && forall k :: 0 <= k < |ps| ==> ps[k] < 0x100
    ensures Bits.Slice(Assemble(ps), 8 * i, 8) == ps[i]
    decreases |ps|
  {
    hide Bits.Slice, Bits.Join;
    var k := |ps| - 1;
    if i < k {
      AssembledSlices(ps[..k], i);
      Bits.SliceLow(ps[k], Assemble(ps[..k]), 8 * k, 8 * i, 8);
    } else {
      Bits.SliceHigh(ps[k], Assemble(ps[..k]), 8 * k, 8 * k, 8);
      WholeByte(ps[k]);
    }
  }

  lemma {:induction false} WholeByte(b: nat)
    requires b < 0x100
    ensures Bits.Slice(b, 0, 8) == b
  {
    Bits.Pow2Widths();
    Bits.TruncWhole(b, 8);
  }

  lemma {:induction false} LoadedLaidOut(bytes: seq<nat>, off: nat, n: nat, little: bool)
    requires off + n <= |bytes| && forall k :: 0 <= k < |bytes| ==> bytes[k] < 0x100
    ensures LaidOut(bytes, off, Load(bytes, off, n, little), n, little)
  {
    hide Bits.Slice, Assemble;
    var ps := Parts(bytes, off, n, little);
    forall i | 0 <= i < n ensures Bits.Slice(Assemble(ps), 8 * i, 8) == ps[i] {
      AssembledSlices(ps, i);
    }
    forall k | off <= k < off + n
      ensures bytes[k] == Bits.Slice(Assemble(ps), 8 * (if little then k - off else off + n - 1 - k), 8)
    {
      var i := if little then k - off else off + n - 1 - k;
      assert ps[i] == bytes[k];
    }
  }

  /** Two bytes as a number, in either order. */
  lemma {:induction false} TwoBytes(bytes: seq<nat>, off: nat)
    requires off + 2 <= |bytes| && bytes[off] < 0x100 && bytes[off + 1] < 0x100
    ensures Load(bytes, off, 2, true) == bytes[off] + 0x100 * bytes[off + 1]
    ensures Load(bytes, off, 2, false) == 0x100 * bytes[off] + bytes[off + 1]
  {
    hide Assemble;
    TwoParts(bytes[off], bytes[off + 1]);
    TwoParts(bytes[off + 1], bytes[off]);
    assert Parts(bytes, off, 2, true) == [bytes[off], bytes[off + 1]];
    assert Parts(bytes, off, 2, false) == [bytes[off + 1], bytes[off]];
  }

  lemma {:induction false} TwoParts(low: nat, high: nat)
    requires low < 0x100
    ensures Assemble([low, high]) == low + 0x100 * high
  {
    Bits.Pow2Widths();
    Bits.JoinIsSum(high, low, 8);
    assert [low, high][..1] == [low] && [low][..0] == [];
    assert Assemble([low]) == Bits.Join(low, Assemble([low][..0]), 0) == low;
  }
}
