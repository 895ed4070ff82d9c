/** Whole histories of one memory object: however loads and stores at constant and symbolic
    offsets alternate, the three layers answer as one plain byte array would. */
module ObjectHistories {
  import Bits
  import opened Exprs
  import opened Slices
  import opened ObjectLayers
  import opened ObjectStates

  datatype Access = Fetch(offset: Expr, width: nat) | Put(offset: Expr, value: Expr)

  /** What the object's read and write accept. */
  ghost predicate Accepts(size: nat, access: Access, little: bool) {
    var w := if access.Fetch? then access.width else Width(access.value);
    && WellTyped(access.offset) && (access.Put? ==> WellTyped(access.value))
    && IsAccessWidth(w) && AccessSize(w) <= Bits.Pow2(INDEX_BITS)
    && Accessible(size, ZExtCreate(access.offset, INDEX_BITS), AccessSize(w), little)
  }

  /** Where an access starts: offsets are cut to 32 bits. */
  function Start(access: Access, a: Assignment): (i: nat) {
    Bits.Trunc(Eval(access.offset, a), 32)
  }

  /** What a plain byte array holds after the accesses. */
  function Replayed(bytes: seq<nat>, history: seq<Access>, little: bool, a: Assignment): (r: seq<nat>)
    ensures |r| == |bytes|
  {
    if history == [] then bytes
    else
      var before, last := Replayed(bytes, history[..|history| - 1], little, a), history[|history| - 1];
      if last.Fetch? then before
      else StoreWidth(before, Start(last, a), Eval(last.value, a), Width(last.value), little)
  }

  /** The answer to a load is what the byte array holds there, wherever all of it is in bounds. */
  ghost predicate Answered(r: Expr, access: Access, bytes: seq<nat>, little: bool, a: Assignment) {
    access.Fetch? && IsAccessWidth(access.width) && Start(access, a) + AccessSize(access.width) <= |bytes| ==>
      Eval(r, a) == LoadWidth(bytes, Start(access, a), access.width, little)
  }

  method PerformAccess(os: ObjectState, access: Access, little: bool) returns (r: Expr)
    requires os.Valid() && Accepts(os.size, access, little)
    modifies os.Repr
    ensures os.Kept() && os.Valid()
    ensures forall a :: Answered(r, access, old(os.Bytes(a)), little, a)
    ensures forall a :: os.Bytes(a)
              == if access.Fetch? then old(os.Bytes(a))
                 else StoreWidth(old(os.Bytes(a)), Start(access, a), Eval(access.value, a), Width(access.value), little)
  {
    hide StoreWidth, LoadWidth;
    match access
    case Fetch(offset, width) =>
      r := os.Read(offset, width, little);
    case Put(offset, value) =>
      os.Write(offset, value, little);
      r := value;
  }

  /** A history of any length, on any object. */
  method Replay(os: ObjectState, history: seq<Access>, little: bool) returns (answers: seq<Expr>)
    requires os.Valid() && forall k :: 0 <= k < |history| ==> Accepts(os.size, history[k], little)
    modifies os.Repr
    ensures os.Kept() && os.Valid() && |answers| == |history|
    ensures forall a :: os.Bytes(a) == Replayed(old(os.Bytes(a)), history, little, a)
    ensures forall k, a :: 0 <= k < |history| ==>
              Answered(answers[k], history[k], Replayed(old(os.Bytes(a)), history[..k], little, a), little, a)
  {
    hide Answered, Accepts;
    answers := [];
    for i := 0 to |history|
      invariant os.Kept() && os.Valid() && |answers| == i
      invariant forall a :: os.Bytes(a) == Replayed(old(os.Bytes(a)), history[..i], little, a)
      invariant forall k, a :: 0 <= k < i ==>
                  Answered(answers[k], history[k], Replayed(old(os.Bytes(a)), history[..k], little, a), little, a)
    {
      var r := PerformAccess(os, history[i], little);
      assert history[..i + 1][..i] == history[..i];
      answers := answers + [r];
    }
    assert history[..|history|] == history;
  }
}
