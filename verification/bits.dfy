/** Fixed-width unsigned arithmetic as LLVM's APInt computes it: a value of width `w`
    is a natural number below `Pow2(w)`. The bit-moving operations are defined one bit at
    a time; `TruncIsMod`, `DropIsDiv` and `JoinIsSum` say what they compute. */
module Bits {

  /** Whether n exact halvings bring p down to one. */
  predicate IsPow2(n: nat, p: nat)
    decreases p
  {
    if 0 < n && 0 < p then p % 2 == 0 && IsPow2(n - 1, p / 2) else n == 0 && p == 1
  }

  lemma {:induction false} Pow2Unique(n: nat)
    ensures exists p: nat :: IsPow2(n, p)
    ensures forall p: nat, q: nat :: IsPow2(n, p) && IsPow2(n, q) ==> p == q
    ensures forall p: nat :: IsPow2(n, p) ==> n < p
  {
    if 0 < n {
      Pow2Unique(n - 1);
      var h: nat :| IsPow2(n - 1, h);
      assert (2 * h) / 2 == h;
      assert IsPow2(n, 2 * h);
    } else {
      assert IsPow2(0, 1);
    }
  }

  /** 2 to the power n. It is given implicitly so that proofs about widths do not unfold
      it; `Pow2Double` is its recurrence. */
  function Pow2(n: nat): (p: nat)
    ensures n < p
  {
    Pow2Unique(n);
    var p: nat :| IsPow2(n, p); p
  }

  lemma {:induction false} Pow2Double(n: nat)
    ensures Pow2(0) == 1 && Pow2(n + 1) == Pow2(n) + Pow2(n)
  {
    Pow2Unique(0);
    Pow2Unique(n);
    Pow2Unique(n + 1);
    assert (2 * Pow2(n)) / 2 == Pow2(n);
    assert IsPow2(n + 1, 2 * Pow2(n));
  }

  lemma {:induction false} Pow2Monotone(m: nat, n: nat)
    requires m <= n
    ensures Pow2(m) <= Pow2(n)
    decreases n - m
  {
    if m < n {
      Pow2Double(m);
      Pow2Monotone(m + 1, n);
    }
  }

  lemma {:induction false} WidthFits(w: nat)
    ensures w < Pow2(w)
  {
    Pow2Double(0);
    if w > 0 {
      WidthFits(w - 1);
      Pow2Double(w - 1);
    }
  }

  lemma {:induction false} Pow2Add(m: nat, n: nat)
    ensures Pow2(m + n) == Pow2(m) * Pow2(n)
  {
    Pow2Double(0);
    if m > 0 {
      Pow2Double(m - 1);
      Pow2Double(m - 1 + n);
      Pow2Add(m - 1, n);
      DoubleProduct(Pow2(m - 1), Pow2(n));
    }
  }

  lemma {:induction false} DoubleProduct(a: int, b: int)
    ensures (a + a) * b == a * b + a * b
  {
  }

  /** A byte has 256 values and a 32-bit word 2^32. */
  lemma {:induction false} Pow2Widths()
    ensures Pow2(1) == 2 && Pow2(8) == 0x100
    ensures Pow2(32) == 0x1_0000_0000 && Pow2(64) == 0x1_0000_0000_0000_0000
  {
    Pow2Double(0);
    Pow2Add(1, 1);
    Pow2Add(2, 2);
    Pow2Add(4, 4);
    Pow2Add(8, 8);
    Pow2Add(16, 16);
    Pow2Add(32, 32);
  }

  // --- Moving bits --------------------------------------------------------------------

  /** The low w bits of x. */
  function Trunc(x: nat, w: nat): (r: nat)
    ensures r < Pow2(w) && r <= x
  {
    Pow2Double(if 0 < w then w - 1 else 0);
    if 0 < w then 2 * Trunc(x / 2, w - 1) + x % 2 else 0
  }

  /** x without its low k bits. */
  function Drop(x: nat, k: nat): (r: nat)
    ensures r <= x
  {
    if 0 < k then Drop(x / 2, k - 1) else x
  }

  /** The w bits of x from bit `off` upwards. */
  function Slice(x: nat, off: nat, w: nat): (r: nat)
    ensures r < Pow2(w)
  {
    Trunc(Drop(x, off), w)
  }

  /** x above the low k bits of y. */
  function Join(x: nat, y: nat, k: nat): (r: nat)
    ensures x <= r
  {
    if 0 < k then 2 * Join(x, y / 2, k - 1) + y % 2 else x
  }

  lemma {:induction false} TruncIsMod(x: nat, w: nat)
    ensures Trunc(x, w) == x % Pow2(w)
  {
    Pow2Double(0);
    if w > 0 {
      Pow2Double(w - 1);
      TruncIsMod(x / 2, w - 1);
      HalfMod(x, Pow2(w - 1));
    }
  }

  lemma {:induction false} HalfMod(x: nat, m: nat)
    requires 0 < m
    ensures x % (m + m) == 2 * ((x / 2) % m) + x % 2
  {
    var q, r := (x / 2) / m, (x / 2) % m;
    assert x / 2 == m * q + r;
    DoubleProduct(m, q);
    DivUnique(x, m + m, q, 2 * r + x % 2);
  }

  lemma {:induction false} DropIsDiv(x: nat, k: nat)
    ensures Drop(x, k) == x / Pow2(k)
  {
    Pow2Double(0);
    if k > 0 {
      Pow2Double(k - 1);
      DropIsDiv(x / 2, k - 1);
      HalfDiv(x, Pow2(k - 1));
    }
  }

  lemma {:induction false} HalfDiv(x: nat, m: nat)
    requires 0 < m
    ensures x / (m + m) == (x / 2) / m
  {
    var q, r := (x / 2) / m, (x / 2) % m;
    assert x / 2 == m * q + r;
    DoubleProduct(m, q);
    DivUnique(x, m + m, q, 2 * r + x % 2);
  }

  lemma {:induction false} JoinIsSum(x: nat, y: nat, k: nat)
    requires y < Pow2(k)
    ensures Join(x, y, k) == x * Pow2(k) + y
  {
    Pow2Double(0);
    if k > 0 {
      Pow2Double(k - 1);
      JoinIsSum(x, y / 2, k - 1);
      Distribute(x, Pow2(k - 1), Pow2(k - 1));
    }
  }

  lemma {:induction false} Distribute(a: int, b: int, c: int)
    ensures a * (b + c) == a * b + a * c
  {
  }

  /** Division is the only way to write x as d * q + r with a small remainder. */
  lemma {:induction false} DivUnique(x: int, d: int, q: int, r: int)
    requires 0 < d && 0 <= r < d && x == d * q + r
    ensures x / d == q && x % d == r
  {
    var q', r' := x / d, x % d;
    assert x == d * q' + r' && 0 <= r' < d;
    QuotientsAgree(d, q, r, q', r');
  }

  lemma {:induction false} QuotientsAgree(d: int, q: int, r: int, q': int, r': int)
    requires 0 < d && 0 <= r < d && 0 <= r' < d && d * q + r == d * q' + r'
    ensures q == q' && r == r'
  {
    assert d * (q - q') == d * q - d * q';
    SmallMultiple(d, q - q');
  }

  lemma {:induction false} SmallMultiple(d: int, k: int)
    requires 0 < d && -d < d * k < d
    ensures k == 0
  {
    if k >= 1 {
      MulMonotone(d, 1, k);
    } else if k <= -1 {
      MulMonotone(d, k, -1);
    }
  }

  lemma {:induction false} MulMonotone(a: nat, b: int, c: int)
    requires b <= c
    ensures a * b <= a * c
  {
    assert a * (c - b) >= 0;
  }

  lemma {:induction false} TruncWhole(x: nat, w: nat)
    requires x < Pow2(w)
    ensures Trunc(x, w) == x
  {
    Pow2Double(0);
    if w > 0 {
      Pow2Double(w - 1);
      TruncWhole(x / 2, w - 1);
    }
  }

  lemma {:induction false} JoinBound(x: nat, y: nat, wx: nat, wy: nat)
    requires x < Pow2(wx)
    ensures Join(x, y, wy) < Pow2(wx + wy)
  {
    if wy > 0 {
      Pow2Double(wx + wy - 1);
      JoinBound(x, y / 2, wx, wy - 1);
    }
  }

  lemma {:induction false} DropDrop(x: nat, j: nat, k: nat)
    ensures Drop(x, j + k) == Drop(Drop(x, j), k)
  {
    if j > 0 {
      DropDrop(x / 2, j - 1, k);
    }
  }

  /** Dropping bits of the low part of a concatenation. */
  lemma {:induction false} DropJoin(x: nat, y: nat, k: nat, off: nat)
    requires off <= k
    ensures Drop(Join(x, y, k), off) == Join(x, Drop(y, off), k - off)
  {
    if off > 0 {
      DropJoin(x, y / 2, k - 1, off - 1);
    }
  }

  lemma {:induction false} TruncJoin(x: nat, y: nat, k: nat, w: nat)
    requires w <= k
    ensures Trunc(Join(x, y, k), w) == Trunc(y, w)
  {
    if w > 0 {
      TruncJoin(x, y / 2, k - 1, w - 1);
    }
  }

  lemma {:induction false} JoinStep(x: nat, y: nat, bit: nat, k: nat)
    requires bit < 2 && 0 < k
    ensures Join(x, 2 * y + bit, k) == 2 * Join(x, y, k - 1) + bit
  {
    assert (2 * y + bit) / 2 == y && (2 * y + bit) % 2 == bit;
  }

  lemma {:induction false} DropStep(x: nat, k: nat)
    ensures Drop(x, k) == if 0 < k then Drop(x / 2, k - 1) else x
  {
  }

  lemma {:induction false} JoinNothing(x: nat, y: nat)
    ensures Join(x, y, 0) == x
  {
  }

  lemma {:induction false} TruncSplit(x: nat, low: nat, high: nat)
    ensures Trunc(x, low + high) == Join(Trunc(Drop(x, low), high), Trunc(x, low), low)
  {
    hide Trunc, Drop, Join;
    DropStep(x, low);
    if low == 0 {
      JoinNothing(Trunc(x, high), Trunc(x, 0));
    } else {
      var h := x / 2;
      TruncSplit(h, low - 1, high);
      TruncStep(x, 0, low + high);
      TruncStep(x, 0, low);
      JoinStep(Trunc(Drop(h, low - 1), high), Trunc(h, low - 1), x % 2, low);
    }
  }

  /** A slice lying wholly in the high part of a concatenation. */
  lemma {:induction false} SliceHigh(x: nat, y: nat, k: nat, off: nat, w: nat)
    requires k <= off
    ensures Slice(Join(x, y, k), off, w) == Slice(x, off - k, w)
  {
    DropDrop(Join(x, y, k), k, off - k);
    DropJoin(x, y, k, k);
  }

  /** A slice lying wholly in the low part of a concatenation. */
  lemma {:induction false} SliceLow(x: nat, y: nat, k: nat, off: nat, w: nat)
    requires off + w <= k
    ensures Slice(Join(x, y, k), off, w) == Slice(y, off, w)
  {
    DropJoin(x, y, k, off);
    TruncJoin(x, Drop(y, off), k - off, w);
  }

  /** Two adjacent slices joined are the wider slice. */
  lemma {:induction false} SliceSplit(x: nat, off: nat, low: nat, high: nat)
    ensures Slice(x, off, low + high) == Join(Slice(x, off + low, high), Slice(x, off, low), low)
  {
    DropDrop(x, off, low);
    TruncSplit(Drop(x, off), low, high);
  }

  /** A slice that straddles the two parts of a concatenation. */
  lemma {:induction false} SliceStraddle(x: nat, y: nat, k: nat, off: nat, w: nat)
    requires off < k < off + w
    ensures Slice(Join(x, y, k), off, w)
         == Join(Slice(x, 0, off + w - k), Slice(y, off, k - off), k - off)
  {
    SliceSplit(Join(x, y, k), off, k - off, off + w - k);
    SliceHigh(x, y, k, k, off + w - k);
    SliceLow(x, y, k, off, k - off);
  }

  // --- Words ------------------------------------------------------------------------

  function AddMod(x: nat, y: nat, w: nat): (r: nat) {
    if x + y < Pow2(w) then x + y else x + y - Pow2(w)
  }

  function SubMod(x: nat, y: nat, w: nat): (r: nat)
    requires y <= x + Pow2(w)
  {
    if y <= x then x - y else x - y + Pow2(w)
  }

  lemma {:induction false} AddModIsTrunc(x: nat, y: nat, w: nat)
    requires x < Pow2(w) && y < Pow2(w)
    ensures AddMod(x, y, w) == Trunc(x + y, w)
  {
    if x + y < Pow2(w) {
      TruncWhole(x + y, w);
    } else {
      var z := x + y - Pow2(w);
      Pow2Double(w);
      TruncIgnoresHigh(z, w, w + 1, w);
      TruncWhole(z, w);
    }
  }

  // The laws behind the rewriting of sums, for words x, y and z of width w.

  lemma {:induction false} AddLaws(x: nat, y: nat, z: nat, w: nat)
    requires x < Pow2(w) && y < Pow2(w) && z < Pow2(w)
    ensures AddMod(x, y, w) == AddMod(y, x, w) < Pow2(w) && AddMod(y, z, w) < Pow2(w)
    ensures AddMod(AddMod(x, y, w), z, w) == AddMod(x, AddMod(y, z, w), w)
  {
  }

  lemma {:induction false} AddSubLaws(x: nat, y: nat, z: nat, w: nat)
    requires x < Pow2(w) && y < Pow2(w) && z < Pow2(w)
    ensures SubMod(y, z, w) < Pow2(w) && AddMod(x, y, w) < Pow2(w)
    ensures SubMod(AddMod(x, y, w), z, w) == AddMod(x, SubMod(y, z, w), w)
  {
  }

  lemma {:induction false} SubAddLaws(x: nat, y: nat, z: nat, w: nat)
    requires x < Pow2(w) && y < Pow2(w) && z < Pow2(w)
    ensures SubMod(x, y, w) < Pow2(w) && SubMod(y, z, w) < Pow2(w)
    ensures AddMod(SubMod(x, y, w), z, w) == SubMod(x, SubMod(y, z, w), w) == AddMod(x, SubMod(z, y, w), w)
  {
  }

  lemma {:induction false} SubSubLaws(x: nat, y: nat, z: nat, w: nat)
    requires x < Pow2(w) && y < Pow2(w) && z < Pow2(w)
    ensures SubMod(x, y, w) < Pow2(w) && AddMod(y, z, w) < Pow2(w) && SubMod(x, z, w) < Pow2(w)
    ensures SubMod(SubMod(x, y, w), z, w) == SubMod(x, AddMod(y, z, w), w) == SubMod(SubMod(x, z, w), y, w)
  {
  }

  lemma {:induction false} NegLaw(x: nat, y: nat, w: nat)
    requires x < Pow2(w) && y < Pow2(w)
    ensures SubMod(0, y, w) < Pow2(w) && AddMod(SubMod(0, y, w), x, w) == SubMod(x, y, w)
  {
  }

  function MulMod(x: nat, y: nat, w: nat): (r: nat) {
    Trunc(x * y, w)
  }

  function Neg(x: nat, w: nat): (r: nat)
    requires x <= Pow2(w)
  {
    SubMod(0, x, w)
  }

  /** Every bit flipped. */
  function Complement(x: nat, w: nat): (r: nat) {
    if x < Pow2(w) then Pow2(w) - 1 - x else 0
  }

  /** The sign bit of a value of width w. */
  predicate Msb(x: nat, w: nat) {
    x + x >= Pow2(w)
  }

  function Signed(x: nat, w: nat): (r: int) {
    if Msb(x, w) then x - Pow2(w) else x
  }

  /** Division by zero gives all ones, as in the SMT-LIB theory of bit-vectors. */
  function UDiv(x: nat, y: nat, w: nat): (r: nat) {
    if 0 < y then x / y else Pow2(w) - 1
  }

  function URem(x: nat, y: nat): (r: nat) {
    if 0 < y then x % y else x
  }

  lemma QuotientBound(x: nat, y: nat)
    requires 0 < y
    ensures 0 <= x / y <= x && x % y <= x
  {
    var q, r := x / y, x % y;
    assert x == y * q + r;
    if q < 0 {
      MulMonotone(y, q, -1);
    } else {
      MulMonotone(q, 1, y);
    }
  }

  lemma DivisionBound(x: nat, y: nat, w: nat)
    requires x < Pow2(w)
    ensures UDiv(x, y, w) < Pow2(w) && URem(x, y) < Pow2(w)
  {
    if 0 < y {
      QuotientBound(x, y);
    }
  }

  function Magnitude(x: nat, w: nat): (r: nat)
    requires x < Pow2(w)
  {
    if Msb(x, w) then Neg(x, w) else x
  }

  /** Divide the magnitudes, then negate when the signs differ. */
  function SDiv(x: nat, y: nat, w: nat): (r: nat)
    requires x < Pow2(w) && y < Pow2(w)
  {
    var q := UDiv(Magnitude(x, w), Magnitude(y, w), w);
    DivisionBound(Magnitude(x, w), Magnitude(y, w), w);
    if Msb(x, w) != Msb(y, w) then Neg(q, w) else q
  }

  /** The remainder takes the sign of the dividend. */
  function SRem(x: nat, y: nat, w: nat): (r: nat)
    requires x < Pow2(w) && y < Pow2(w)
  {
    var q := URem(Magnitude(x, w), Magnitude(y, w));
    DivisionBound(Magnitude(x, w), Magnitude(y, w), w);
    if Msb(x, w) then Neg(q, w) else q
  }

  /** Shifting by the width or more gives zero. */
  function Shl(x: nat, y: nat, w: nat): (r: nat) {
    if y < w then Trunc(Join(x, 0, y), w) else 0
  }

  function LShr(x: nat, y: nat, w: nat): (r: nat) {
    if y < w then Drop(x, y) else 0
  }

  function AShr(x: nat, y: nat, w: nat): (r: nat)
    requires x < Pow2(w)
  {
    if y < w then
      if Msb(x, w) then Pow2(w) - 1 - Drop(Complement(x, w), y) else Drop(x, y)
    else 0
  }

  function SignExtend(x: nat, from: nat, to: nat): (r: nat) {
    if Msb(x, from) && Pow2(from) <= Pow2(to) then x + (Pow2(to) - Pow2(from)) else x
  }

  /** Bits at position m and above do not reach the low w <= m bits. */
  lemma {:induction false} TruncIgnoresHigh(x: nat, m: nat, n: nat, w: nat)
    requires w <= m <= n
    ensures Pow2(m) <= Pow2(n) && Trunc(x + (Pow2(n) - Pow2(m)), w) == Trunc(x, w)
  {
    hide Trunc;
    Pow2Monotone(m, n);
    if w > 0 {
      Pow2Double(m - 1);
      Pow2Double(n - 1);
      TruncIgnoresHigh(x / 2, m - 1, n - 1, w - 1);
      TruncStep(x, Pow2(n - 1) - Pow2(m - 1), w);
      TruncStep(x, 0, w);
    } else {
      TruncNothing(x);
      TruncNothing(x + (Pow2(n) - Pow2(m)));
    }
  }

  lemma {:induction false} TruncNothing(x: nat)
    ensures Trunc(x, 0) == 0
  {
  }

  lemma {:induction false} TruncStep(x: nat, d: nat, w: nat)
    requires 0 < w
    ensures Trunc(x + 2 * d, w) == 2 * Trunc(x / 2 + d, w - 1) + x % 2
  {
  }

  /** Truncation undoes sign extension. */
  lemma {:induction false} SignExtendTruncates(x: nat, from: nat, to: nat)
    requires from <= to && x < Pow2(from)
    ensures Trunc(SignExtend(x, from, to), from) == x
  {
    Pow2Monotone(from, to);
    TruncIgnoresHigh(x, from, to, from);
    TruncWhole(x, from);
  }

  lemma {:induction false} DropComplement(x: nat, k: nat, off: nat)
    requires x < Pow2(k) && off <= k
    ensures Drop(x, off) < Pow2(k - off)
    ensures Drop(Pow2(k) - 1 - x, off) == Pow2(k - off) - 1 - Drop(x, off)
  {
    if off > 0 {
      Pow2Double(k - 1);
      assert (Pow2(k) - 1 - x) / 2 == Pow2(k - 1) - 1 - x / 2;
      DropComplement(x / 2, k - 1, off - 1);
    }
  }

  /** LLVM folds an extract of a constant with an arithmetic shift; inside the width
      that yields the same bits as the logical one. */
  lemma {:induction false} SliceByAShr(x: nat, kw: nat, off: nat, w: nat)
    requires x < Pow2(kw) && 0 < w && off + w <= kw
    ensures Trunc(AShr(x, off, kw), w) == Slice(x, off, w)
  {
    DropComplement(x, kw, off);
    TruncIgnoresHigh(Drop(x, off), kw - off, kw, w);
  }

  // --- Bitwise operations -----------------------------------------------------------

  function BitAnd(x: nat, y: nat): (r: nat)
    ensures r <= x && r <= y
  {
    if 0 < x && 0 < y then 2 * BitAnd(x / 2, y / 2) + (if x % 2 == 1 && y % 2 == 1 then 1 else 0)
    else 0
  }

  function BitOr(x: nat, y: nat): (r: nat)
    ensures x <= r && y <= r && r <= x + y
  {
    if 0 < x && 0 < y then 2 * BitOr(x / 2, y / 2) + (if x % 2 == 1 || y % 2 == 1 then 1 else 0)
    else x + y
  }

  function BitXor(x: nat, y: nat): (r: nat)
    ensures r <= x + y
  {
    if 0 < x && 0 < y then 2 * BitXor(x / 2, y / 2) + (if x % 2 != y % 2 then 1 else 0)
    else x + y
  }

  lemma {:induction false} BitwiseBounded(x: nat, y: nat, w: nat)
    requires x < Pow2(w) && y < Pow2(w)
    ensures BitOr(x, y) < Pow2(w) && BitXor(x, y) < Pow2(w)
  {
    Pow2Double(0);
    if 0 < x && 0 < y {
      Pow2Double(w - 1);
      BitwiseBounded(x / 2, y / 2, w - 1);
    }
  }

  lemma {:induction false} AllOnes(x: nat, w: nat)
    requires x < Pow2(w)
    ensures BitAnd(x, Pow2(w) - 1) == x && BitOr(x, Pow2(w) - 1) == Pow2(w) - 1
  {
    hide BitAnd, BitOr;
    Pow2Double(0);
    if x == 0 {
      NoBits(Pow2(w) - 1);
    } else {
      Pow2Double(w - 1);
      AllOnes(x / 2, w - 1);
      OddMask(x, Pow2(w - 1) - 1);
    }
  }

  lemma {:induction false} NoBits(x: nat)
    ensures BitAnd(0, x) == 0 && BitOr(0, x) == x
  {
  }

  lemma {:induction false} OddMask(x: nat, m: nat)
    requires 0 < x
    ensures BitAnd(x, 2 * m + 1) == 2 * BitAnd(x / 2, m) + x % 2
    ensures BitOr(x, 2 * m + 1) == 2 * BitOr(x / 2, m) + 1
  {
    assert (2 * m + 1) / 2 == m && (2 * m + 1) % 2 == 1;
  }

  lemma {:induction false} BitwiseCommute(x: nat, y: nat)
    ensures BitAnd(x, y) == BitAnd(y, x) && BitOr(x, y) == BitOr(y, x) && BitXor(x, y) == BitXor(y, x)
  {
    if 0 < x && 0 < y {
      BitwiseCommute(x / 2, y / 2);
    }
  }

  /** On single bits the bitwise operations are the Boolean connectives. */
  lemma {:induction false} SingleBits(x: nat, y: nat)
    requires x < 2 && y < 2
    ensures BitAnd(x, y) == (if x == 1 && y == 1 then 1 else 0)
    ensures BitOr(x, y) == (if x == 1 || y == 1 then 1 else 0)
    ensures BitXor(x, y) == (if x != y then 1 else 0)
  {
  }

  /** Merging into cleared low bits is concatenation. */
  lemma {:induction false} MergeDisjointBits(x: nat, y: nat, k: nat)
    requires y < Pow2(k)
    ensures BitOr(Join(x, 0, k), y) == Join(x, y, k)
  {
    hide BitOr;
    Pow2Double(0);
    if k > 0 {
      Pow2Double(k - 1);
      MergeDisjointBits(x, y / 2, k - 1);
      EvenOr(Join(x, 0, k - 1), y);
    } else {
      OrNothing(x);
    }
  }

  lemma {:induction false} EvenOr(x: nat, y: nat)
    ensures BitOr(2 * x, y) == 2 * BitOr(x, y / 2) + y % 2
  {
  }

  lemma {:induction false} OrNothing(x: nat)
    ensures BitOr(x, 0) == x
  {
  }
}
