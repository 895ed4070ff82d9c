/** What the operations on words mean, in the arithmetic of integers. */
module BitLaws {
  import opened Bits
  import Exprs

  // --- Signs --------------------------------------------------------------------------------------

  /** A word's signed value is the number in two's complement range that it represents. */
  lemma {:induction false} SignedRange(x: nat, w: nat)
    requires 0 < w && x < Pow2(w)
    ensures 0 - Pow2(w - 1) <= Signed(x, w) < Pow2(w - 1)
    ensures Signed(x, w) % Pow2(w) == x
  {
    Pow2Double(w - 1);
    DivUnique(Signed(x, w), Pow2(w), if Msb(x, w) then -1 else 0, x);
  }

  /** No other number in that range represents the word. */
  lemma {:induction false} SignedUnique(x: nat, n: int, w: nat)
    requires 0 < w && x < Pow2(w)
    requires 0 - Pow2(w - 1) <= n < Pow2(w - 1) && n % Pow2(w) == x
    ensures n == Signed(x, w)
  {
    SignedRange(x, w);
    Pow2Double(w - 1);
    DivUnique(n, Pow2(w), if n < 0 then -1 else 0, if n < 0 then n + Pow2(w) else n);
  }

  /** Sign extension keeps the signed value. */
  lemma {:induction false} SignExtendSigned(x: nat, from: nat, to: nat)
    requires 0 < from <= to && x < Pow2(from)
    ensures SignExtend(x, from, to) < Pow2(to)
    ensures Signed(SignExtend(x, from, to), to) == Signed(x, from)
  {
    Pow2Monotone(from, to);
    Pow2Double(from - 1);
  }

  // --- Sums, products and shifts ---------------------------------------------------------------------

  lemma {:induction false} SumsModulo(x: nat, y: nat, w: nat)
    requires x < Pow2(w) && y < Pow2(w)
    ensures AddMod(x, y, w) == (x + y) % Pow2(w) && SubMod(x, y, w) == (x - y) % Pow2(w)
    ensures MulMod(x, y, w) == (x * y) % Pow2(w)
    ensures Neg(x, w) == (0 - x) % Pow2(w) && Complement(x, w) == (0 - x - 1) % Pow2(w)
  {
    var p := Pow2(w);
    TruncIsMod(x * y, w);
    DivUnique(x + y, p, if x + y < p then 0 else 1, AddMod(x, y, w));
    DivUnique(x - y, p, if y <= x then 0 else -1, SubMod(x, y, w));
    DivUnique(0 - x, p, if x == 0 then 0 else -1, Neg(x, w));
    DivUnique(0 - x - 1, p, -1, Complement(x, w));
  }

  /** A shift to the left multiplies, however far it goes. */
  lemma {:induction false} ShlModulo(x: nat, y: nat, w: nat)
    ensures Shl(x, y, w) == (x * Pow2(y)) % Pow2(w)
  {
    Pow2Double(0);
    JoinIsSum(x, 0, y);
    TruncIsMod(Join(x, 0, y), w);
    if w <= y {
      Pow2Add(w, y - w);
      Reordered(x, Pow2(w), Pow2(y - w));
      DivUnique(x * Pow2(y), Pow2(w), x * Pow2(y - w), 0);
    }
  }

  lemma {:induction false} Reordered(x: int, p: int, q: int)
    ensures x * (p * q) == p * (x * q)
  {
  }

  /** A logical shift to the right divides. */
  lemma {:induction false} LShrQuotient(x: nat, y: nat, w: nat)
    requires x < Pow2(w)
    ensures LShr(x, y, w) == x / Pow2(y)
  {
    DropIsDiv(x, y);
    if w <= y {
      Pow2Monotone(w, y);
      DivUnique(x, Pow2(y), 0, x);
    }
  }

  /** An arithmetic shift inside the width divides the signed value and rounds down. */
  lemma {:induction false} AShrQuotient(x: nat, y: nat, w: nat)
    requires x < Pow2(w) && y < w
    ensures AShr(x, y, w) < Pow2(w)
    ensures Signed(AShr(x, y, w), w) == Signed(x, w) / Pow2(y)
  {
    hide Pow2, Drop, Complement;
    Pow2Double(w - 1);
    DropIsDiv(x, y);
    if Msb(x, w) {
      var c := Complement(x, w);
      ComplementSmall(x, w);
      DropIsDiv(c, y);
      FloorNegative(c, Pow2(y));
    }
  }

  lemma {:induction false} ComplementSmall(x: nat, w: nat)
    requires 0 < w && x < Pow2(w) && Msb(x, w)
    ensures Complement(x, w) < Pow2(w - 1) && Signed(x, w) == 0 - Complement(x, w) - 1
  {
    Pow2Double(w - 1);
  }

  lemma {:induction false} FloorNegative(c: nat, d: nat)
    requires 0 < d
    ensures (0 - c - 1) / d == -1 - c / d
  {
    var q, r := c / d, c % d;
    assert c == d * q + r;
    Distribute(d, -1, -q);
    assert d * -q == -(d * q);
    DivUnique(0 - c - 1, d, -1 - q, (d - 1) - r);
  }

  // --- Division --------------------------------------------------------------------------------------

  lemma {:induction false} UnsignedDivision(x: nat, y: nat, w: nat)
    requires x < Pow2(w) && y < Pow2(w)
    ensures 0 < y ==> x == y * UDiv(x, y, w) + URem(x, y) && URem(x, y) < y
    ensures y == 0 ==> UDiv(x, y, w) == Pow2(w) - 1 && URem(x, y) == x
  {
  }

  function Absolute(n: int): (r: nat) {
    if n < 0 then -n else n
  }

  lemma {:induction false} MagnitudeAbsolute(x: nat, w: nat)
    requires 0 < w && x < Pow2(w)
    ensures Magnitude(x, w) == Absolute(Signed(x, w)) <= Pow2(w - 1)
    ensures Magnitude(x, w) == Pow2(w - 1) ==> x == Pow2(w - 1)
  {
    Pow2Double(w - 1);
  }

  /** The one quotient that does not fit: the least number divided by minus one. */
  function SignedQuotient(x: nat, y: nat, w: nat): (q: int)
    requires 0 < w && x < Pow2(w) && y < Pow2(w)
  {
    if x == Pow2(w - 1) && y == Pow2(w) - 1 then Pow2(w - 1) else Signed(SDiv(x, y, w), w)
  }

  /** Signed division rounds towards zero: the remainder is smaller than the divisor and has
      the dividend's sign. */
  lemma {:induction false} SignedDivision(x: nat, y: nat, w: nat)
    requires 0 < w && x < Pow2(w) && 0 < y < Pow2(w)
    ensures SDiv(x, y, w) < Pow2(w) && SRem(x, y, w) < Pow2(w)
    ensures SDiv(x, y, w) == SignedQuotient(x, y, w) % Pow2(w)
    ensures Signed(x, w) == Signed(y, w) * SignedQuotient(x, y, w) + Signed(SRem(x, y, w), w)
    ensures Absolute(Signed(SRem(x, y, w), w)) < Absolute(Signed(y, w))
    ensures Signed(SRem(x, y, w), w) < 0 ==> Signed(x, w) < 0
    ensures Signed(SRem(x, y, w), w) > 0 ==> Signed(x, w) > 0
  {
    hide Magnitude, Signed, Msb, SDiv, SRem, Absolute, SignedQuotient;
    QuotientSigned(x, y, w);
    RemainderSigned(x, y, w);
    SignedSign(x, w);
    SignedSign(y, w);
    MagnitudeAbsolute(x, w);
    MagnitudeAbsolute(y, w);
    TowardsZero(Signed(x, w), Signed(y, w), SignedQuotient(x, y, w), Signed(SRem(x, y, w), w));
  }

  lemma {:induction false} SignedSign(x: nat, w: nat)
    requires x < Pow2(w)
    ensures Msb(x, w) <==> Signed(x, w) < 0
  {
  }

  /** Dividing magnitudes and giving the results their signs. */
  lemma {:induction false} TowardsZero(x: int, y: int, q: int, r: int)
    requires 0 < Absolute(y)
    requires q == if (x < 0) != (y < 0) then 0 - Absolute(x) / Absolute(y) else Absolute(x) / Absolute(y)
    requires r == if x < 0 then 0 - Absolute(x) % Absolute(y) else Absolute(x) % Absolute(y)
    ensures x == y * q + r && Absolute(r) < Absolute(y) && (r < 0 ==> x < 0) && (r > 0 ==> x > 0)
  {
    hide Absolute;
    Divided(Absolute(x), Absolute(y));
    ProductSign(y, Absolute(x) / Absolute(y), q, x < 0);
    SignedParts(x, y, Absolute(y) * (Absolute(x) / Absolute(y)), Absolute(x) % Absolute(y));
  }

  lemma {:induction false} SignedParts(x: int, y: int, product: int, r: int)
    requires Absolute(x) == product + r && 0 <= r < Absolute(y) && 0 <= product
    ensures var product', r' := if x < 0 then 0 - product else product, if x < 0 then 0 - r else r;
            x == product' + r' && Absolute(r') < Absolute(y) && (r' < 0 ==> x < 0) && (r' > 0 ==> x > 0)
  {
  }

  lemma {:induction false} ProductSign(y: int, q: int, q': int, minus: bool)
    requires q' == if minus != (y < 0) then 0 - q else q
    ensures y * q' == if minus then 0 - Absolute(y) * q else Absolute(y) * q
  {
    Negations(Absolute(y), q);
    Negations(y, q);
  }

  lemma {:induction false} Divided(m: nat, n: nat)
    requires 0 < n
    ensures m == n * (m / n) + m % n && 0 <= m % n < n
  {
  }

  lemma {:induction false} Negations(a: int, b: int)
    ensures a * (0 - b) == 0 - a * b && (0 - a) * b == 0 - a * b && (0 - a) * (0 - b) == a * b
  {
  }

  lemma {:induction false} QuotientSigned(x: nat, y: nat, w: nat)
    requires 0 < w && x < Pow2(w) && 0 < y < Pow2(w)
    ensures Magnitude(y, w) > 0 && SDiv(x, y, w) < Pow2(w)
    ensures SignedQuotient(x, y, w)
         == (var q := Magnitude(x, w) / Magnitude(y, w); if Msb(x, w) != Msb(y, w) then 0 - q else q)
    ensures SDiv(x, y, w) == SignedQuotient(x, y, w) % Pow2(w)
  {
    MagnitudeAbsolute(x, w);
    MagnitudeAbsolute(y, w);
    Pow2Double(w - 1);
    var p, mx, my := Pow2(w), Magnitude(x, w), Magnitude(y, w);
    QuotientBound(mx, my);
    if mx / my == Pow2(w - 1) {
      LargeQuotient(mx, my);
    }
    SignedRange(SDiv(x, y, w), w);
    DivUnique(Pow2(w - 1), p, 0, Pow2(w - 1));
  }

  lemma {:induction false} LargeQuotient(m: nat, n: nat)
    requires 0 < n && 0 < m <= m / n
    ensures n == 1
  {
    Divided(m, n);
    if 2 <= n {
      MulMonotone(m / n, 2, n);
    }
  }

  lemma {:induction false} RemainderSigned(x: nat, y: nat, w: nat)
    requires 0 < w && x < Pow2(w) && 0 < y < Pow2(w)
    ensures Magnitude(y, w) > 0 && SRem(x, y, w) < Pow2(w)
    ensures Signed(SRem(x, y, w), w)
         == (var r := Magnitude(x, w) % Magnitude(y, w); if Msb(x, w) then 0 - r else r)
  {
    MagnitudeAbsolute(x, w);
    MagnitudeAbsolute(y, w);
    Pow2Double(w - 1);
    QuotientBound(Magnitude(x, w), Magnitude(y, w));
  }

  /** By zero, as in the SMT-LIB theory: minus one or one, and the dividend is left over. */
  lemma {:induction false} SignedByZero(x: nat, w: nat)
    requires 0 < w && x < Pow2(w)
    ensures Signed(SDiv(x, 0, w), w) == if w == 1 then -1 else if Signed(x, w) < 0 then 1 else -1
    ensures SRem(x, 0, w) == x
  {
    Pow2Double(w - 1);
    if 1 < w {
      Pow2Double(w - 2);
    } else {
      Pow2Double(0);
    }
  }

  // --- Single bits -----------------------------------------------------------------------------------

  predicate Bit(x: nat, k: nat) {
    x / Pow2(k) % 2 == 1
  }

  lemma {:induction false} BitHalf(x: nat, k: nat)
    ensures Bit(x, 0) <==> x % 2 == 1
    ensures Bit(x, k + 1) <==> Bit(x / 2, k)
  {
    Pow2Double(0);
    Pow2Double(k);
    HalfDiv(x, Pow2(k));
    assert x / 1 == x;
  }

  /** Words with the same bits are the same. */
  lemma {:induction false} BitsDetermine(x: nat, y: nat)
    requires forall k: nat :: Bit(x, k) <==> Bit(y, k)
    ensures x == y
    decreases x + y
  {
    if 0 < x + y {
      BitHalf(x, 0);
      BitHalf(y, 0);
      forall k: nat ensures Bit(x / 2, k) <==> Bit(y / 2, k) {
        BitHalf(x, k);
        BitHalf(y, k);
      }
      BitsDetermine(x / 2, y / 2);
    }
  }

  lemma {:induction false} BitwiseHalf(x: nat, y: nat)
    ensures BitAnd(x, y) / 2 == BitAnd(x / 2, y / 2) && (BitAnd(x, y) % 2 == 1 <==> x % 2 == 1 && y % 2 == 1)
    ensures BitOr(x, y) / 2 == BitOr(x / 2, y / 2) && (BitOr(x, y) % 2 == 1 <==> x % 2 == 1 || y % 2 == 1)
    ensures BitXor(x, y) / 2 == BitXor(x / 2, y / 2) && (BitXor(x, y) % 2 == 1 <==> x % 2 != y % 2)
  {
  }

  /** The bitwise operations work on each bit by itself. */
  lemma {:induction false} BitwiseBits(x: nat, y: nat, k: nat)
    ensures Bit(BitAnd(x, y), k) <==> Bit(x, k) && Bit(y, k)
    ensures Bit(BitOr(x, y), k) <==> Bit(x, k) || Bit(y, k)
    ensures Bit(BitXor(x, y), k) <==> Bit(x, k) != Bit(y, k)
    decreases k
  {
    hide Bit, BitAnd, BitOr, BitXor;
    var j := if 0 < k then k - 1 else 0;
    BitHalf(x, j);
    BitHalf(y, j);
    BitHalf(BitAnd(x, y), j);
    BitHalf(BitOr(x, y), j);
    BitHalf(BitXor(x, y), j);
    BitwiseHalf(x, y);
    if 0 < k {
      BitwiseBits(x / 2, y / 2, k - 1);
    }
  }

  lemma {:induction false} ComplementBits(x: nat, w: nat, k: nat)
    requires x < Pow2(w)
    ensures Bit(Complement(x, w), k) <==> k < w && !Bit(x, k)
    decreases k
  {
    hide Bit;
    Pow2Double(0);
    var j := if 0 < k then k - 1 else 0;
    BitHalf(x, j);
    BitHalf(Complement(x, w), j);
    if 0 < w {
      Pow2Double(w - 1);
      assert Complement(x, w) / 2 == Complement(x / 2, w - 1);
      if 0 < k {
        ComplementBits(x / 2, w - 1, k - 1);
      }
    } else {
      NoBit(k);
    }
  }

  lemma {:induction false} NoBit(k: nat)
    ensures !Bit(0, k)
  {
    DivUnique(0, Pow2(k), 0, 0);
  }

  /** A slice has the bits asked for. */
  lemma {:induction false} SliceQuotient(x: nat, off: nat, w: nat)
    ensures Slice(x, off, w) == x / Pow2(off) % Pow2(w)
  {
    DropIsDiv(x, off);
    TruncIsMod(Drop(x, off), w);
  }

  // --- Expressions -----------------------------------------------------------------------------------

  /** The values of the arithmetic operators, signed and unsigned. */
  lemma {:induction false} ArithmeticMeaning(op: Exprs.BinOp, x: nat, y: nat, w: nat)
    requires 0 < w && x < Pow2(w) && y < Pow2(w)
    ensures op.Add? ==> Exprs.BinaryValue(op, x, y, w) == (x + y) % Pow2(w)
    ensures op.Sub? ==> Exprs.BinaryValue(op, x, y, w) == (x - y) % Pow2(w)
    ensures op.Mul? ==> Exprs.BinaryValue(op, x, y, w) == (x * y) % Pow2(w)
    ensures op.UDiv? && 0 < y ==> Exprs.BinaryValue(op, x, y, w) == x / y
    ensures op.URem? && 0 < y ==> Exprs.BinaryValue(op, x, y, w) == x % y
    ensures op.Shl? ==> Exprs.BinaryValue(op, x, y, w) == (x * Pow2(y)) % Pow2(w)
    ensures op.LShr? ==> Exprs.BinaryValue(op, x, y, w) == x / Pow2(y)
    ensures op.AShr? && y < w ==> Signed(Exprs.BinaryValue(op, x, y, w), w) == Signed(x, w) / Pow2(y)
  {
    match op
    case Shl => ShlModulo(x, y, w);
    case LShr => LShrQuotient(x, y, w);
    case AShr => if y < w { AShrQuotient(x, y, w); }
    case Add => SumsModulo(x, y, w);
    case Sub => SumsModulo(x, y, w);
    case Mul => SumsModulo(x, y, w);
    case _ =>
  }
}
