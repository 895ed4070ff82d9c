/** Terms of the theories of bit-vectors and arrays, as the printer emits them, with the
    meaning section 3.6 of the SMT-LIB Standard 2.6 and the theories FixedSizeBitVectors and
    ArraysEx give them. */
module SmtTerms {
  import Bits
  import opened Exprs
  import opened Constructors

  datatype BvOp =
    | BvAdd | BvSub | BvMul | BvUDiv | BvSDiv | BvURem | BvSRem
    | BvAnd | BvOr | BvXor | BvShl | BvLShr | BvAShr

  datatype BvPred = BvUlt | BvUle | BvUgt | BvUge | BvSlt | BvSle | BvSgt | BvSge

  datatype CoreOp = CoreAnd | CoreOr | CoreXor

  datatype Term =
    | TrueTerm | FalseTerm
    | Decimal(value: nat, width: nat)
    | BinaryLiteral(digits: seq<nat>)
    | HexLiteral(digits: seq<nat>)
    | Variable(name: nat)
    | Bv(op: BvOp, left: Term, right: Term)
    | BvNot(arg: Term)
    | Pred(pred: BvPred, left: Term, right: Term)
    | Core(core: CoreOp, left: Term, right: Term)
    | CoreNot(arg: Term)
    | Equal(left: Term, right: Term)
    | Distinct(left: Term, right: Term)
    | Ite(cond: Term, onTrue: Term, onFalse: Term)
    | ConcatTerm(left: Term, right: Term)
    | ExtractTerm(high: int, low: nat, arg: Term)
    | ZeroExtend(extra: nat, arg: Term)
    | SignExtend(extra: nat, arg: Term)
    | SelectTerm(arr: ArrayTerm, index: Term)
    | Let(bindings: Bindings, body: Term)

  datatype ArrayTerm = ArrayName(root: Array) | StoreTerm(arr: ArrayTerm, index: Term, value: Term)

  datatype Bindings = NoBinding | Bind(name: nat, term: Term, rest: Bindings)

  /** A value and, with it, a sort: Bool or a bit-vector of some width. */
  datatype Value = Truth(b: bool) | Word(v: nat, w: nat)

  datatype ArrayValue = Cells(cells: nat -> nat, domain: nat, range: nat)

  predicate SameSort(x: Value, y: Value) {
    (x.Truth? && y.Truth?) || (x.Word? && y.Word? && x.w == y.w)
  }

  // --- Literals ------------------------------------------------------------------------------

  /** The number that digits stand for, the most significant first. */
  function Number(digits: seq<nat>, radix: nat): (v: nat) {
    if digits == [] then 0 else Number(digits[..|digits| - 1], radix) * radix + digits[|digits| - 1]
  }

  // --- Operators -----------------------------------------------------------------------------

  /** The value of an operator on w-bit operands. An arithmetic shift by the width or more
      leaves only copies of the sign bit. */
  function BvValue(op: BvOp, x: nat, y: nat, w: nat): (v: nat)
    requires x < Bits.Pow2(w) && y < Bits.Pow2(w)
  {
    match op
    case BvAdd => Bits.AddMod(x, y, w)
    case BvSub => Bits.SubMod(x, y, w)
    case BvMul => Bits.MulMod(x, y, w)
    case BvUDiv => Bits.UDiv(x, y, w)
    case BvSDiv => Bits.SDiv(x, y, w)
    case BvURem => Bits.URem(x, y)
    case BvSRem => Bits.SRem(x, y, w)
    case BvAnd => Bits.BitAnd(x, y)
    case BvOr => Bits.BitOr(x, y)
    case BvXor => Bits.BitXor(x, y)
    case BvShl => Bits.Shl(x, y, w)
    case BvLShr => Bits.LShr(x, y, w)
    case BvAShr =>
      if Bits.Msb(x, w) then Bits.Complement(Bits.LShr(Bits.Complement(x, w), y, w), w) else Bits.LShr(x, y, w)
  }

  predicate PredHolds(p: BvPred, x: nat, y: nat, w: nat) {
    match p
    case BvUlt => x < y
    case BvUle => x <= y
    case BvUgt => x > y
    case BvUge => x >= y
    case BvSlt => Bits.Signed(x, w) < Bits.Signed(y, w)
    case BvSle => Bits.Signed(x, w) <= Bits.Signed(y, w)
    case BvSgt => Bits.Signed(x, w) > Bits.Signed(y, w)
    case BvSge => Bits.Signed(x, w) >= Bits.Signed(y, w)
  }

  function CoreValue(op: CoreOp, x: bool, y: bool): (b: bool) {
    match op
    case CoreAnd => x && y
    case CoreOr => x || y
    case CoreXor => x != y
  }

  // --- Meaning ----------------------------------------------------------------------------------

  type Environment = map<nat, Value>

  /** The value of a term, or none if it is not well sorted. Both branches of an ite have to be
      well sorted and of one sort. */
  function Meaning(t: Term, env: Environment, a: Assignment): (r: Option<Value>)
    decreases t
  {
    match t
    case TrueTerm => Some(Truth(true))
    case FalseTerm => Some(Truth(false))
    case Decimal(v, w) => if 0 < w && v < Bits.Pow2(w) then Some(Word(v, w)) else None
    case BinaryLiteral(digits) => Literal(digits, 2, |digits|)
    case HexLiteral(digits) => Literal(digits, 16, 4 * |digits|)
    case Variable(n) => if n in env then Some(env[n]) else None
    case Bv(op, l, r) => BvMeaning(op, Meaning(l, env, a), Meaning(r, env, a))
    case BvNot(x) => BvNotMeaning(Meaning(x, env, a))
    case Pred(p, l, r) => PredMeaning(p, Meaning(l, env, a), Meaning(r, env, a))
    case Core(op, l, r) => CoreMeaning(op, Meaning(l, env, a), Meaning(r, env, a))
    case CoreNot(x) => NotMeaning(Meaning(x, env, a))
    case Equal(l, r) => EqualMeaning(Meaning(l, env, a), Meaning(r, env, a))
    case Distinct(l, r) => NotMeaning(EqualMeaning(Meaning(l, env, a), Meaning(r, env, a)))
    case Ite(c, x, y) => IteMeaning(Meaning(c, env, a), Meaning(x, env, a), Meaning(y, env, a))
    case ConcatTerm(l, r) => ConcatMeaning(Meaning(l, env, a), Meaning(r, env, a))
    case ExtractTerm(high, low, x) => ExtractMeaning(high, low, Meaning(x, env, a))
    case ZeroExtend(extra, x) => ZeroExtendMeaning(extra, Meaning(x, env, a))
    case SignExtend(extra, x) => SignExtendMeaning(extra, Meaning(x, env, a))
    case SelectTerm(arr, index) => SelectMeaning(ArrayMeaning(arr, env, a), Meaning(index, env, a))
    case Let(bindings, body) =>
      var more := BindingsMeaning(bindings, env, a);
      if more.Some? then Meaning(body, env + more.value, a) else None
  }

  function Literal(digits: seq<nat>, radix: nat, w: nat): (r: Option<Value>) {
    if 0 < w && (forall i :: 0 <= i < |digits| ==> digits[i] < radix) then Some(Word(Number(digits, radix), w))
    else None
  }

  function BvMeaning(op: BvOp, x: Option<Value>, y: Option<Value>): (r: Option<Value>) {
    if x.Some? && y.Some? && x.value.Word? && y.value.Word? && x.value.w == y.value.w
       && x.value.v < Bits.Pow2(x.value.w) && y.value.v < Bits.Pow2(x.value.w)
    then Some(Word(BvValue(op, x.value.v, y.value.v, x.value.w), x.value.w))
    else None
  }

  function BvNotMeaning(x: Option<Value>): (r: Option<Value>) {
    if x.Some? && x.value.Word? then Some(Word(Bits.Complement(x.value.v, x.value.w), x.value.w)) else None
  }

  function PredMeaning(p: BvPred, x: Option<Value>, y: Option<Value>): (r: Option<Value>) {
    if x.Some? && y.Some? && x.value.Word? && y.value.Word? && x.value.w == y.value.w
    then Some(Truth(PredHolds(p, x.value.v, y.value.v, x.value.w)))
    else None
  }

  function CoreMeaning(op: CoreOp, x: Option<Value>, y: Option<Value>): (r: Option<Value>) {
    if x.Some? && y.Some? && x.value.Truth? && y.value.Truth?
    then Some(Truth(CoreValue(op, x.value.b, y.value.b)))
    else None
  }

  function EqualMeaning(x: Option<Value>, y: Option<Value>): (r: Option<Value>) {
    if x.Some? && y.Some? && SameSort(x.value, y.value) then Some(Truth(x == y)) else None
  }

  function NotMeaning(x: Option<Value>): (r: Option<Value>) {
    if x.Some? && x.value.Truth? then Some(Truth(!x.value.b)) else None
  }

  function IteMeaning(c: Option<Value>, x: Option<Value>, y: Option<Value>): (r: Option<Value>) {
    if c.Some? && c.value.Truth? && x.Some? && y.Some? && SameSort(x.value, y.value)
    then if c.value.b then x else y
    else None
  }

  function ConcatMeaning(x: Option<Value>, y: Option<Value>): (r: Option<Value>) {
    if x.Some? && y.Some? && x.value.Word? && y.value.Word?
    then Some(Word(Bits.Join(x.value.v, y.value.v, y.value.w), x.value.w + y.value.w))
    else None
  }

  function ExtractMeaning(high: int, low: nat, x: Option<Value>): (r: Option<Value>) {
    if x.Some? && x.value.Word? && low <= high < x.value.w
    then Some(Word(Bits.Slice(x.value.v, low, high - low + 1), high - low + 1))
    else None
  }

  function ZeroExtendMeaning(extra: nat, x: Option<Value>): (r: Option<Value>) {
    if x.Some? && x.value.Word? then Some(Word(x.value.v, x.value.w + extra)) else None
  }

  function SignExtendMeaning(extra: nat, x: Option<Value>): (r: Option<Value>) {
    if x.Some? && x.value.Word?
    then Some(Word(Bits.SignExtend(x.value.v, x.value.w, x.value.w + extra), x.value.w + extra))
    else None
  }

  function SelectMeaning(arr: Option<ArrayValue>, i: Option<Value>): (r: Option<Value>) {
    if arr.Some? && i.Some? && i.value.Word? && i.value.w == arr.value.domain
    then Some(Word(arr.value.cells(i.value.v), arr.value.range))
    else None
  }

  /** A store replaces one cell. */
  function ArrayMeaning(t: ArrayTerm, env: Environment, a: Assignment): (r: Option<ArrayValue>)
    decreases t
  {
    match t
    case ArrayName(root) => Some(Cells(i => InitialValue(root, i, a), root.domain, root.range))
    case StoreTerm(arr, index, value) =>
      StoreMeaning(ArrayMeaning(arr, env, a), Meaning(index, env, a), Meaning(value, env, a))
  }

  function StoreMeaning(arr: Option<ArrayValue>, i: Option<Value>, v: Option<Value>): (r: Option<ArrayValue>) {
    if arr.Some? && i.Some? && v.Some? && i.value.Word? && v.value.Word?
       && i.value.w == arr.value.domain && v.value.w == arr.value.range
    then
      var cells := arr.value.cells;
      Some(Cells(j => if j == i.value.v then v.value.v else cells(j), arr.value.domain, arr.value.range))
    else None
  }

  /** The bindings of a let are parallel and their names distinct. */
  function BindingsMeaning(bs: Bindings, env: Environment, a: Assignment): (r: Option<Environment>)
    decreases bs
  {
    match bs
    case NoBinding => Some(map[])
    case Bind(name, term, rest) =>
      var v, more := Meaning(term, env, a), BindingsMeaning(rest, env, a);
      if v.Some? && more.Some? && name !in more.value then Some(more.value[name := v.value]) else None
  }
}
