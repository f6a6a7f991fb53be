/**
 * The integer comparison operators (`eval_int_cmp`) and the i32 boolean
 * they materialise.  Equality and the `_s` orderings compare the signed
 * view of the operands; the `_u` orderings compare their unsigned
 * reinterpretation.
 */
module IntCompare {
  import opened IntBits

  datatype IntCmp = Eq | Ne | LtS | LtU | GtS | GtU | LeS | LeU | GeS | GeU

  predicate IsUnsignedCmp(op: IntCmp)
  {
    op.LtU? || op.GtU? || op.LeU? || op.GeU?
  }

  /** The order every comparison is built from: -1, 0 or 1 for <, ==, >. */
  function Order(x: int, y: int): int
  {
    if x < y then -1 else if x == y then 0 else 1
  }

  /** `eval_int_cmp`. */
  function EvalIntCmp(w: Width, op: IntCmp, lhs: int, rhs: int): (b: bool)
    requires IsSigned(w, lhs) && IsSigned(w, rhs)
    ensures !IsUnsignedCmp(op) ==> b == CmpFromOrder(op, Order(lhs, rhs))
    ensures IsUnsignedCmp(op) ==> b == CmpFromOrder(op, Order(ToBits(w, lhs), ToBits(w, rhs)))
  {
    var ul, ur := ToBits(w, lhs), ToBits(w, rhs);
    match op
    case Eq => lhs == rhs
    case Ne => lhs != rhs
    case LtS => lhs < rhs
    case LtU => ul < ur
    case GtS => lhs > rhs
    case GtU => ul > ur
    case LeS => lhs <= rhs
    case LeU => ul <= ur
    case GeS => lhs >= rhs
    case GeU => ul >= ur
  }

  /** What each comparison answers, given how its operands are ordered. */
  function CmpFromOrder(op: IntCmp, o: int): bool
  {
    match op
    case Eq => o == 0
    case Ne => o != 0
    case LtS | LtU => o < 0
    case GtS | GtU => o > 0
    case LeS | LeU => o <= 0
    case GeS | GeU => o >= 0
  }

  /** `static_cast<wasm_i32>(bool)`: the Wasm i32 boolean. */
  function BoolToI32(b: bool): (r: int)
    ensures r == 0 || r == 1
    ensures r == 1 <==> b
  {
    if b then 1 else 0
  }

  /** A comparison opcode's i32 result. */
  function CmpResult(w: Width, op: IntCmp, lhs: int, rhs: int): (r: int)
    requires IsSigned(w, lhs) && IsSigned(w, rhs)
    ensures IsSigned(W32, r) && (r == 0 || r == 1)
    ensures r == 1 <==> EvalIntCmp(w, op, lhs, rhs)
  {
    BoolToI32(EvalIntCmp(w, op, lhs, rhs))
  }

  /** `i32.eqz` and `i64.eqz`: the i32 result is 1 exactly for a zero operand. */
  function Eqz(w: Width, v: int): (r: int)
    requires IsSigned(w, v)
    ensures IsSigned(W32, r) && (r == 0 || r == 1)
    ensures r == 1 <==> v == 0
  {
    BoolToI32(v == 0)
  }

  /** Equality on the signed view is equality of the bit patterns. */
  lemma EqualityIsBitEquality(w: Width, a: int, b: int)
    requires IsSigned(w, a) && IsSigned(w, b)
    ensures EvalIntCmp(w, Eq, a, b) <==> ToBits(w, a) == ToBits(w, b)
  {
    if ToBits(w, a) == ToBits(w, b) {
      ToBitsInjective(w, a, b);
    }
  }

  /** ne, ge and le are the negations of eq, lt and gt. */
  lemma NegatedComparisons(w: Width, a: int, b: int)
    requires IsSigned(w, a) && IsSigned(w, b)
    ensures EvalIntCmp(w, Ne, a, b) == !EvalIntCmp(w, Eq, a, b)
    ensures EvalIntCmp(w, GeS, a, b) == !EvalIntCmp(w, LtS, a, b)
    ensures EvalIntCmp(w, LeS, a, b) == !EvalIntCmp(w, GtS, a, b)
    ensures EvalIntCmp(w, GeU, a, b) == !EvalIntCmp(w, LtU, a, b)
    ensures EvalIntCmp(w, LeU, a, b) == !EvalIntCmp(w, GtU, a, b)
  {
  }

  /** gt is lt with the operands swapped, for both views. */
  lemma ConverseComparisons(w: Width, a: int, b: int)
    requires IsSigned(w, a) && IsSigned(w, b)
    ensures EvalIntCmp(w, GtS, a, b) == EvalIntCmp(w, LtS, b, a)
    ensures EvalIntCmp(w, GtU, a, b) == EvalIntCmp(w, LtU, b, a)
  {
  }

  /**
   * The signed and unsigned orderings agree on operands of the same sign;
   * on operands of opposite signs the negative one is the larger unsigned.
   */
  lemma SignedAndUnsignedOrder(w: Width, a: int, b: int)
    requires IsSigned(w, a) && IsSigned(w, b)
    ensures (a < 0) == (b < 0) ==> EvalIntCmp(w, LtU, a, b) == EvalIntCmp(w, LtS, a, b)
    ensures a < 0 <= b ==> EvalIntCmp(w, LtS, a, b) && EvalIntCmp(w, GtU, a, b)
  {
    ToBitsOfSigned(w, a);
    ToBitsOfSigned(w, b);
  }

  /** The unsigned pattern of a signed value: itself, or itself plus 2^N. */
  lemma ToBitsOfSigned(w: Width, s: int)
    requires IsSigned(w, s)
    ensures ToBits(w, s) == if s < 0 then s + Modulus(w) else s
  {
    FromToBits(w, s);
  }
}
