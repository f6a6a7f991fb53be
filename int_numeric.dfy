/**
 * The integer operators of the interpreter's numeric opcodes
 * (`eval_int_unop` and `eval_int_binop`).
 *
 * Operands and results are signed values (the interpreter's `wasm_i32` and
 * `wasm_i64`); arithmetic, bitwise operations and shifts are computed on the
 * unsigned reinterpretation, as sections 4.3.2 ("Integer Operations") of the
 * WebAssembly Core Specification 1.0 prescribes.  A trap is an outcome of
 * its own rather than a termination.
 */
module IntNumeric {
  import opened Arith
  import opened IntBits

  datatype IntUnop = Clz | Ctz | Popcnt

  datatype IntBinop =
    | Add | Sub | Mul
    | DivS | DivU | RemS | RemU
    | And | Or | Xor
    | Shl | ShrS | ShrU | Rotl | Rotr

  /** The ways an opfunc can stop the interpreter. */
  datatype Trap = IntegerDivideByZero | IntegerOverflow | MemoryOutOfBounds

  /** The value an operator produces, or the trap it raises. */
  datatype Outcome = Value(v: int) | Trapped(trap: Trap)

  // ---------------------------------------------------------------------
  // Division helpers
  // ---------------------------------------------------------------------

  function Abs(x: int): nat
  {
    if x < 0 then -x else x
  }

  /** Quotient rounded toward zero, as C++ `/` computes it. */
  function TruncDiv(a: int, b: int): int
    requires b != 0
  {
    var q := Abs(a) / Abs(b);
    if (a < 0) == (b < 0) then q else -q
  }

  lemma NatDecompose(A: nat, B: nat)
    requires B > 0
    ensures A == (A / B) * B + A % B && 0 <= A % B < B && 0 <= A / B <= A
  {
    DivLe(A, B);
  }

  /**
   * Truncating division is the decomposition a == q*b + r whose remainder
   * is smaller than the divisor in magnitude and never has the opposite
   * sign of the dividend.
   */
  lemma TruncDivDecomposes(a: int, b: int)
    requires b != 0
    ensures var q := TruncDiv(a, b); var r := a - q * b;
      Abs(r) < Abs(b) && (r == 0 || (r < 0 <==> a < 0)) && Abs(q) <= Abs(a)
  {
    var A: int, B: int := Abs(a), Abs(b);
    NatDecompose(A, B);
    var Q, R := A / B, A % B;
    var q := TruncDiv(a, b);
    var r := a - q * b;
    if a >= 0 && b > 0 {
      assert q == Q && r == R;
    } else if a >= 0 {
      assert q == -Q && q * b == Q * B;
      assert r == R;
    } else if b > 0 {
      assert q == -Q && q * b == -(Q * B);
      assert r == -R;
    } else {
      assert q == Q && q * b == -(Q * B);
      assert r == -R;
    }
    assert Abs(r) == R && Abs(q) == Q;
  }

  // ---------------------------------------------------------------------
  // Bit counting on the low n bits of an unsigned pattern
  // ---------------------------------------------------------------------

  /** `std::countl_zero` on an n-bit unsigned value. */
  function CountLeadingZeros(n: nat, u: nat): (r: nat)
    ensures r <= n
  {
    if n == 0 then 0
    else if u >= Pow2(n - 1) then 0
    else 1 + CountLeadingZeros(n - 1, u)
  }

  /** `std::countr_zero` on an n-bit unsigned value. */
  function CountTrailingZeros(n: nat, u: nat): (r: nat)
    ensures r <= n
  {
    if n == 0 then 0
    else if u % 2 == 1 then 0
    else 1 + CountTrailingZeros(n - 1, u / 2)
  }

  /** `std::popcount` on an n-bit unsigned value. */
  function PopCount(n: nat, u: nat): (r: nat)
    ensures r <= n
  {
    if n == 0 then 0 else u % 2 + PopCount(n - 1, u / 2)
  }

  /** The three bitwise logic operators. */
  datatype Logic = LAnd | LOr | LXor

  function ApplyLogic(op: Logic, x: bool, y: bool): bool
  {
    match op
    case LAnd => x && y
    case LOr => x || y
    case LXor => x != y
  }

  /** Combine the low n bits of two patterns bit by bit. */
  function Bitwise(op: Logic, n: nat, a: nat, b: nat): (r: nat)
    ensures r < Pow2(n)
  {
    if n == 0 then 0
    else (if ApplyLogic(op, a % 2 == 1, b % 2 == 1) then 1 else 0) + 2 * Bitwise(op, n - 1, a / 2, b / 2)
  }

  /** Bit i of a combination is the operator applied to bit i of each operand. */
  lemma {:induction false} BitwiseBit(op: Logic, n: nat, a: nat, b: nat, i: nat)
    requires i < n
    ensures BitAt(Bitwise(op, n, a, b), i) == ApplyLogic(op, BitAt(a, i), BitAt(b, i))
  {
    var r := Bitwise(op, n, a, b);
    var low := if ApplyLogic(op, a % 2 == 1, b % 2 == 1) then 1 else 0;
    var rest := Bitwise(op, n - 1, a / 2, b / 2);
    assert r == rest * 2 + low;
    DivModUnique(r, 2, rest, low);
    if i == 0 {
      assert Pow2(0) == 1;
      assert r / 1 == r && a / 1 == a && b / 1 == b;
    } else {
      BitwiseBit(op, n - 1, a / 2, b / 2, i - 1);
      DivPow2Step(r, i - 1);
      DivPow2Step(a, i - 1);
      DivPow2Step(b, i - 1);
    }
  }

  /** The lowest set bit of a non-zero pattern is at `CountTrailingZeros`. */
  lemma {:induction false} CountTrailingZerosFindsLowestBit(n: nat, u: nat)
    requires 0 < u < Pow2(n)
    ensures var c := CountTrailingZeros(n, u);
      c < n && u % Pow2(c) == 0 && BitAt(u, c)
  {
    if u % 2 == 0 {
      CountTrailingZerosFindsLowestBit(n - 1, u / 2);
      DivPow2Step(u, CountTrailingZeros(n - 1, u / 2));
    }
  }

  /** `CountLeadingZeros` places a non-zero pattern between two powers of two. */
  lemma {:induction false} CountLeadingZerosBounds(n: nat, u: nat)
    requires 0 < u < Pow2(n)
    ensures var c := CountLeadingZeros(n, u);
      c < n && Pow2(n - c - 1) <= u < Pow2(n - c)
  {
    if u < Pow2(n - 1) {
      CountLeadingZerosBounds(n - 1, u);
    }
  }

  lemma {:induction false} ZeroCounts(n: nat)
    ensures CountLeadingZeros(n, 0) == n
    ensures CountTrailingZeros(n, 0) == n
    ensures PopCount(n, 0) == 0
  {
    if n > 0 {
      ZeroCounts(n - 1);
    }
  }

  lemma {:induction false} PopCountZeroOnlyForZero(n: nat, u: nat)
    requires u < Pow2(n)
    ensures PopCount(n, u) == 0 <==> u == 0
  {
    if n > 0 {
      PopCountZeroOnlyForZero(n - 1, u / 2);
    } else {
      assert u == 0;
    }
  }

  lemma {:induction false} PopCountAllOnes(n: nat)
    ensures PopCount(n, Pow2(n) - 1) == n
  {
    if n > 0 {
      assert (Pow2(n) - 1) / 2 == Pow2(n - 1) - 1;
      PopCountAllOnes(n - 1);
    }
  }

  // ---------------------------------------------------------------------
  // Shifts and rotations on unsigned patterns
  // ---------------------------------------------------------------------

  /** The shift count an operator uses: the count's bits modulo N. */
  function ShiftCount(w: Width, rhs: int): (k: nat)
    ensures k < BitCount(w)
  {
    ToBits(w, rhs) % BitCount(w)
  }

  /** The high k bits of an N-bit pattern, as a number below 2^k. */
  lemma HighBitsBound(w: Width, u: nat, k: nat)
    requires IsUnsigned(w, u) && k <= BitCount(w)
    ensures u / Pow2(BitCount(w) - k) < Pow2(k)
  {
    ModulusIsPow2(w);
    Pow2Add(k, BitCount(w) - k);
    DivLt(u, Pow2(BitCount(w) - k), Pow2(k));
  }

  /** The two parts of `u` split at `P`, swapped: `u % P` above `Q`, `u / P` below it. */
  function SwapParts(u: nat, P: nat, Q: nat): (r: nat)
    requires P >= 1 && Q >= 1 && u / P < Q
    ensures r < P * Q
  {
    SwapBound(u % P, u / P, P, Q);
    (u % P) * Q + u / P
  }

  lemma SwapBound(lo: nat, hi: nat, P: nat, Q: nat)
    requires lo < P && hi < Q
    ensures lo * Q + hi < P * Q
  {
    MulMonotone(lo, P - 1, Q);
    assert (P - 1) * Q == P * Q - Q;
  }

  /** Swapping the parts split at `P` and then those split at `Q` restores `u`. */
  lemma SwapPartsInverse(u: nat, P: nat, Q: nat)
    requires P >= 1 && Q >= 1 && u / P < Q
    ensures var r := SwapParts(u, P, Q); r / Q < P && SwapParts(r, Q, P) == u
  {
    var lo, hi := u % P, u / P;
    DivModUnique(lo * Q + hi, Q, lo, hi);
    assert u == hi * P + lo;
  }

  /** The width's modulus splits into the factors a rotation by k uses. */
  lemma RotationFactors(w: Width, k: nat)
    requires k <= BitCount(w)
    ensures Pow2(BitCount(w) - k) * Pow2(k) == Modulus(w)
    ensures Pow2(k) * Pow2(BitCount(w) - k) == Modulus(w)
  {
    ModulusIsPow2(w);
    Pow2Add(BitCount(w) - k, k);
  }

  /** `std::rotl`: the low N-k bits move up by k, the high k bits move down. */
  function RotlBits(w: Width, u: nat, k: nat): (r: nat)
    requires IsUnsigned(w, u) && k < BitCount(w)
    ensures IsUnsigned(w, r)
  {
    HighBitsBound(w, u, k);
    RotationFactors(w, k);
    SwapParts(u, Pow2(BitCount(w) - k), Pow2(k))
  }

  /** `std::rotr`: the low k bits move up by N-k, the high N-k bits move down. */
  function RotrBits(w: Width, u: nat, k: nat): (r: nat)
    requires IsUnsigned(w, u) && k < BitCount(w)
    ensures IsUnsigned(w, r)
  {
    HighBitsBound(w, u, BitCount(w) - k);
    RotationFactors(w, k);
    SwapParts(u, Pow2(k), Pow2(BitCount(w) - k))
  }

  /** Rotating right undoes rotating left by the same count. */
  lemma RotrUndoesRotl(w: Width, u: nat, k: nat)
    requires IsUnsigned(w, u) && k < BitCount(w)
    ensures RotrBits(w, RotlBits(w, u, k), k) == u
  {
    HighBitsBound(w, u, k);
    SwapPartsInverse(u, Pow2(BitCount(w) - k), Pow2(k));
  }

  // ---------------------------------------------------------------------
  // The operators
  // ---------------------------------------------------------------------

  /** `eval_int_unop`: clz, ctz and popcnt of the unsigned view. */
  function EvalIntUnop(w: Width, op: IntUnop, v: int): (r: int)
    requires IsSigned(w, v)
    ensures 0 <= r <= BitCount(w) && IsSigned(w, r)
  {
    var u := ToBits(w, v);
    match op
    case Clz => CountLeadingZeros(BitCount(w), u)
    case Ctz => CountTrailingZeros(BitCount(w), u)
    case Popcnt => PopCount(BitCount(w), u)
  }

  predicate IsDivision(op: IntBinop)
  {
    op.DivS? || op.DivU? || op.RemS? || op.RemU?
  }

  predicate IsShift(op: IntBinop)
  {
    op.Shl? || op.ShrS? || op.ShrU? || op.Rotl? || op.Rotr?
  }

  /** `eval_int_binop`, with the traps of `div_s`, `div_u` and `rem_u`. */
  function EvalIntBinop(w: Width, op: IntBinop, lhs: int, rhs: int): (r: Outcome)
    requires IsSigned(w, lhs) && IsSigned(w, rhs)
    ensures r.Value? ==> IsSigned(w, r.v)
    ensures r == Trapped(IntegerDivideByZero) <==> IsDivision(op) && rhs == 0
    ensures r == Trapped(IntegerOverflow) <==> op.DivS? && lhs == MinSigned(w) && rhs == -1
  {
    var a, b := ToBits(w, lhs), ToBits(w, rhs);
    match op
    case Add => Value(FromBits(w, ToBits(w, a + b)))
    case Sub => Value(FromBits(w, ToBits(w, a - b)))
    case Mul => Value(FromBits(w, ToBits(w, a * b)))
    case And => Value(FromBits(w, LogicBits(w, LAnd, a, b)))
    case Or => Value(FromBits(w, LogicBits(w, LOr, a, b)))
    case Xor => Value(FromBits(w, LogicBits(w, LXor, a, b)))
    case Shl => Value(FromBits(w, ToBits(w, a * Pow2(ShiftCount(w, rhs)))))
    case ShrU => Value(FromBits(w, LogicalShiftRight(w, a, ShiftCount(w, rhs))))
    case ShrS => Value(ArithmeticShiftRight(w, lhs, ShiftCount(w, rhs)))
    case Rotl => Value(FromBits(w, RotlBits(w, a, ShiftCount(w, rhs))))
    case Rotr => Value(FromBits(w, RotrBits(w, a, ShiftCount(w, rhs))))
    case DivS =>
      if rhs == 0 then Trapped(IntegerDivideByZero)
      else if lhs == MinSigned(w) && rhs == -1 then Trapped(IntegerOverflow)
      else Value(SignedQuotient(w, lhs, rhs))
    case RemS =>
      if rhs == 0 then Trapped(IntegerDivideByZero)
      else if lhs == MinSigned(w) && rhs == -1 then Value(0)
      else Value(SignedRemainder(w, lhs, rhs))
    case DivU =>
      ZeroBits(w, rhs);
      if b == 0 then Trapped(IntegerDivideByZero)
      else Value(FromBits(w, UnsignedQuotient(w, a, b)))
    case RemU =>
      ZeroBits(w, rhs);
      if b == 0 then Trapped(IntegerDivideByZero)
      else Value(FromBits(w, UnsignedRemainder(w, a, b)))
  }

  /** Only zero has the all-zero pattern. */
  lemma ZeroBits(w: Width, s: int)
    requires IsSigned(w, s)
    ensures ToBits(w, s) == 0 <==> s == 0
  {
    FromToBits(w, s);
  }

  /** `&`, `|` and `^` on N-bit unsigned patterns. */
  function LogicBits(w: Width, op: Logic, a: nat, b: nat): (r: nat)
    requires IsUnsigned(w, a) && IsUnsigned(w, b)
    ensures IsUnsigned(w, r)
  {
    ModulusIsPow2(w);
    Bitwise(op, BitCount(w), a, b)
  }

  /** `>>` on the unsigned type: the high N-k bits move down, zeros come in. */
  function LogicalShiftRight(w: Width, u: nat, k: nat): (r: nat)
    requires IsUnsigned(w, u)
    ensures IsUnsigned(w, r) && r <= u
  {
    DivLe(u, Pow2(k));
    u / Pow2(k)
  }

  function UnsignedQuotient(w: Width, a: nat, b: nat): (q: nat)
    requires IsUnsigned(w, a) && IsUnsigned(w, b) && b > 0
    ensures IsUnsigned(w, q) && q <= a
  {
    DivLe(a, b);
    a / b
  }

  function UnsignedRemainder(w: Width, a: nat, b: nat): (r: nat)
    requires IsUnsigned(w, a) && IsUnsigned(w, b) && b > 0
    ensures IsUnsigned(w, r) && r < b
  {
    a % b
  }

  /**
   * `lhs >> k` on the signed type: an arithmetic shift, which is floor
   * division by 2^k.
   */
  function ArithmeticShiftRight(w: Width, lhs: int, k: nat): (r: int)
    requires IsSigned(w, lhs)
    ensures IsSigned(w, r)
    ensures r * Pow2(k) <= lhs < (r + 1) * Pow2(k)
  {
    var p := Pow2(k);
    FloorDivBetween(lhs, p);
    lhs / p
  }

  /** Floor division by a positive divisor moves a value towards zero, never past it. */
  lemma FloorDivBetween(x: int, p: int)
    requires p >= 1
    ensures (x / p) * p <= x < (x / p + 1) * p
    ensures x >= 0 ==> 0 <= x / p <= x
    ensures x < 0 ==> x <= x / p < 0
  {
    var r, m := x / p, x % p;
    assert x == r * p + m && 0 <= m < p;
    assert (r + 1) * p == r * p + p;
    if x >= 0 {
      DivLe(x, p);
    } else {
      if r >= 0 { MulAtLeast(p, r); }
      MulAtLeast(p, -x);
      if r < x { MulMonotone(r + 1, x, p); }
    }
  }

  /** `lhs / rhs` on the signed type, for operands other than MIN / -1. */
  function SignedQuotient(w: Width, lhs: int, rhs: int): (q: int)
    requires IsSigned(w, lhs) && IsSigned(w, rhs) && rhs != 0
    requires !(lhs == MinSigned(w) && rhs == -1)
    ensures IsSigned(w, q)
  {
    TruncDivDecomposes(lhs, rhs);
    var A, B := Abs(lhs), Abs(rhs);
    assert B >= 2 ==> A / B < Half(w) by {
      if B >= 2 {
        MulMonotone(2, B, Half(w));
        DivLt(A, B, Half(w));
      }
    }
    TruncDiv(lhs, rhs)
  }

  /** `lhs % rhs` on the signed type: what truncating division leaves over. */
  function SignedRemainder(w: Width, lhs: int, rhs: int): (r: int)
    requires IsSigned(w, lhs) && IsSigned(w, rhs) && rhs != 0
    ensures IsSigned(w, r)
  {
    TruncDivDecomposes(lhs, rhs);
    lhs - TruncDiv(lhs, rhs) * rhs
  }

  // ---------------------------------------------------------------------
  // Properties
  // ---------------------------------------------------------------------

  /** add, sub and mul are exact arithmetic wrapped modulo 2^N. */
  lemma WrappingArithmetic(w: Width, a: int, b: int)
    requires IsSigned(w, a) && IsSigned(w, b)
    ensures EvalIntBinop(w, Add, a, b) == Value(Wrap(w, a + b))
    ensures EvalIntBinop(w, Sub, a, b) == Value(Wrap(w, a - b))
    ensures EvalIntBinop(w, Mul, a, b) == Value(Wrap(w, a * b))
  {
    ModAdd(a, b, Modulus(w));
    ModSub(a, b, Modulus(w));
    ModMul(a, b, Modulus(w));
  }

  /** Shifts and rotations only look at the count modulo N. */
  lemma ShiftCountModN(w: Width, op: IntBinop, a: int, b1: int, b2: int)
    requires IsShift(op) && IsSigned(w, a) && IsSigned(w, b1) && IsSigned(w, b2)
    requires ToBits(w, b1) % BitCount(w) == ToBits(w, b2) % BitCount(w)
    ensures EvalIntBinop(w, op, a, b1) == EvalIntBinop(w, op, a, b2)
  {
  }

  /** shl by k is multiplication by 2^k, wrapped. */
  lemma ShlIsWrappedMultiplication(w: Width, a: int, b: int)
    requires IsSigned(w, a) && IsSigned(w, b)
    ensures EvalIntBinop(w, Shl, a, b) == Value(Wrap(w, a * Pow2(ShiftCount(w, b))))
  {
    ModMulRight(a, Pow2(ShiftCount(w, b)), Modulus(w));
  }

  /** On a non-negative operand the logical and arithmetic right shifts agree. */
  lemma ShrAgreeOnNonNegative(w: Width, a: int, b: int)
    requires IsSigned(w, a) && IsSigned(w, b) && a >= 0
    ensures EvalIntBinop(w, ShrS, a, b) == EvalIntBinop(w, ShrU, a, b)
  {
    DivLe(a, Pow2(ShiftCount(w, b)));
  }

  /** An arithmetic shift of -1 stays -1 (the sign bit is replicated). */
  lemma ShrSOfMinusOne(w: Width, b: int)
    requires IsSigned(w, b)
    ensures EvalIntBinop(w, ShrS, -1, b) == Value(-1)
  {
    var p := Pow2(ShiftCount(w, b));
    DivModUnique(-1, p, -1, p - 1);
  }

  /** rotr then rotl by the same count restores the operand. */
  lemma RotateRoundTrip(w: Width, a: int, b: int)
    requires IsSigned(w, a) && IsSigned(w, b)
    ensures var r := EvalIntBinop(w, Rotl, a, b).v;
      EvalIntBinop(w, Rotr, r, b) == Value(a)
  {
    var k := ShiftCount(w, b);
    var ua := ToBits(w, a);
    ToFromBits(w, RotlBits(w, ua, k));
    RotrUndoesRotl(w, ua, k);
    FromToBits(w, a);
  }

  /** and, or and xor act on each of the N bits independently. */
  lemma BitwiseOpsPerBit(w: Width, a: int, b: int, i: nat)
    requires IsSigned(w, a) && IsSigned(w, b) && i < BitCount(w)
    ensures var ua, ub := ToBits(w, a), ToBits(w, b);
      && BitAt(ToBits(w, EvalIntBinop(w, And, a, b).v), i) == (BitAt(ua, i) && BitAt(ub, i))
      && BitAt(ToBits(w, EvalIntBinop(w, Or, a, b).v), i) == (BitAt(ua, i) || BitAt(ub, i))
      && BitAt(ToBits(w, EvalIntBinop(w, Xor, a, b).v), i) == (BitAt(ua, i) != BitAt(ub, i))
  {
    var ua, ub := ToBits(w, a), ToBits(w, b);
    var n := BitCount(w);
    ToFromBits(w, LogicBits(w, LAnd, ua, ub));
    ToFromBits(w, LogicBits(w, LOr, ua, ub));
    ToFromBits(w, LogicBits(w, LXor, ua, ub));
    BitwiseBit(LAnd, n, ua, ub, i);
    BitwiseBit(LOr, n, ua, ub, i);
    BitwiseBit(LXor, n, ua, ub, i);
  }

  /**
   * div_s and rem_s decompose the dividend: a == q*b + r, with q rounded
   * toward zero (|r| < |b|, r never of the opposite sign of a) whenever
   * div_s does not trap, and MIN rem_s -1 is 0.
   */
  lemma DivSRemSDecompose(w: Width, a: int, b: int)
    requires IsSigned(w, a) && IsSigned(w, b) && b != 0
    ensures var r := EvalIntBinop(w, RemS, a, b).v;
      Abs(r) < Abs(b) && (r == 0 || (r < 0 <==> a < 0))
    ensures !(a == MinSigned(w) && b == -1) ==>
      var q := EvalIntBinop(w, DivS, a, b).v; var r := EvalIntBinop(w, RemS, a, b).v;
      a == q * b + r
    ensures a == MinSigned(w) && b == -1 ==> EvalIntBinop(w, RemS, a, b) == Value(0)
  {
    TruncDivDecomposes(a, b);
  }

  /** div_u and rem_u are the Euclidean quotient and remainder of the bits. */
  lemma DivURemUDecompose(w: Width, a: int, b: int)
    requires IsSigned(w, a) && IsSigned(w, b) && b != 0
    ensures var ua, ub := ToBits(w, a), ToBits(w, b);
      var q := ToBits(w, EvalIntBinop(w, DivU, a, b).v);
      var r := ToBits(w, EvalIntBinop(w, RemU, a, b).v);
      ua == q * ub + r && r < ub
  {
    var ua, ub := ToBits(w, a), ToBits(w, b);
    ZeroBits(w, b);
    var q, r := UnsignedQuotient(w, ua, ub), UnsignedRemainder(w, ua, ub);
    ToFromBits(w, q);
    ToFromBits(w, r);
    assert EvalIntBinop(w, DivU, a, b) == Value(FromBits(w, q));
    assert EvalIntBinop(w, RemU, a, b) == Value(FromBits(w, r));
    UnsignedDivision(w, ua, ub);
  }

  lemma UnsignedDivision(w: Width, a: nat, b: nat)
    requires IsUnsigned(w, a) && IsUnsigned(w, b) && b > 0
    ensures a == UnsignedQuotient(w, a, b) * b + UnsignedRemainder(w, a, b)
  {
  }

  /** clz and ctz of zero are the bit width; popcnt of zero is 0. */
  lemma CountsOfZero(w: Width)
    ensures EvalIntUnop(w, Clz, 0) == BitCount(w)
    ensures EvalIntUnop(w, Ctz, 0) == BitCount(w)
    ensures EvalIntUnop(w, Popcnt, 0) == 0
  {
    ZeroCounts(BitCount(w));
  }

  /** On a non-zero operand clz, ctz and popcnt locate and count set bits. */
  lemma CountsOfNonZero(w: Width, v: int)
    requires IsSigned(w, v) && v != 0
    ensures var u := ToBits(w, v); var n := BitCount(w);
      var lz := EvalIntUnop(w, Clz, v); var tz := EvalIntUnop(w, Ctz, v);
      && lz < n && Pow2(n - lz - 1) <= u < Pow2(n - lz)
      && tz < n && u % Pow2(tz) == 0 && BitAt(u, tz)
      && EvalIntUnop(w, Popcnt, v) > 0
  {
    var u := ToBits(w, v);
    ModulusIsPow2(w);
    ZeroBits(w, v);
    CountLeadingZerosBounds(BitCount(w), u);
    CountTrailingZerosFindsLowestBit(BitCount(w), u);
    PopCountZeroOnlyForZero(BitCount(w), u);
  }

  /** -1 has every bit set. */
  lemma AllOnesBits(w: Width)
    ensures ToBits(w, -1) == Pow2(BitCount(w)) - 1
  {
    ModulusIsPow2(w);
    DivModUnique(-1, Modulus(w), -1, Modulus(w) - 1);
  }

  /** popcnt of -1 (all bits set) is the bit width. */
  lemma PopcntOfMinusOne(w: Width)
    ensures EvalIntUnop(w, Popcnt, -1) == BitCount(w)
  {
    AllOnesBits(w);
    PopCountAllOnes(BitCount(w));
  }
}
