/**
 * The integer conversions `i32.wrap_i64`, `i64.extend_i32_s` and
 * `i64.extend_i32_u`, written over the two's-complement views of
 * `IntBits` (`to_u32_bits`, `to_u64_bits`, `from_u32_bits`,
 * `from_u64_bits`).
 */
module IntConvert {
  import opened Arith
  import opened IntBits

  /** `i32.wrap_i64`: the i32 whose bits are the low 32 bits of `v`. */
  function WrapI64(v: int): (r: int)
    requires IsSigned(W64, v)
    ensures IsSigned(W32, r)
    ensures ToBits(W32, r) == ToBits(W64, v) % Modulus(W32)
  {
    var low := ToBits(W64, v) % Modulus(W32);
    ToFromBits(W32, low);
    FromBits(W32, low)
  }

  /** `i64.extend_i32_s`: the value-preserving widening of the signed view. */
  function ExtendS(v: int): (r: int)
    requires IsSigned(W32, v)
    ensures IsSigned(W64, r)
  {
    v
  }

  /** `i64.extend_i32_u`: the i64 whose value is the unsigned view of `v`. */
  function ExtendU(v: int): (r: int)
    requires IsSigned(W32, v)
    ensures IsSigned(W64, r) && r >= 0
  {
    ToBits(W32, v)
  }

  /** Wrapping keeps the value modulo 2^32, as IntBits.Wrap does. */
  lemma WrapIsModular(v: int)
    requires IsSigned(W64, v)
    ensures WrapI64(v) == Wrap(W32, v)
  {
    var m32, m64 := Modulus(W32), Modulus(W64);
    assert m64 == m32 * m32;
    var u := ToBits(W64, v);
    assert ToBits(W32, u) == ToBits(W32, v) by {
      ModShift(u, v / m64 * m32, m32);
      assert u + (v / m64 * m32) * m32 == v;
    }
    WrapUnique(W32, u, WrapI64(v));
  }

  /**
   * Sign extension: the low 32 bits are the operand's and the high 32 bits
   * are all copies of its sign bit.
   */
  lemma ExtendSBits(v: int)
    requires IsSigned(W32, v)
    ensures var u := ToBits(W64, ExtendS(v)); var m := Modulus(W32);
      u % m == ToBits(W32, v) && u / m == (if v < 0 then m - 1 else 0)
  {
    var m := Modulus(W32);
    var u := ToBits(W64, v);
    if v < 0 {
      DivModUnique(v, Modulus(W64), -1, v + Modulus(W64));
      DivModUnique(v, m, -1, v + m);
      DivModUnique(u, m, m - 1, v + m);
    } else {
      DivModUnique(v, m, 0, v);
    }
  }

  /** Zero extension: the low 32 bits are the operand's, the high 32 bits zero. */
  lemma ExtendUBits(v: int)
    requires IsSigned(W32, v)
    ensures var u := ToBits(W64, ExtendU(v)); var m := Modulus(W32);
      u % m == ToBits(W32, v) && u / m == 0
  {
    var m := Modulus(W32);
    DivModUnique(ToBits(W32, v), m, 0, ToBits(W32, v));
  }

  /** Wrapping undoes either extension. */
  lemma WrapUndoesExtend(v: int)
    requires IsSigned(W32, v)
    ensures WrapI64(ExtendS(v)) == v
    ensures WrapI64(ExtendU(v)) == v
  {
    ExtendSBits(v);
    ExtendUBits(v);
    ToBitsInjective(W32, WrapI64(ExtendS(v)), v);
    ToBitsInjective(W32, WrapI64(ExtendU(v)), v);
  }

  /** For a non-negative operand the two extensions agree. */
  lemma ExtensionsAgreeOnNonNegative(v: int)
    requires IsSigned(W32, v) && v >= 0
    ensures ExtendS(v) == ExtendU(v)
  {
  }
}
