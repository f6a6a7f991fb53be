/**
 * Two's-complement views of WebAssembly integers.
 *
 * A WebAssembly `i32`/`i64` value is held by the interpreter as a signed
 * machine integer; the integer operators reinterpret it as unsigned bits and
 * back.  Both views are modelled with mathematical integers: the signed view
 * lies in [-2^(N-1), 2^(N-1)) and the unsigned view in [0, 2^N).
 */
module IntBits {
  import opened Arith

  /** The bit width of an integer value type. */
  datatype Width = W32 | W64

  function BitCount(w: Width): nat
  {
    match w
    case W32 => 32
    case W64 => 64
  }

  /** 2^(N-1): the magnitude of the most negative signed value. */
  function Half(w: Width): int
  {
    match w
    case W32 => 0x8000_0000
    case W64 => 0x8000_0000_0000_0000
  }

  /** 2^N: the number of distinct bit patterns. */
  function Modulus(w: Width): int
  {
    2 * Half(w)
  }

  lemma ModulusIsPow2(w: Width)
    ensures Modulus(w) == Pow2(BitCount(w))
    ensures Half(w) == Pow2(BitCount(w) - 1)
  {
    assert Pow2(8) == 0x100;
    assert Pow2(7) == 0x80;
    Pow2Add(8, 8);
    assert Pow2(16) == 0x1_0000;
    Pow2Add(8, 7);
    assert Pow2(15) == 0x8000;
    Pow2Add(16, 15);
    assert Pow2(31) == 0x8000_0000;
    Pow2Add(16, 16);
    assert Pow2(32) == 0x1_0000_0000;
    Pow2Add(32, 31);
    assert Pow2(63) == 0x8000_0000_0000_0000;
    Pow2Add(32, 32);
    assert Pow2(64) == 0x1_0000_0000_0000_0000;
  }

  predicate IsUnsigned(w: Width, u: int)
  {
    0 <= u < Modulus(w)
  }

  predicate IsSigned(w: Width, s: int)
  {
    -Half(w) <= s < Half(w)
  }

  /** `std::numeric_limits<SignedT>::min()`. */
  function MinSigned(w: Width): (m: int)
    ensures IsSigned(w, m) && forall s :: IsSigned(w, s) ==> m <= s
  {
    -Half(w)
  }

  /**
   * `to_unsigned_bits` / `to_u32_bits` / `to_u64_bits`: the unsigned
   * pattern with the same bits, the representative of `s` modulo 2^N.
   */
  function ToBits(w: Width, s: int): (u: nat)
    ensures IsUnsigned(w, u)
    ensures IsUnsigned(w, s) ==> u == s
  {
    assert IsUnsigned(w, s) ==> s % Modulus(w) == s by {
      if IsUnsigned(w, s) { DivModUnique(s, Modulus(w), 0, s); }
    }
    s % Modulus(w)
  }

  /**
   * `from_unsigned_bits` / `from_u32_bits` / `from_u64_bits`: the signed
   * value with the same bits.
   */
  function FromBits(w: Width, u: nat): (s: int)
    requires IsUnsigned(w, u)
    ensures IsSigned(w, s)
    ensures s < 0 <==> u >= Half(w)
    ensures s >= 0 ==> s == u
  {
    if u < Half(w) then u else u - Modulus(w)
  }

  /** `from_bits(to_bits(s)) == s` for every signed value. */
  lemma FromToBits(w: Width, s: int)
    requires IsSigned(w, s)
    ensures FromBits(w, ToBits(w, s)) == s
  {
    if s < 0 {
      DivModUnique(s, Modulus(w), -1, s + Modulus(w));
    }
  }

  /** `to_bits(from_bits(u)) == u` for every unsigned pattern. */
  lemma ToFromBits(w: Width, u: nat)
    requires IsUnsigned(w, u)
    ensures ToBits(w, FromBits(w, u)) == u
  {
    if u >= Half(w) {
      DivModUnique(u - Modulus(w), Modulus(w), -1, u);
    }
  }

  /** Two signed values with the same bits are equal. */
  lemma ToBitsInjective(w: Width, a: int, b: int)
    requires IsSigned(w, a) && IsSigned(w, b) && ToBits(w, a) == ToBits(w, b)
    ensures a == b
  {
    FromToBits(w, a);
    FromToBits(w, b);
  }

  /** The signed value whose bits are `x mod 2^N`, for any integer `x`. */
  function Wrap(w: Width, x: int): (s: int)
    ensures IsSigned(w, s)
  {
    FromBits(w, ToBits(w, x))
  }

  /** `Wrap` yields the only signed value with the bits of `x`. */
  lemma WrapUnique(w: Width, x: int, s: int)
    requires IsSigned(w, s) && ToBits(w, s) == ToBits(w, x)
    ensures Wrap(w, x) == s
  {
    FromToBits(w, s);
  }

  /** Bit `i` (least significant first) of an unsigned pattern. */
  predicate BitAt(u: nat, i: nat)
  {
    (u / Pow2(i)) % 2 == 1
  }
}
