/**
 * The bit layer under fast_io's `bitvec`: one storage byte holds eight
 * consecutive bits, bit `j` of the vector lives in byte `j / 8` at bit
 * `j % 8` (least significant first), and only the bits below the size are
 * meaningful.
 */
module BitLayout {
  import opened Arith

  /** `max_size_bytes()`: `SIZE_MAX` divided by the eight bits of a byte. */
  const MaxSizeBytes: nat := SizeMax / 8

  /** A bit position inside a byte, as the shift amount the C++ code uses. */
  function Idx(j: nat): (k: bv8)
    requires j < 8
    ensures k < 8
  {
    if j == 0 then 0 else if j == 1 then 1 else if j == 2 then 2 else if j == 3 then 3
    else if j == 4 then 4 else if j == 5 then 5 else if j == 6 then 6 else 7
  }

  /** A bit count `0..8`, as a shift amount. */
  function Width(r: nat): (k: bv8)
    requires r <= 8
    ensures k <= 8
  {
    if r == 8 then 8 else Idx(r)
  }

  lemma IdxOrder(r: nat, j: nat)
    requires r <= 8 && j < 8
    ensures (Idx(j) < Width(r)) == (j < r)
    ensures (Idx(j) == Width(r)) == (j == r)
  {
  }

  lemma IdxInjective(i: nat, j: nat)
    requires i < 8 && j < 8
    ensures (Idx(i) == Idx(j)) == (i == j)
  {
  }

  /** `(b >> k) & 1u`, the bit the C++ code extracts. */
  function Bit8(b: bv8, k: bv8): bool
    requires k < 8
  {
    (b >> k) & 1 == 1
  }

  /** Bit `j` of a storage byte. */
  function BitOf(b: bv8, j: nat): bool
    requires j < 8
  {
    Bit8(b, Idx(j))
  }

  /** `1u << j`: the mask of bit `j`. */
  function Mask(j: nat): bv8
    requires j < 8
  {
    (1 as bv8) << Idx(j)
  }

  /** `(1u << r) - 1u`: the mask of the `r` lowest bits. */
  function Low(r: nat): bv8
    requires r <= 8
  {
    ((1 as bv8) << Width(r)) - 1
  }

  lemma AndBit8(a: bv8, b: bv8, k: bv8)
    requires k < 8
    ensures Bit8(a & b, k) == (Bit8(a, k) && Bit8(b, k))
  {
  }

  lemma OrBit8(a: bv8, b: bv8, k: bv8)
    requires k < 8
    ensures Bit8(a | b, k) == (Bit8(a, k) || Bit8(b, k))
  {
  }

  lemma XorBit8(a: bv8, b: bv8, k: bv8)
    requires k < 8
    ensures Bit8(a ^ b, k) == (Bit8(a, k) != Bit8(b, k))
  {
  }

  lemma NotBit8(a: bv8, k: bv8)
    requires k < 8
    ensures Bit8(!a, k) == !Bit8(a, k)
  {
  }

  lemma ShiftBit8(i: bv8, k: bv8)
    requires i < 8 && k < 8
    ensures Bit8((1 as bv8) << i, k) == (i == k)
  {
  }

  lemma LowBit8(r: bv8, k: bv8)
    requires r <= 8 && k < 8
    ensures Bit8(((1 as bv8) << r) - 1, k) == (k < r)
  {
  }

  lemma AndBit(a: bv8, b: bv8, j: nat)
    requires j < 8
    ensures BitOf(a & b, j) == (BitOf(a, j) && BitOf(b, j))
  {
    AndBit8(a, b, Idx(j));
  }

  lemma OrBit(a: bv8, b: bv8, j: nat)
    requires j < 8
    ensures BitOf(a | b, j) == (BitOf(a, j) || BitOf(b, j))
  {
    OrBit8(a, b, Idx(j));
  }

  lemma XorBit(a: bv8, b: bv8, j: nat)
    requires j < 8
    ensures BitOf(a ^ b, j) == (BitOf(a, j) != BitOf(b, j))
  {
    XorBit8(a, b, Idx(j));
  }

  lemma NotBit(a: bv8, j: nat)
    requires j < 8
    ensures BitOf(!a, j) == !BitOf(a, j)
  {
    NotBit8(a, Idx(j));
  }

  /** The mask of bit `i` has bit `i` and no other. */
  lemma MaskBit(i: nat, j: nat)
    requires i < 8 && j < 8
    ensures BitOf(Mask(i), j) == (i == j)
  {
    ShiftBit8(Idx(i), Idx(j));
  }

  /** The mask of the `r` lowest bits has exactly the bits below `r`. */
  lemma LowBit(r: nat, j: nat)
    requires r <= 8 && j < 8
    ensures BitOf(Low(r), j) == (j < r)
  {
    LowBit8(Width(r), Idx(j));
    IdxOrder(r, j);
  }

  /** Two bytes are equal exactly when all eight of their bits are. */
  lemma ByteBits(a: bv8, b: bv8)
    ensures a == b <==> forall j :: 0 <= j < 8 ==> BitOf(a, j) == BitOf(b, j)
  {
    if a != b {
      assert BitOf(a, 0) != BitOf(b, 0) || BitOf(a, 1) != BitOf(b, 1) || BitOf(a, 2) != BitOf(b, 2)
        || BitOf(a, 3) != BitOf(b, 3) || BitOf(a, 4) != BitOf(b, 4) || BitOf(a, 5) != BitOf(b, 5)
        || BitOf(a, 6) != BitOf(b, 6) || BitOf(a, 7) != BitOf(b, 7);
    }
  }

  /** A byte is zero exactly when none of its bits is set. */
  lemma ZeroByte(a: bv8)
    ensures a == 0 <==> forall j :: 0 <= j < 8 ==> !BitOf(a, j)
  {
    ByteBits(a, 0);
    forall j | 0 <= j < 8 ensures !BitOf(0, j) {
      AndBit(0, 0, j);
    }
  }

  // ---------------------------------------------------------------------
  // Bits of a byte sequence

  /**
   * Bit `i` of a packed byte sequence: bit `i % 8` of byte `i / 8`, reached
   * one byte at a time (see `BitAtDiv`).
   */
  function BitAt(s: seq<bv8>, i: nat): bool
    requires i < 8 * |s|
    decreases i
  {
    if i < 8 then BitOf(s[0], i) else BitAt(s[1..], i - 8)
  }

  /** Bit `i` is bit `i % 8` of byte `i / 8`. */
  lemma {:induction false} BitAtDiv(s: seq<bv8>, i: nat)
    requires i < 8 * |s|
    ensures BitAt(s, i) == BitOf(s[i / 8], i % 8)
    decreases i
  {
    if 8 <= i {
      BitAtDiv(s[1..], i - 8);
      assert (i - 8) / 8 == i / 8 - 1 && (i - 8) % 8 == i % 8;
    }
  }

  /** The first `n` bits packed in `s`, lowest position first. */
  function Unpack(s: seq<bv8>, n: nat): (bits: seq<bool>)
    requires n <= 8 * |s|
    ensures |bits| == n
    ensures forall i :: 0 <= i < n ==> bits[i] == BitAt(s, i)
  {
    if n == 0 then [] else Unpack(s, n - 1) + [BitAt(s, n - 1)]
  }

  /** The bit at `i` after replacing byte `pos / 8` by `b`. */
  lemma BitAfterWrite(s: seq<bv8>, pos: nat, b: bv8, i: nat)
    requires pos < 8 * |s| && i < 8 * |s|
    ensures BitAt(s[pos / 8 := b], i) == if i / 8 == pos / 8 then BitOf(b, i % 8) else BitAt(s, i)
    ensures i / 8 == pos / 8 ==> (i % 8 == pos % 8 <==> i == pos)
  {
    BitAtDiv(s[pos / 8 := b], i);
    BitAtDiv(s, i);
    assert i == 8 * (i / 8) + i % 8 && pos == 8 * (pos / 8) + pos % 8;
  }

  /**
   * Replacing byte `pos / 8` by one that differs from it at most in bit
   * `pos % 8`, which becomes `x`, changes at most bit `pos` of the vector.
   */
  lemma UnpackSingle(s: seq<bv8>, pos: nat, b: bv8, x: bool, n: nat)
    requires pos < 8 * |s| && n <= 8 * |s|
    requires forall t :: 0 <= t < 8 ==> BitOf(b, t) == if t == pos % 8 then x else BitOf(s[pos / 8], t)
    ensures Unpack(s[pos / 8 := b], n) == if pos < n then Unpack(s, n)[pos := x] else Unpack(s, n)
  {
    var u, u' := Unpack(s, n), Unpack(s[pos / 8 := b], n);
    var w := if pos < n then u[pos := x] else u;
    forall i | 0 <= i < n
      ensures u'[i] == w[i]
    {
      BitAfterWrite(s, pos, b, i);
      BitAtDiv(s, i);
    }
  }

  /** The branchless `(b & ~mask) | (v * mask)` store of `set_unchecked` and `push_back_unchecked`. */
  function SetBit(b: bv8, j: nat, v: bool): bv8
    requires j < 8
  {
    (b & !Mask(j)) | (if v then Mask(j) else 0)
  }

  /** `b &= ~mask` of `reset_unchecked` and `pop_back_unchecked`. */
  function ClearBit(b: bv8, j: nat): bv8
    requires j < 8
  {
    b & !Mask(j)
  }

  /** `b ^= mask` of `flip_unchecked`. */
  function FlipBit(b: bv8, j: nat): bv8
    requires j < 8
  {
    b ^ Mask(j)
  }

  lemma SetBit8(b: bv8, i: bv8, k: bv8, v: bool)
    requires i < 8 && k < 8
    ensures Bit8((b & !((1 as bv8) << i)) | (if v then (1 as bv8) << i else 0), k) == if k == i then v else Bit8(b, k)
  {
  }

  lemma ClearBit8(b: bv8, i: bv8, k: bv8)
    requires i < 8 && k < 8
    ensures Bit8(b & !((1 as bv8) << i), k) == if k == i then false else Bit8(b, k)
  {
  }

  lemma FlipBit8(b: bv8, i: bv8, k: bv8)
    requires i < 8 && k < 8
    ensures Bit8(b ^ ((1 as bv8) << i), k) == if k == i then !Bit8(b, k) else Bit8(b, k)
  {
  }

  lemma SetBitBit(b: bv8, j: nat, v: bool, t: nat)
    requires j < 8 && t < 8
    ensures BitOf(SetBit(b, j, v), t) == if t == j then v else BitOf(b, t)
  {
    SetBit8(b, Idx(j), Idx(t), v);
    IdxInjective(j, t);
  }

  lemma ClearBitBit(b: bv8, j: nat, t: nat)
    requires j < 8 && t < 8
    ensures BitOf(ClearBit(b, j), t) == if t == j then false else BitOf(b, t)
  {
    ClearBit8(b, Idx(j), Idx(t));
    IdxInjective(j, t);
  }

  lemma FlipBitBit(b: bv8, j: nat, t: nat)
    requires j < 8 && t < 8
    ensures BitOf(FlipBit(b, j), t) == if t == j then !BitOf(b, t) else BitOf(b, t)
  {
    FlipBit8(b, Idx(j), Idx(t));
    IdxInjective(j, t);
  }

  /** Storing `v` at `pos`: bit `pos` becomes `v` and no other bit changes. */
  lemma UnpackSetBit(s: seq<bv8>, pos: nat, v: bool, n: nat)
    requires pos < 8 * |s| && n <= 8 * |s|
    ensures Unpack(s[pos / 8 := SetBit(s[pos / 8], pos % 8, v)], n)
         == if pos < n then Unpack(s, n)[pos := v] else Unpack(s, n)
  {
    var b := SetBit(s[pos / 8], pos % 8, v);
    forall t | 0 <= t < 8
      ensures BitOf(b, t) == if t == pos % 8 then v else BitOf(s[pos / 8], t)
    {
      SetBitBit(s[pos / 8], pos % 8, v, t);
    }
    UnpackSingle(s, pos, b, v, n);
  }

  /** Clearing `pos`: bit `pos` becomes 0 and no other bit changes. */
  lemma UnpackClearBit(s: seq<bv8>, pos: nat, n: nat)
    requires pos < 8 * |s| && n <= 8 * |s|
    ensures Unpack(s[pos / 8 := ClearBit(s[pos / 8], pos % 8)], n)
         == if pos < n then Unpack(s, n)[pos := false] else Unpack(s, n)
  {
    var b := ClearBit(s[pos / 8], pos % 8);
    forall t | 0 <= t < 8
      ensures BitOf(b, t) == if t == pos % 8 then false else BitOf(s[pos / 8], t)
    {
      ClearBitBit(s[pos / 8], pos % 8, t);
    }
    UnpackSingle(s, pos, b, false, n);
  }

  /** Flipping `pos`: bit `pos` is negated and no other bit changes. */
  lemma UnpackFlipBit(s: seq<bv8>, pos: nat, n: nat)
    requires pos < 8 * |s| && n <= 8 * |s|
    ensures Unpack(s[pos / 8 := FlipBit(s[pos / 8], pos % 8)], n)
         == if pos < n then Unpack(s, n)[pos := !Unpack(s, n)[pos]] else Unpack(s, n)
  {
    var b := FlipBit(s[pos / 8], pos % 8);
    var x := !BitAt(s, pos);
    BitAtDiv(s, pos);
    forall t | 0 <= t < 8
      ensures BitOf(b, t) == if t == pos % 8 then x else BitOf(s[pos / 8], t)
    {
      FlipBitBit(s[pos / 8], pos % 8, t);
    }
    UnpackSingle(s, pos, b, x, n);
  }

  /** Bit `8 * k + j` is bit `j` of byte `k`. */
  lemma BitPosition(k: nat, j: nat)
    requires j < 8
    ensures (8 * k + j) / 8 == k && (8 * k + j) % 8 == j
  {
  }

  /** Bit `j` of byte `k` of the storage. */
  lemma BitOfByte(s: seq<bv8>, k: nat, j: nat)
    requires k < |s| && j < 8
    ensures 8 * k + j < 8 * |s| && BitAt(s, 8 * k + j) == BitOf(s[k], j)
  {
    BitPosition(k, j);
    BitAtDiv(s, 8 * k + j);
  }

  /** `bitvec_split_bits`: the full bytes and the leftover bits of a bit count. */
  function SplitBits(bits: nat): (r: (nat, nat))
    ensures 8 * r.0 + r.1 == bits && r.1 < 8
  {
    (bits / 8, bits % 8)
  }

  /** `size_bytes()`: the bytes that hold `bits` bits, the partial one included. */
  function SizeBytes(bits: nat): (r: nat)
    ensures 8 * r >= bits && 8 * (r - 1) < bits
    ensures bits % 8 == 0 ==> 8 * r == bits
  {
    var (full, rem) := SplitBits(bits);
    full + (if rem != 0 then 1 else 0)
  }

  /**
   * `bits_to_blocks` as written: `(bits + 7) >> 3` in `size_t`, so the
   * addition wraps for the seven largest bit counts.
   */
  function BitsToBlocksAsWritten(bits: nat): (r: nat)
    requires bits <= SizeMax
    ensures bits <= SizeMax - 7 ==> r == SizeBytes(bits)
  {
    ((bits + 7) % (SizeMax + 1)) / 8
  }

  /** With `bits == SIZE_MAX` the wrapped sum gives no block at all. */
  lemma BitsToBlocksWrapsAtSizeMax()
    ensures BitsToBlocksAsWritten(SizeMax) == 0
    ensures SizeBytes(SizeMax) == MaxSizeBytes + 1
  {
  }

  /** The intended `bits_to_blocks`: the ceiling of `bits / 8` for every count. */
  function BitsToBlocks(bits: nat): (r: nat)
    ensures r == SizeBytes(bits)
    ensures 8 * r >= bits
  {
    bits / 8 + (if bits % 8 != 0 then 1 else 0)
  }

  /** Position `i < n` lies in a full byte, or in the partial byte below `n % 8`. */
  lemma BitPlace(i: nat, n: nat)
    requires i < n
    ensures i / 8 < n / 8 || (i / 8 == n / 8 && i % 8 < n % 8)
  {
  }

  lemma AndLow8(b: bv8, r: bv8, k: bv8)
    requires r <= 8 && k < 8
    ensures Bit8(b & (((1 as bv8) << r) - 1), k) == (k < r && Bit8(b, k))
  {
  }

  /** Masking with the `r` low bits keeps exactly the bits below `r`. */
  lemma AndLowBit(b: bv8, r: nat, t: nat)
    requires r <= 8 && t < 8
    ensures BitOf(b & Low(r), t) == (t < r && BitOf(b, t))
  {
    IdxOrder(r, t);
    AndLow8(b, Width(r), Idx(t));
  }

  lemma XorLow8(b: bv8, r: bv8, k: bv8)
    requires r <= 8 && k < 8
    ensures Bit8(b ^ (((1 as bv8) << r) - 1), k) == (Bit8(b, k) != (k < r))
  {
  }

  /** XOR with the `r` low bits negates exactly the bits below `r`. */
  lemma XorLowBit(b: bv8, r: nat, t: nat)
    requires r <= 8 && t < 8
    ensures BitOf(b ^ Low(r), t) == (BitOf(b, t) != (t < r))
  {
    IdxOrder(r, t);
    XorLow8(b, Width(r), Idx(t));
  }

  // ---------------------------------------------------------------------
  // Whole-vector operations on bits

  /** `n` copies of `b`. */
  function Fill(b: bool, n: nat): (r: seq<bool>)
    ensures |r| == n
    ensures forall i :: 0 <= i < n ==> r[i] == b
  {
    if n == 0 then [] else Fill(b, n - 1) + [b]
  }

  /** Every bit negated. */
  function Negated(a: seq<bool>): (r: seq<bool>)
    ensures |r| == |a|
    ensures forall i :: 0 <= i < |a| ==> r[i] == !a[i]
  {
    if |a| == 0 then [] else Negated(a[..|a| - 1]) + [!a[|a| - 1]]
  }

  /** The three compound assignments `&=`, `|=` and `^=`. */
  datatype BitOp = And | Or | Xor

  function ApplyBit(op: BitOp, x: bool, y: bool): bool
  {
    match op
    case And => x && y
    case Or => x || y
    case Xor => x != y
  }

  function ApplyByte(op: BitOp, a: bv8, b: bv8): bv8
  {
    match op
    case And => a & b
    case Or => a | b
    case Xor => a ^ b
  }

  /** A byte operator acts on each bit separately. */
  lemma ApplyByteBit(op: BitOp, a: bv8, b: bv8, t: nat)
    requires t < 8
    ensures BitOf(ApplyByte(op, a, b), t) == ApplyBit(op, BitOf(a, t), BitOf(b, t))
  {
    match op
    case And => AndBit(a, b, t);
    case Or => OrBit(a, b, t);
    case Xor => XorBit(a, b, t);
  }

  /** Two bit sequences of one length combined position by position. */
  function Zip(op: BitOp, a: seq<bool>, b: seq<bool>): (r: seq<bool>)
    requires |a| == |b|
    ensures |r| == |a|
    ensures forall i :: 0 <= i < |a| ==> r[i] == ApplyBit(op, a[i], b[i])
  {
    if |a| == 0 then [] else Zip(op, a[..|a| - 1], b[..|b| - 1]) + [ApplyBit(op, a[|a| - 1], b[|b| - 1])]
  }

  /** Number of set bits. */
  function CountTrue(a: seq<bool>): (r: nat)
    ensures r <= |a|
  {
    if |a| == 0 then 0 else (if a[0] then 1 else 0) + CountTrue(a[1..])
  }

  /** Appending one bit adds it to the count. */
  lemma {:induction false} CountSnoc(a: seq<bool>, x: bool)
    ensures CountTrue(a + [x]) == CountTrue(a) + if x then 1 else 0
  {
    if |a| > 0 {
      CountSnoc(a[1..], x);
      assert (a + [x])[1..] == a[1..] + [x];
    }
  }

  // ---------------------------------------------------------------------
  // Whole-vector operations on storage

  /**
   * `flip_all` on storage: the full bytes XORed with `0xFF`, the partial
   * byte with the mask of its used bits.
   */
  /** `a &= m` on one byte. */
  function AndByte(a: bv8, m: bv8): bv8
  {
    a & m
  }

  /** `a ^= m` on one byte. */
  function XorByte(a: bv8, m: bv8): bv8
  {
    a ^ m
  }

  ghost predicate FlippedStorage(s: seq<bv8>, s': seq<bv8>, n: nat)
  {
    |s'| == |s| && n <= 8 * |s|
    && (forall k :: 0 <= k < n / 8 ==> s'[k] == XorByte(s[k], 0xFF))
    && (n % 8 != 0 ==> s'[n / 8] == XorByte(s[n / 8], Low(n % 8)))
  }

  /** The writes of `flip_all`, split at the full bytes, make a flipped storage. */
  lemma FlippedStorageIntro(s: seq<bv8>, s': seq<bv8>, full: nat, rem: nat)
    requires |s'| == |s| && rem < 8 && 8 * full + rem <= 8 * |s|
    requires forall k :: 0 <= k < full ==> s'[k] == XorByte(s[k], 0xFF)
    requires rem != 0 ==> s'[full] == XorByte(s[full], Low(rem))
    ensures FlippedStorage(s, s', 8 * full + rem)
  {
    BitPosition(full, rem);
  }

  lemma FlippedBitAt(s: seq<bv8>, s': seq<bv8>, n: nat, i: nat)
    requires FlippedStorage(s, s', n) && i < n
    ensures BitAt(s', i) == !BitAt(s, i)
  {
    BitPlace(i, n);
    BitAtDiv(s, i);
    BitAtDiv(s', i);
    var k, t := i / 8, i % 8;
    if k < n / 8 {
      assert Low(8) == 0xFF;
      XorLowBit(s[k], 8, t);
    } else {
      XorLowBit(s[k], n % 8, t);
    }
  }

  lemma FlippedBits(s: seq<bv8>, s': seq<bv8>, n: nat)
    requires FlippedStorage(s, s', n)
    ensures Unpack(s', n) == Negated(Unpack(s, n))
  {
    forall i | 0 <= i < n
      ensures Unpack(s', n)[i] == Negated(Unpack(s, n))[i]
    {
      FlippedBitAt(s, s', n, i);
    }
  }

  /** `set_all` on storage: full bytes `0xFF`, the partial byte exactly its used bits. */
  ghost predicate FilledStorage(s': seq<bv8>, n: nat)
  {
    n <= 8 * |s'|
    && (forall k :: 0 <= k < n / 8 ==> s'[k] == 0xFF)
    && (n % 8 != 0 ==> s'[n / 8] == Low(n % 8))
  }

  lemma FilledBitAt(s': seq<bv8>, n: nat, i: nat)
    requires FilledStorage(s', n) && i < n
    ensures BitAt(s', i)
  {
    BitPlace(i, n);
    BitAtDiv(s', i);
    var k, t := i / 8, i % 8;
    if k < n / 8 {
      assert Low(8) == 0xFF;
      LowBit(8, t);
    } else {
      LowBit(n % 8, t);
    }
  }

  lemma FilledBits(s': seq<bv8>, n: nat)
    requires FilledStorage(s', n)
    ensures Unpack(s', n) == Fill(true, n)
  {
    forall i | 0 <= i < n
      ensures Unpack(s', n)[i]
    {
      FilledBitAt(s', n, i);
    }
  }

  /**
   * A compound assignment on storage: full bytes combined, the partial byte
   * combined and then masked to its used bits.
   */
  ghost predicate CombinedStorage(op: BitOp, s: seq<bv8>, t: seq<bv8>, s': seq<bv8>, n: nat)
  {
    |s'| == |s| && n <= 8 * |s| && n <= 8 * |t|
    && (forall k :: 0 <= k < n / 8 ==> s'[k] == ApplyByte(op, s[k], t[k]))
    && (n % 8 != 0 ==> s'[n / 8] == AndByte(ApplyByte(op, s[n / 8], t[n / 8]), Low(n % 8)))
  }

  /** The writes of a compound assignment, split at the full bytes, make a combined storage. */
  lemma CombinedStorageIntro(op: BitOp, s: seq<bv8>, t: seq<bv8>, s': seq<bv8>, full: nat, rem: nat)
    requires |s'| == |s| && rem < 8 && 8 * full + rem <= 8 * |s| && 8 * full + rem <= 8 * |t|
    requires forall k :: 0 <= k < full ==> s'[k] == ApplyByte(op, s[k], t[k])
    requires rem != 0 ==> s'[full] == AndByte(ApplyByte(op, s[full], t[full]), Low(rem))
    ensures CombinedStorage(op, s, t, s', 8 * full + rem)
  {
    BitPosition(full, rem);
  }

  /** One bit of a combined byte, masked to the `r` used bits. */
  lemma CombinedByteBit(op: BitOp, a: bv8, b: bv8, c: bv8, r: nat, j: nat)
    requires r <= 8 && j < r && c == AndByte(ApplyByte(op, a, b), Low(r))
    ensures BitOf(c, j) == ApplyBit(op, BitOf(a, j), BitOf(b, j))
  {
    AndLowBit(ApplyByte(op, a, b), r, j);
    ApplyByteBit(op, a, b, j);
  }

  lemma CombinedBitAt(op: BitOp, s: seq<bv8>, t: seq<bv8>, s': seq<bv8>, n: nat, i: nat)
    requires CombinedStorage(op, s, t, s', n) && i < n
    ensures BitAt(s', i) == ApplyBit(op, BitAt(s, i), BitAt(t, i))
  {
    BitPlace(i, n);
    BitAtDiv(s, i);
    BitAtDiv(t, i);
    BitAtDiv(s', i);
    var k, j := i / 8, i % 8;
    if k < n / 8 {
      ApplyByteBit(op, s[k], t[k], j);
    } else {
      CombinedByteBit(op, s[k], t[k], s'[k], n % 8, j);
    }
  }

  lemma CombinedBits(op: BitOp, s: seq<bv8>, t: seq<bv8>, s': seq<bv8>, n: nat)
    requires CombinedStorage(op, s, t, s', n)
    ensures Unpack(s', n) == Zip(op, Unpack(s, n), Unpack(t, n))
  {
    var u, v, w := Unpack(s, n), Unpack(t, n), Unpack(s', n);
    var z := Zip(op, u, v);
    forall i | 0 <= i < n
      ensures w[i] == z[i]
    {
      CombinedBitAt(op, s, t, s', n, i);
    }
    assert w == z;
  }

  /** Storage whose bytes are all zero holds only zero bits. */
  lemma ZeroStorageBits(s: seq<bv8>, n: nat)
    requires n <= 8 * |s| && forall k :: 0 <= k < |s| ==> s[k] == 0
    ensures Unpack(s, n) == Fill(false, n)
  {
    ZeroByte(0);
    forall i | 0 <= i < n
      ensures !Unpack(s, n)[i]
    {
      BitAtDiv(s, i);
    }
  }

  /** Bytes beyond the first `8 * |s|` bits do not affect those bits. */
  lemma UnpackExtend(s: seq<bv8>, s': seq<bv8>, n: nat)
    requires n <= 8 * |s| <= 8 * |s'| && s'[..|s|] == s
    ensures Unpack(s', n) == Unpack(s, n)
  {
    forall i | 0 <= i < n
      ensures Unpack(s', n)[i] == Unpack(s, n)[i]
    {
      BitAtDiv(s, i);
      BitAtDiv(s', i);
      assert s'[i / 8] == s[i / 8];
    }
  }

  /** The first `n` bits are a prefix of the first `m`. */
  lemma UnpackPrefix(s: seq<bv8>, n: nat, m: nat)
    requires n <= m <= 8 * |s|
    ensures Unpack(s, m)[..n] == Unpack(s, n)
  {
  }

  // ---------------------------------------------------------------------
  // resize on storage

  /** Clears the bits of the byte holding bit `bits` from that bit upward. */
  function MaskTail(s: seq<bv8>, bits: nat): (r: seq<bv8>)
    requires bits <= 8 * |s|
    ensures |r| == |s|
  {
    if bits % 8 == 0 then s else s[bits / 8 := s[bits / 8] & Low(bits % 8)]
  }

  /** `fill(p + from, p + to, 0)`. */
  function ZeroBytes(s: seq<bv8>, from: nat, to: nat): (r: seq<bv8>)
    requires from <= to <= |s|
    ensures |r| == |s|
  {
    s[..from] + seq(to - from, _ => 0) + s[to..]
  }

  /**
   * The growing branch of `resize` applied to the storage it writes, as
   * written: mask the prev partial byte, zero the full bytes from the first
   * byte past the prev size up to (not including) the new partial byte, then
   * mask the new partial byte to its used bits.
   */
  function GrowStorageAsWritten(s: seq<bv8>, prev: nat, n: nat): (r: seq<bv8>)
    requires prev < n <= 8 * |s|
    ensures |r| == |s|
  {
    var s1 := MaskTail(s, prev);
    var start := SizeBytes(prev);
    var s2 := if start < n / 8 then ZeroBytes(s1, start, n / 8) else s1;
    MaskTail(s2, n)
  }

  /** The intended growth: every byte from the first past the prev size to the last byte the new size uses is zeroed. */
  function GrowStorage(s: seq<bv8>, prev: nat, n: nat): (r: seq<bv8>)
    requires prev < n <= 8 * |s|
    ensures |r| == |s|
  {
    ZeroBytes(MaskTail(s, prev), SizeBytes(prev), SizeBytes(n))
  }

  /** Masking at `bits` keeps every bit below `bits`. */
  lemma MaskTailKeeps(s: seq<bv8>, bits: nat, i: nat)
    requires bits <= 8 * |s| && i < bits
    ensures BitAt(MaskTail(s, bits), i) == BitAt(s, i)
  {
    BitAtDiv(s, i);
    BitAtDiv(MaskTail(s, bits), i);
    if bits % 8 != 0 && i / 8 == bits / 8 {
      BitPlace(i, bits);
      AndLowBit(s[bits / 8], bits % 8, i % 8);
    }
  }

  /** Masking at `bits` clears the rest of that byte. */
  lemma MaskTailClears(s: seq<bv8>, bits: nat, i: nat)
    requires bits <= i < 8 * |s| && i / 8 == bits / 8 && bits % 8 != 0
    ensures !BitAt(MaskTail(s, bits), i)
  {
    BitAtDiv(MaskTail(s, bits), i);
    AndLowBit(s[bits / 8], bits % 8, i % 8);
  }

  lemma GrowStorageBitAt(s: seq<bv8>, prev: nat, n: nat, i: nat)
    requires prev < n <= 8 * |s| && i < n
    ensures BitAt(GrowStorage(s, prev, n), i) == if i < prev then BitAt(s, i) else false
  {
    var s1 := MaskTail(s, prev);
    var r := GrowStorage(s, prev, n);
    BitAtDiv(r, i);
    BitAtDiv(s1, i);
    if i / 8 < SizeBytes(prev) {
      assert r[i / 8] == s1[i / 8];
      if i < prev {
        MaskTailKeeps(s, prev, i);
      } else {
        MaskTailClears(s, prev, i);
      }
    } else {
      assert r[i / 8] == 0;
      ZeroByte(0);
    }
  }

  /** The intended growth keeps the prev bits and appends zero bits. */
  lemma GrowStorageBits(s: seq<bv8>, prev: nat, n: nat)
    requires prev < n <= 8 * |s|
    ensures Unpack(GrowStorage(s, prev, n), n) == Unpack(s, prev) + Fill(false, n - prev)
  {
    forall i | 0 <= i < n
      ensures Unpack(GrowStorage(s, prev, n), n)[i] == (Unpack(s, prev) + Fill(false, n - prev))[i]
    {
      GrowStorageBitAt(s, prev, n, i);
    }
  }

  /** Growing as written keeps the prev bits. */
  lemma GrowStorageAsWrittenKeeps(s: seq<bv8>, prev: nat, n: nat)
    requires prev < n <= 8 * |s|
    ensures Unpack(GrowStorageAsWritten(s, prev, n), n)[..prev] == Unpack(s, prev)
  {
    var s1 := MaskTail(s, prev);
    var s2 := if SizeBytes(prev) < n / 8 then ZeroBytes(s1, SizeBytes(prev), n / 8) else s1;
    forall i | 0 <= i < prev
      ensures BitAt(GrowStorageAsWritten(s, prev, n), i) == BitAt(s, i)
    {
      MaskTailKeeps(s2, n, i);
      BitAtDiv(s2, i);
      BitAtDiv(s1, i);
      assert s2[i / 8] == s1[i / 8];
      MaskTailKeeps(s, prev, i);
    }
  }

  /**
   * A vector of 16 set bits shrunk to 0 keeps its bytes; growing it to 12
   * in place then reports bit 8 as set, where the new bits should be zero.
   */
  lemma GrowStorageAsWrittenKeepsStaleBits()
    ensures Unpack(GrowStorageAsWritten([0xFF, 0xFF], 0, 12), 12)[8]
    ensures !Unpack(GrowStorage([0xFF, 0xFF], 0, 12), 12)[8]
  {
    var r := GrowStorageAsWritten([0xFF, 0xFF], 0, 12);
    assert r[1] == 0xFF & Low(4);
    AndLowBit(0xFF, 4, 0);
    assert Low(8) == 0xFF;
    LowBit(8, 0);
    GrowStorageBitAt([0xFF, 0xFF], 0, 12, 8);
  }

  /**
   * After a reallocation the writes of `resize` go through the pointer
   * taken before `reserve`; the live storage is the old bytes followed by
   * whatever the new block holds. When the old block was one byte `0xFF`,
   * bit 0 of the grown vector reads set.
   */
  lemma ReallocatedStorageKeepsStaleBits(rest: seq<bv8>, n: nat)
    requires 1 <= n <= 8 * (1 + |rest|)
    ensures Unpack([0xFF] + rest, n)[0]
  {
    assert Low(8) == 0xFF;
    LowBit(8, 0);
  }

  // ---------------------------------------------------------------------
  // Counting

  /** The number of set bits among the `m` lowest bits of a byte. */
  function PopLow(b: bv8, m: nat): (r: nat)
    requires m <= 8
    ensures r <= m
  {
    if m == 0 then 0 else PopLow(b, m - 1) + (if BitOf(b, m - 1) then 1 else 0)
  }

  /** All eight bits of a byte counted at once. */
  function PopByte(b: bv8): nat
  {
    (if Bit8(b, 0) then 1 else 0) + (if Bit8(b, 1) then 1 else 0) + (if Bit8(b, 2) then 1 else 0)
    + (if Bit8(b, 3) then 1 else 0) + (if Bit8(b, 4) then 1 else 0) + (if Bit8(b, 5) then 1 else 0)
    + (if Bit8(b, 6) then 1 else 0) + (if Bit8(b, 7) then 1 else 0)
  }

  lemma PopLowByte(b: bv8)
    ensures PopLow(b, 8) == PopByte(b)
  {
    assert PopLow(b, 1) == if Bit8(b, 0) then 1 else 0;
    assert PopLow(b, 2) == PopLow(b, 1) + if Bit8(b, 1) then 1 else 0;
    assert PopLow(b, 3) == PopLow(b, 2) + if Bit8(b, 2) then 1 else 0;
    assert PopLow(b, 4) == PopLow(b, 3) + if Bit8(b, 3) then 1 else 0;
    assert PopLow(b, 5) == PopLow(b, 4) + if Bit8(b, 4) then 1 else 0;
    assert PopLow(b, 6) == PopLow(b, 5) + if Bit8(b, 5) then 1 else 0;
    assert PopLow(b, 7) == PopLow(b, 6) + if Bit8(b, 6) then 1 else 0;
  }

  /** `v &= v - 1` clears exactly one set bit of a nonzero byte. */
  lemma ClearLowestSetBit(v: bv8)
    requires v != 0
    ensures PopByte(v & (v - 1)) + 1 == PopByte(v)
  {
  }

  /** Masking to `r` bits counts only the bits below `r`. */
  lemma {:induction false} PopLowMasked(b: bv8, r: nat, m: nat)
    requires r <= 8 && m <= 8
    ensures PopLow(b & Low(r), m) == PopLow(b, if m < r then m else r)
  {
    if m > 0 {
      PopLowMasked(b, r, m - 1);
      AndLowBit(b, r, m - 1);
    }
  }

  /** The number of set bits among the first `n` bits of the storage. */
  function PopBits(s: seq<bv8>, n: nat): nat
    requires n <= 8 * |s|
  {
    if n == 0 then 0 else PopBits(s, n - 1) + (if BitAt(s, n - 1) then 1 else 0)
  }

  lemma {:induction false} CountUnpack(s: seq<bv8>, n: nat)
    requires n <= 8 * |s|
    ensures CountTrue(Unpack(s, n)) == PopBits(s, n)
  {
    if n > 0 {
      CountUnpack(s, n - 1);
      CountSnoc(Unpack(s, n - 1), BitAt(s, n - 1));
    }
  }

  /** One more bit of byte `k` counted. */
  lemma PopBitsByteStep(s: seq<bv8>, k: nat, j: nat)
    requires k < |s| && j < 8
    ensures PopBits(s, 8 * k + j + 1) == PopBits(s, 8 * k + j) + (if BitOf(s[k], j) then 1 else 0)
  {
    BitOfByte(s, k, j);
  }

  /** Counting the bits of byte `k` one at a time on top of the bytes below it. */
  lemma {:induction false} CountByte(s: seq<bv8>, k: nat, m: nat)
    requires m <= 8 && k < |s|
    ensures PopBits(s, 8 * k + m) == PopBits(s, 8 * k) + PopLow(s[k], m)
  {
    if m > 0 {
      CountByte(s, k, m - 1);
      PopBitsByteStep(s, k, m - 1);
    }
  }

  /** Negating every bit turns the set bits into the clear ones. */
  lemma {:induction false} CountNegated(a: seq<bool>)
    ensures CountTrue(Negated(a)) == |a| - CountTrue(a)
  {
    if |a| > 0 {
      var init := a[..|a| - 1];
      CountNegated(init);
      assert a == init + [a[|a| - 1]];
      CountSnoc(init, a[|a| - 1]);
      CountSnoc(Negated(init), !a[|a| - 1]);
    }
  }

  lemma {:induction false} CountFill(b: bool, n: nat)
    ensures CountTrue(Fill(b, n)) == if b then n else 0
  {
    if n > 0 {
      CountFill(b, n - 1);
      CountSnoc(Fill(b, n - 1), b);
    }
  }

  // ---------------------------------------------------------------------
  // Scanning a byte one mask at a time

  lemma ShiftUp8(k: bv8)
    requires k < 7
    ensures ((1 as bv8) << k) << 1 == (1 as bv8) << (k + 1)
  {
  }

  lemma ShiftDown8(k: bv8)
    requires 0 < k < 8
    ensures ((1 as bv8) << k) >> 1 == (1 as bv8) << (k - 1)
  {
  }

  lemma ShiftOrder8(i: bv8, k: bv8)
    requires i < 8 && k < 8
    ensures ((1 as bv8) << i < (1 as bv8) << k) == (i < k)
  {
  }

  lemma TestMask8(v: bv8, k: bv8)
    requires k < 8
    ensures (v & ((1 as bv8) << k) != 0) == Bit8(v, k)
  {
  }

  /** `bit <<= 1` moves the mask of bit `j` to bit `j + 1`, and out past bit 7. */
  lemma MaskShiftUp(j: nat)
    requires j < 8
    ensures Mask(j) << 1 == if j < 7 then Mask(j + 1) else 0
  {
    if j < 7 {
      assert Idx(j + 1) == Idx(j) + 1;
      ShiftUp8(Idx(j));
    }
  }

  /** `bit >>= 1` moves the mask of bit `j` to bit `j - 1`, and out below bit 0. */
  lemma MaskShiftDown(j: nat)
    requires j < 8
    ensures Mask(j) >> 1 == if 0 < j then Mask(j - 1) else 0
  {
    if 0 < j {
      assert Idx(j - 1) == Idx(j) - 1;
      ShiftDown8(Idx(j));
    }
  }

  /** `(v & bit) != 0` tests bit `j` when `bit` is its mask. */
  lemma MaskTest(v: bv8, j: nat)
    requires j < 8
    ensures (v & Mask(j) != 0) == BitOf(v, j)
  {
    TestMask8(v, Idx(j));
  }

  /** Masks compare as their bit positions do. */
  lemma MaskOrder(i: nat, j: nat)
    requires i < 8 && j < 8
    ensures (Mask(i) < Mask(j)) == (i < j)
  {
    ShiftOrder8(Idx(i), Idx(j));
    IdxOrder(j, i);
  }

  lemma MaskNonZero(j: nat)
    requires j < 8
    ensures Mask(j) != 0
  {
    MaskTest(Mask(j), j);
    MaskBit(j, j);
  }

  /** The bits of byte `k`, each at its place in the sequence. */
  lemma ByteBitsAt(s: seq<bv8>, k: nat)
    requires k < |s|
    ensures forall t :: 8 * k <= t < 8 * k + 8 ==> BitAt(s, t) == BitOf(s[k], t - 8 * k)
  {
    forall t | 8 * k <= t < 8 * k + 8
      ensures BitAt(s, t) == BitOf(s[k], t - 8 * k)
    {
      BitOfByte(s, k, t - 8 * k);
    }
  }

  // ---------------------------------------------------------------------
  // Equality of the used bits

  /** Storages whose full bytes agree and whose partial bytes agree once masked. */
  ghost predicate SameUsedBytes(s: seq<bv8>, t: seq<bv8>, n: nat)
  {
    n <= 8 * |s| && n <= 8 * |t|
    && (forall k :: 0 <= k < n / 8 ==> s[k] == t[k])
    && (n % 8 != 0 ==> s[n / 8] & Low(n % 8) == t[n / 8] & Low(n % 8))
  }

  lemma SameUsedBitAt(s: seq<bv8>, t: seq<bv8>, n: nat, i: nat)
    requires SameUsedBytes(s, t, n) && i < n
    ensures BitAt(s, i) == BitAt(t, i)
  {
    BitPlace(i, n);
    BitAtDiv(s, i);
    BitAtDiv(t, i);
    if i / 8 == n / 8 {
      AndLowBit(s[n / 8], n % 8, i % 8);
      AndLowBit(t[n / 8], n % 8, i % 8);
    }
  }

  lemma SameUsedBits(s: seq<bv8>, t: seq<bv8>, n: nat)
    requires SameUsedBytes(s, t, n)
    ensures Unpack(s, n) == Unpack(t, n)
  {
    forall i | 0 <= i < n
      ensures Unpack(s, n)[i] == Unpack(t, n)[i]
    {
      SameUsedBitAt(s, t, n, i);
    }
  }

  /** A full byte that differs makes the used bits differ. */
  lemma FullByteDiffers(s: seq<bv8>, t: seq<bv8>, n: nat, k: nat)
    requires n <= 8 * |s| && n <= 8 * |t| && k < n / 8 && s[k] != t[k]
    ensures Unpack(s, n) != Unpack(t, n)
  {
    ByteBits(s[k], t[k]);
    var j :| 0 <= j < 8 && BitOf(s[k], j) != BitOf(t[k], j);
    BitOfByte(s, k, j);
    BitOfByte(t, k, j);
    assert Unpack(s, n)[8 * k + j] != Unpack(t, n)[8 * k + j];
  }

  /** Two bytes that differ once masked to `r` bits differ in one of those bits. */
  lemma MaskedBytesDiffer(a: bv8, b: bv8, r: nat)
    requires r <= 8 && a & Low(r) != b & Low(r)
    ensures exists j :: 0 <= j < r && BitOf(a, j) != BitOf(b, j)
  {
    var x, y := a & Low(r), b & Low(r);
    ByteBits(x, y);
    var j :| 0 <= j < 8 && BitOf(x, j) != BitOf(y, j);
    AndLowBit(a, r, j);
    AndLowBit(b, r, j);
  }

  /** A partial byte that differs in its used bits makes the used bits differ. */
  lemma PartialByteDiffers(s: seq<bv8>, t: seq<bv8>, n: nat)
    requires n <= 8 * |s| && n <= 8 * |t| && n % 8 != 0
    requires s[n / 8] & Low(n % 8) != t[n / 8] & Low(n % 8)
    ensures Unpack(s, n) != Unpack(t, n)
  {
    var k := n / 8;
    MaskedBytesDiffer(s[k], t[k], n % 8);
    var j :| 0 <= j < n % 8 && BitOf(s[k], j) != BitOf(t[k], j);
    BitOfByte(s, k, j);
    BitOfByte(t, k, j);
    assert Unpack(s, n)[8 * k + j] != Unpack(t, n)[8 * k + j];
  }

  /** Masking the partial byte at the size leaves the used bits alone. */
  lemma UnpackMaskTail(s: seq<bv8>, n: nat)
    requires n <= 8 * |s|
    ensures Unpack(MaskTail(s, n), n) == Unpack(s, n)
  {
    forall i | 0 <= i < n
      ensures Unpack(MaskTail(s, n), n)[i] == Unpack(s, n)[i]
    {
      MaskTailKeeps(s, n, i);
    }
  }
}
