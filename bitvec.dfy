/**
 * The `fast_io::containers::bitvec` container with eight-bit storage units:
 * a growable sequence of bits packed eight to a byte, bit `i` being bit
 * `i % 8` of byte `i / 8`.
 */
module Bitvec {
  import opened Arith
  import opened BitLayout

  function Min(a: nat, b: nat): (r: nat)
    ensures r <= a && r <= b && (r == a || r == b)
  {
    if a < b then a else b
  }

  class BitVec {
    /** `imp.begin_ptr`: the storage, `capacity_bytes()` bytes long. */
    var bytes: array<bv8>
    /** `imp.curr_pos`: the number of bits in use. */
    var currPos: nat
    /** `imp.end_pos`: the capacity in bits, eight per storage byte. */
    var endPos: nat

    ghost predicate Valid()
      reads this
    {
      endPos == 8 * bytes.Length && bytes.Length <= MaxSizeBytes && currPos <= endPos
    }

    /** The bits in use, first to last. */
    ghost function Contents(): seq<bool>
      requires Valid()
      reads this, bytes
    {
      Unpack(bytes[..], currPos)
    }

    /** The default constructor: no bits and no storage. */
    constructor ()
      ensures Valid() && Contents() == [] && endPos == 0
    {
      bytes := new bv8[0];
      currPos, endPos := 0, 0;
    }

    /**
     * `bitvec(n)` through `allocate_new_bits`: `n` zero bits in exactly
     * `size_bytes()` zeroed bytes; more bytes than `max_size_bytes()` terminate.
     */
    constructor OfSize(n: nat)
      requires SizeBytes(n) <= MaxSizeBytes
      ensures Valid() && Contents() == Fill(false, n)
      ensures endPos == 8 * SizeBytes(n) && fresh(bytes)
    {
      bytes := new bv8[SizeBytes(n)](_ => 0);
      currPos := n;
      endPos := 8 * SizeBytes(n);
      new;
      ZeroStorageBits(bytes[..], n);
    }

    /** `size()`. */
    function Size(): (r: nat)
      requires Valid()
      reads this, bytes
      ensures r == |Contents()|
    {
      currPos
    }

    /** `size_bytes()`: the bytes the bits in use occupy, rounded up. */
    function UsedBytes(): (r: nat)
      requires Valid()
      reads this, bytes
      ensures 8 * r >= |Contents()| && 8 * (r - 1) < |Contents()|
      ensures r <= bytes.Length
    {
      var (full, rem) := SplitBits(currPos);
      full + if rem != 0 then 1 else 0
    }

    /** `empty()`. */
    function IsEmpty(): (r: bool)
      requires Valid()
      reads this, bytes
      ensures r <==> Contents() == []
    {
      currPos == 0
    }

    /** `test_unchecked(pos)`: bit `pos % 8` of byte `pos / 8`. */
    function TestUnchecked(pos: nat): (b: bool)
      requires Valid() && pos < currPos
      reads this, bytes
      ensures b == Contents()[pos]
    {
      BitAtDiv(bytes[..], pos);
      BitOf(bytes[pos / 8], pos % 8)
    }

    /** `test(pos)`: terminates (`ok` false) unless `pos < size()`. */
    method Test(pos: nat) returns (ok: bool, b: bool)
      requires Valid()
      ensures ok <==> pos < |Contents()|
      ensures ok ==> b == Contents()[pos]
    {
      if currPos <= pos {
        return false, false;
      }
      ok, b := true, TestUnchecked(pos);
    }

    /**
     * `set_unchecked(pos, value)`: the storage byte of `pos` gets bit
     * `pos % 8` replaced; inside the size exactly bit `pos` changes.
     */
    method SetUnchecked(pos: nat, value: bool)
      requires Valid() && pos < endPos
      modifies bytes
      ensures bytes[..] == old(bytes[..])[pos / 8 := SetBit(old(bytes[pos / 8]), pos % 8, value)]
      ensures Contents() == if pos < currPos then old(Contents())[pos := value] else old(Contents())
    {
      UnpackSetBit(bytes[..], pos, value, currPos);
      bytes[pos / 8] := SetBit(bytes[pos / 8], pos % 8, value);
    }

    /** `set(pos, value)`: terminates (`ok` false, nothing changed) unless `pos < size()`. */
    method Set(pos: nat, value: bool) returns (ok: bool)
      requires Valid()
      modifies bytes
      ensures ok <==> pos < old(|Contents()|)
      ensures Contents() == if ok then old(Contents())[pos := value] else old(Contents())
    {
      if currPos <= pos {
        return false;
      }
      SetUnchecked(pos, value);
      ok := true;
    }

    /** `reset_unchecked(pos)`: bit `pos` cleared in its storage byte. */
    method ResetUnchecked(pos: nat)
      requires Valid() && pos < endPos
      modifies bytes
      ensures bytes[..] == old(bytes[..])[pos / 8 := ClearBit(old(bytes[pos / 8]), pos % 8)]
      ensures Contents() == if pos < currPos then old(Contents())[pos := false] else old(Contents())
    {
      UnpackClearBit(bytes[..], pos, currPos);
      bytes[pos / 8] := ClearBit(bytes[pos / 8], pos % 8);
    }

    /** `reset(pos)`: terminates unless `pos < size()`. */
    method Reset(pos: nat) returns (ok: bool)
      requires Valid()
      modifies bytes
      ensures ok <==> pos < old(|Contents()|)
      ensures Contents() == if ok then old(Contents())[pos := false] else old(Contents())
    {
      if currPos <= pos {
        return false;
      }
      ResetUnchecked(pos);
      ok := true;
    }

    /** `flip_unchecked(pos)`: bit `pos` toggled in its storage byte. */
    method FlipUnchecked(pos: nat)
      requires Valid() && pos < endPos
      modifies bytes
      ensures bytes[..] == old(bytes[..])[pos / 8 := FlipBit(old(bytes[pos / 8]), pos % 8)]
      ensures Contents() == if pos < currPos then old(Contents())[pos := !old(Contents())[pos]] else old(Contents())
    {
      UnpackFlipBit(bytes[..], pos, currPos);
      bytes[pos / 8] := FlipBit(bytes[pos / 8], pos % 8);
    }

    /** `flip(pos)`: terminates unless `pos < size()`. */
    method Flip(pos: nat) returns (ok: bool)
      requires Valid()
      modifies bytes
      ensures ok <==> pos < old(|Contents()|)
      ensures Contents() == if ok then old(Contents())[pos := !old(Contents())[pos]] else old(Contents())
    {
      if currPos <= pos {
        return false;
      }
      FlipUnchecked(pos);
      ok := true;
    }

    /** `push_back_unchecked(v)`: stores `v` at bit `size()` and counts it in. */
    method PushBackUnchecked(v: bool)
      requires Valid() && currPos < endPos
      modifies this, bytes
      ensures Valid() && bytes == old(bytes) && endPos == old(endPos)
      ensures bytes[..] == old(bytes[..])[old(currPos) / 8 := SetBit(old(bytes[currPos / 8]), old(currPos) % 8, v)]
      ensures Contents() == old(Contents()) + [v]
    {
      ghost var s0 := bytes[..];
      ghost var u := Unpack(s0, currPos);
      var pos := currPos;
      UnpackSetBit(s0, pos, v, pos + 1);
      assert Unpack(s0, pos + 1) == u + [BitAt(s0, pos)];
      bytes[pos / 8] := SetBit(bytes[pos / 8], pos % 8, v);
      currPos := pos + 1;
      assert (u + [BitAt(s0, pos)])[pos := v] == u + [v];
    }

    /**
     * `grow_to_new_capacity(m)`: a fresh block of `m` bytes (clamped to
     * `max_size_bytes()`) holding the old bytes followed by zeros.
     */
    method GrowTo(m: nat)
      requires Valid() && bytes.Length <= m
      modifies this
      ensures Valid() && fresh(bytes) && currPos == old(currPos)
      ensures bytes.Length == Min(m, MaxSizeBytes)
      ensures bytes[..] == old(bytes[..]) + seq(bytes.Length - old(bytes.Length), _ => 0)
      ensures Contents() == old(Contents())
    {
      var cap := Min(m, MaxSizeBytes);
      var a := new bv8[cap];
      forall i | 0 <= i < cap {
        a[i] := if i < bytes.Length then bytes[i] else 0;
      }
      assert a[..bytes.Length] == bytes[..];
      assert a[..] == bytes[..] + seq(cap - bytes.Length, _ => 0);
      UnpackExtend(bytes[..], a[..], currPos);
      bytes := a;
      endPos := 8 * cap;
    }

    /**
     * `grow_twice()`: doubles the byte capacity, or allocates one byte when
     * there is none. Its `SIZE_MAX >> 1 < capacity` termination cannot
     * fire, since the capacity never exceeds `max_size_bytes()`.
     */
    method GrowTwice()
      requires Valid()
      modifies this
      ensures Valid() && fresh(bytes) && currPos == old(currPos)
      ensures bytes.Length == Min(if old(bytes.Length) == 0 then 1 else 2 * old(bytes.Length), MaxSizeBytes)
      ensures bytes[..] == old(bytes[..]) + seq(bytes.Length - old(bytes.Length), _ => 0)
      ensures Contents() == old(Contents())
    {
      var toAllocate := if bytes.Length == 0 then 1 else 2 * bytes.Length;
      GrowTo(toAllocate);
    }

    /**
     * `push_back(v)`: grows (doubling) only when the size has reached the
     * capacity, then appends `v`.
     */
    method PushBack(v: bool)
      requires Valid() && currPos < 8 * MaxSizeBytes
      modifies this, bytes
      ensures Valid() && Contents() == old(Contents()) + [v]
      ensures old(currPos) < old(endPos) ==> bytes == old(bytes) && endPos == old(endPos)
      ensures old(currPos) == old(endPos) ==>
        fresh(bytes) && bytes.Length == Min(if old(bytes.Length) == 0 then 1 else 2 * old(bytes.Length), MaxSizeBytes)
    {
      if currPos == endPos {
        GrowTwice();
      }
      PushBackUnchecked(v);
    }

    /** `pop_back_unchecked()`: returns the last bit, clears it in storage and drops it. */
    method PopBackUnchecked() returns (b: bool)
      requires Valid() && 0 < currPos
      modifies this, bytes
      ensures Valid() && bytes == old(bytes) && endPos == old(endPos)
      ensures bytes[..] == old(bytes[..])[(old(currPos) - 1) / 8 := ClearBit(old(bytes[(currPos - 1) / 8]), (old(currPos) - 1) % 8)]
      ensures b == old(Contents())[old(currPos) - 1]
      ensures Contents() == old(Contents())[..old(currPos) - 1]
    {
      var pos := currPos - 1;
      UnpackClearBit(bytes[..], pos, pos);
      UnpackPrefix(bytes[..], pos, currPos);
      BitAtDiv(bytes[..], pos);
      b := BitOf(bytes[pos / 8], pos % 8);
      bytes[pos / 8] := ClearBit(bytes[pos / 8], pos % 8);
      currPos := pos;
    }

    /** `pop_back()`: terminates (`ok` false) on an empty vector. */
    method PopBack() returns (ok: bool, b: bool)
      requires Valid()
      modifies this, bytes
      ensures Valid() && bytes == old(bytes) && endPos == old(endPos)
      ensures ok <==> old(Contents()) != []
      ensures ok ==> b == old(Contents())[old(currPos) - 1] && Contents() == old(Contents())[..old(currPos) - 1]
      ensures !ok ==> Contents() == old(Contents())
    {
      if currPos == 0 {
        return false, false;
      }
      b := PopBackUnchecked();
      ok := true;
    }

    /** `capacity()`. */
    function Capacity(): (r: nat)
      requires Valid()
      reads this, bytes
      ensures r == 8 * bytes.Length && |Contents()| <= r
    {
      endPos
    }

    /**
     * `reserve(n)`: when the capacity is below `n` bits, grows to the bytes
     * `n` bits need; the bits in use are kept.
     */
    method Reserve(n: nat)
      requires Valid() && n <= SizeMax
      modifies this
      ensures Valid() && currPos == old(currPos) && Contents() == old(Contents())
      ensures n <= old(endPos) ==> bytes == old(bytes) && endPos == old(endPos)
      ensures old(endPos) < n ==>
        && fresh(bytes) && bytes.Length == Min(SizeBytes(n), MaxSizeBytes)
        && bytes[..] == old(bytes[..]) + seq(bytes.Length - old(bytes.Length), _ => 0)
      ensures n <= 8 * MaxSizeBytes ==> n <= endPos
    {
      if endPos < n {
        GrowTo(BitsToBlocks(n));
      }
    }

    /** `clear()`: the size drops to zero; storage and capacity stay. */
    method Clear()
      requires Valid()
      modifies this
      ensures Valid() && Contents() == [] && bytes == old(bytes) && endPos == old(endPos)
    {
      currPos := 0;
    }

    /**
     * `flip_all()`: full bytes XORed with `0xFF`, the partial byte with the
     * mask of its used bits; bytes past `size_bytes()` are untouched.
     */
    method FlipAll()
      requires Valid()
      modifies bytes
      ensures FlippedStorage(old(bytes[..]), bytes[..], currPos)
      ensures forall k :: UsedBytes() <= k < bytes.Length ==> bytes[k] == old(bytes[k])
      ensures Contents() == Negated(old(Contents()))
    {
      ghost var s0 := bytes[..];
      if UsedBytes() != 0 {
        FlipStorage(bytes, currPos);
      }
      FlippedBits(s0, bytes[..], currPos);
    }

    /** `set_all()`: full bytes become `0xFF`, the partial byte exactly its used bits. */
    method SetAll()
      requires Valid()
      modifies bytes
      ensures FilledStorage(bytes[..], currPos)
      ensures forall k :: UsedBytes() <= k < bytes.Length ==> bytes[k] == old(bytes[k])
      ensures Contents() == Fill(true, |Contents()|)
    {
      if UsedBytes() == 0 {
        FilledBits(bytes[..], currPos);
        return;
      }
      var (full, rem) := SplitBits(currPos);
      forall k | 0 <= k < full {
        bytes[k] := 0xFF;
      }
      if rem != 0 {
        bytes[full] := Low(rem);
      }
      FilledBits(bytes[..], currPos);
    }

    /**
     * `operator&=`, `operator|=` and `operator^=`: terminate (`ok` false)
     * unless both sizes agree; otherwise every used bit becomes the bitwise
     * result. `other` may be this vector itself.
     */
    method Assign(op: BitOp, other: BitVec) returns (ok: bool)
      requires Valid() && other.Valid()
      modifies bytes
      ensures ok <==> old(|Contents()|) == old(|other.Contents()|)
      ensures !ok ==> bytes[..] == old(bytes[..])
      ensures ok ==> CombinedStorage(op, old(bytes[..]), old(other.bytes[..]), bytes[..], currPos)
      ensures forall k :: UsedBytes() <= k < bytes.Length ==> bytes[k] == old(bytes[k])
      ensures ok ==> Contents() == Zip(op, old(Contents()), old(other.Contents()))
    {
      if currPos != other.currPos {
        return false;
      }
      ghost var s0 := bytes[..];
      ghost var t0 := other.bytes[..];
      CombineStorage(op, bytes, other.bytes, currPos);
      CombinedBits(op, s0, t0, bytes[..], currPos);
      ok := true;
    }

    /**
     * `countr_zero()`: the number of clear bits below the lowest set bit,
     * reading only bits below `size()`; all of them when none is set.
     */
    method CountrZero() returns (c: nat)
      requires Valid()
      ensures c <= |Contents()|
      ensures forall i :: 0 <= i < c ==> !Contents()[i]
      ensures c < |Contents()| ==> Contents()[c]
    {
      ghost var s := bytes[..];
      if currPos == 0 {
        return 0;
      }
      var (full, rem) := SplitBits(currPos);
      var found;
      found, c := ScanUp(bytes, full);
      if found {
        return c;
      }
      if rem != 0 {
        var j := PartialTrailingZeros(bytes[full], rem);
        ByteBitsAt(s, full);
        c := c + j;
      }
    }

    /**
     * `countl_zero()`: the number of clear bits above the highest set bit
     * below `size()`, scanning the partial byte first; all of them when
     * none is set.
     */
    method CountlZero() returns (c: nat)
      requires Valid()
      ensures c <= |Contents()|
      ensures forall i :: |Contents()| - c <= i < |Contents()| ==> !Contents()[i]
      ensures c < |Contents()| ==> Contents()[|Contents()| - 1 - c]
    {
      ghost var s := bytes[..];
      if currPos == 0 {
        return 0;
      }
      var (full, rem) := SplitBits(currPos);
      c := 0;
      if rem != 0 {
        var found, lead := PartialLeadingZeros(bytes[full], rem);
        ByteBitsAt(s, full);
        if found {
          return lead;
        }
        c := rem;
      }
      var more := ScanDown(bytes, full);
      c := c + more;
    }

    /**
     * `popcount()`: the number of set bits below `size()`, counted byte by
     * byte with the partial byte masked.
     */
    method Popcount() returns (total: nat)
      requires Valid()
      ensures total == CountTrue(Contents())
    {
      ghost var s := bytes[..];
      CountUnpack(s, currPos);
      if currPos == 0 {
        return 0;
      }
      var (full, rem) := SplitBits(currPos);
      total := PopcountFull(bytes, full);
      if rem != 0 {
        var v := bytes[full] & Low(rem);
        var c := PopcountByte(v);
        PopLowByte(v);
        PopLowMasked(s[full], rem, 8);
        CountByte(s, full, rem);
        total := total + c;
      }
    }

    /**
     * `resize(n)` as written: the storage pointer is read before `reserve`,
     * so when `reserve` moves the bits to a new block every write of the
     * growing branch lands in the released block and the new block keeps
     * whatever the old one held past the old size.
     */
    method ResizeAsWritten(n: nat)
      requires Valid() && n <= 8 * MaxSizeBytes
      modifies this, bytes
      ensures Valid() && currPos == n
      ensures n == old(currPos) ==> bytes == old(bytes) && bytes[..] == old(bytes[..])
      ensures n < old(currPos) ==> bytes == old(bytes) && bytes[..] == MaskTail(old(bytes[..]), n)
      ensures old(currPos) < n <= old(endPos) ==>
        bytes == old(bytes) && bytes[..] == GrowStorageAsWritten(old(bytes[..]), old(currPos), n)
      ensures old(endPos) < n ==>
        fresh(bytes) && bytes[..] == old(bytes[..]) + seq(bytes.Length - old(bytes.Length), _ => 0)
    {
      var prev := currPos;
      if n == prev {
        return;
      }
      var p := bytes;
      if n > prev {
        Reserve(n);
        if p == bytes {
          GrowInPlaceAsWritten(p, prev, n);
        }
        currPos := n;
        return;
      }
      currPos := n;
      MaskPartial(p, n);
    }

    /**
     * `resize(n)` with the storage pointer read after `reserve` and every
     * byte from the first past the old size through the last the new size
     * uses zeroed: the kept bits stay and the new ones are zero.
     */
    method Resize(n: nat)
      requires Valid() && n <= 8 * MaxSizeBytes
      modifies this, bytes
      ensures Valid()
      ensures Contents() == if n <= old(currPos) then old(Contents())[..n] else old(Contents()) + Fill(false, n - old(currPos))
    {
      var prev := currPos;
      if n == prev {
        return;
      }
      if n > prev {
        Reserve(n);
        GrowStorageBits(bytes[..], prev, n);
        GrowInPlace(bytes, prev, n);
        currPos := n;
        return;
      }
      UnpackPrefix(bytes[..], n, prev);
      UnpackMaskTail(bytes[..], n);
      currPos := n;
      MaskPartial(bytes, n);
    }
  }

  /** Clears the bits of the byte holding bit `bits` from that bit upward. */
  method MaskPartial(p: array<bv8>, bits: nat)
    requires bits <= 8 * p.Length
    modifies p
    ensures p[..] == MaskTail(old(p[..]), bits)
  {
    var (full, rem) := SplitBits(bits);
    if rem != 0 {
      p[full] := p[full] & Low(rem);
    }
  }

  /** `fill(p + from, p + to, 0)`. */
  method ZeroRange(p: array<bv8>, from: nat, to: nat)
    requires from <= to <= p.Length
    modifies p
    ensures p[..] == ZeroBytes(old(p[..]), from, to)
  {
    forall k | from <= k < to {
      p[k] := 0;
    }
  }

  /** The intended writes of the growing branch of `resize`, on the current block. */
  method GrowInPlace(p: array<bv8>, prev: nat, n: nat)
    requires prev < n <= 8 * p.Length
    modifies p
    ensures p[..] == GrowStorage(old(p[..]), prev, n)
  {
    MaskPartial(p, prev);
    ZeroRange(p, SizeBytes(prev), SizeBytes(n));
  }

  /** The three writes of the growing branch of `resize`, on the block `p`. */
  method GrowInPlaceAsWritten(p: array<bv8>, prev: nat, n: nat)
    requires prev < n <= 8 * p.Length
    modifies p
    ensures p[..] == GrowStorageAsWritten(old(p[..]), prev, n)
  {
    MaskPartial(p, prev);
    var start := SizeBytes(prev);
    if start < n / 8 {
      ZeroRange(p, start, n / 8);
    }
    MaskPartial(p, n);
  }

  /**
   * The writes of `flip_all` for `n` bits: full bytes XORed with `0xFF`,
   * then the partial byte with the mask of its used bits.
   */
  method FlipStorage(p: array<bv8>, n: nat)
    requires n <= 8 * p.Length
    modifies p
    ensures FlippedStorage(old(p[..]), p[..], n)
    ensures forall k :: SizeBytes(n) <= k < p.Length ==> p[k] == old(p[k])
  {
    ghost var s0 := p[..];
    var (full, rem) := SplitBits(n);
    XorFullBytes(p, full);
    if rem != 0 {
      XorPartial(p, full, rem);
    }
    FlippedStorageIntro(s0, p[..], full, rem);
  }

  /** The full-byte loop of `flip_all`: the first `full` bytes XORed with `0xFF`. */
  method XorFullBytes(p: array<bv8>, full: nat)
    requires full <= p.Length
    modifies p
    ensures forall k :: 0 <= k < full ==> p[k] == XorByte(old(p[k]), 0xFF)
    ensures forall k :: full <= k < p.Length ==> p[k] == old(p[k])
  {
    var i := 0;
    while i < full
      invariant 0 <= i <= full
      invariant forall k :: 0 <= k < i ==> p[k] == XorByte(old(p[k]), 0xFF)
      invariant forall k :: i <= k < p.Length ==> p[k] == old(p[k])
    {
      p[i] := XorByte(p[i], 0xFF);
      i := i + 1;
    }
  }

  /** The partial byte of `flip_all`: XORed with the mask of its `rem` used bits. */
  method XorPartial(p: array<bv8>, full: nat, rem: nat)
    requires full < p.Length && rem < 8
    modifies p
    ensures p[..] == old(p[..])[full := XorByte(old(p[full]), Low(rem))]
  {
    p[full] := XorByte(p[full], Low(rem));
  }

  /**
   * The writes of `&=`, `|=` and `^=` for `n` bits: full bytes combined,
   * then the partial byte combined and masked to its used bits; `q` may be `p`.
   */
  method CombineStorage(op: BitOp, p: array<bv8>, q: array<bv8>, n: nat)
    requires n <= 8 * p.Length && n <= 8 * q.Length
    modifies p
    ensures CombinedStorage(op, old(p[..]), old(q[..]), p[..], n)
    ensures forall k :: SizeBytes(n) <= k < p.Length ==> p[k] == old(p[k])
  {
    ghost var s0, t0 := p[..], q[..];
    var (full, rem) := SplitBits(n);
    CombineFullBytes(op, p, q, full);
    if rem != 0 {
      CombinePartial(op, p, q, full, rem);
    }
    CombinedStorageIntro(op, s0, t0, p[..], full, rem);
  }

  /**
   * The full-byte loop of `&=`, `|=` and `^=`: each of the first `full`
   * bytes of `p` combined with the byte of `q` beside it; `q` may be `p`.
   */
  method CombineFullBytes(op: BitOp, p: array<bv8>, q: array<bv8>, full: nat)
    requires full <= p.Length && full <= q.Length
    modifies p
    ensures forall k :: 0 <= k < full ==> p[k] == ApplyByte(op, old(p[k]), old(q[k]))
    ensures forall k :: full <= k < p.Length ==> p[k] == old(p[k])
    ensures forall k :: full <= k < q.Length ==> q[k] == old(q[k])
  {
    var i := 0;
    while i < full
      invariant 0 <= i <= full
      invariant forall k :: 0 <= k < i ==> p[k] == ApplyByte(op, old(p[k]), old(q[k]))
      invariant forall k :: i <= k < p.Length ==> p[k] == old(p[k])
      invariant forall k :: i <= k < q.Length ==> q[k] == old(q[k])
    {
      p[i] := ApplyByte(op, p[i], q[i]);
      i := i + 1;
    }
  }

  /** The partial byte of a compound assignment: combined, then masked to its `rem` used bits. */
  method CombinePartial(op: BitOp, p: array<bv8>, q: array<bv8>, full: nat, rem: nat)
    requires full < p.Length && full < q.Length && rem < 8
    modifies p
    ensures p[..] == old(p[..])[full := AndByte(ApplyByte(op, old(p[full]), old(q[full])), Low(rem))]
  {
    p[full] := AndByte(ApplyByte(op, p[full], q[full]), Low(rem));
  }

  /**
   * The full-byte loop of `countr_zero`, lowest byte first: the position of
   * the lowest set bit among the first `full` bytes, if there is one.
   */
  method ScanUp(p: array<bv8>, full: nat) returns (found: bool, c: nat)
    requires full <= p.Length
    ensures c <= 8 * full && forall t :: 0 <= t < c ==> !BitAt(p[..], t)
    ensures found ==> c < 8 * full && BitAt(p[..], c)
    ensures !found ==> c == 8 * full
  {
    c := 0;
    var i := 0;
    while i < full
      invariant 0 <= i <= full && c == 8 * i
      invariant forall t :: 0 <= t < c ==> !BitAt(p[..], t)
    {
      var v := p[i];
      ByteBitsAt(p[..], i);
      if v == 0 {
        ZeroByte(v);
        c := c + 8;
        i := i + 1;
        continue;
      }
      var j := TrailingZeros(v);
      return true, c + j;
    }
    found := false;
  }

  /**
   * The full-byte loop of `countl_zero`, highest byte first: the clear bits
   * above the highest set bit among the first `full` bytes.
   */
  method ScanDown(p: array<bv8>, full: nat) returns (c: nat)
    requires full <= p.Length
    ensures c <= 8 * full && forall t :: 8 * full - c <= t < 8 * full ==> !BitAt(p[..], t)
    ensures c < 8 * full ==> BitAt(p[..], 8 * full - 1 - c)
  {
    c := 0;
    var it := full;
    while it != 0
      invariant 0 <= it <= full && c == 8 * (full - it)
      invariant forall t :: 8 * it <= t < 8 * full ==> !BitAt(p[..], t)
    {
      it := it - 1;
      var v := p[it];
      ByteBitsAt(p[..], it);
      if v == 0 {
        ZeroByte(v);
        c := c + 8;
        continue;
      }
      ZeroByte(0);
      var lead := LeadingZeros(v, 7);
      return c + lead;
    }
  }

  /**
   * The partial byte of `countr_zero`: masked to its `rem` used bits, then
   * scanned upward; all `rem` bits when the masked byte is zero.
   */
  method PartialTrailingZeros(b: bv8, rem: nat) returns (c: nat)
    requires 0 < rem < 8
    ensures c <= rem && forall t :: 0 <= t < c ==> !BitOf(b, t)
    ensures c < rem ==> BitOf(b, c)
  {
    var v := AndByte(b, Low(rem));
    forall t | 0 <= t < 8
      ensures BitOf(v, t) == (t < rem && BitOf(b, t))
    {
      AndLowBit(b, rem, t);
    }
    if v == 0 {
      ZeroByte(v);
      return rem;
    }
    c := TrailingZerosBelow(v, rem);
  }

  /**
   * The partial byte of `countl_zero`: masked to its `rem` used bits and,
   * when not zero, scanned downward from bit `rem - 1`.
   */
  method PartialLeadingZeros(b: bv8, rem: nat) returns (found: bool, c: nat)
    requires 0 < rem < 8
    ensures c <= rem && forall t :: rem - c <= t < rem ==> !BitOf(b, t)
    ensures found <==> c < rem
    ensures found ==> BitOf(b, rem - 1 - c)
  {
    var v := AndByte(b, Low(rem));
    forall t | 0 <= t < 8
      ensures BitOf(v, t) == (t < rem && BitOf(b, t))
    {
      AndLowBit(b, rem, t);
    }
    if v == 0 {
      ZeroByte(v);
      return false, rem;
    }
    c := LeadingZeros(v, rem - 1);
    found := true;
  }

  /** The inner loop of `countr_zero` on a non-zero full byte. */
  method TrailingZeros(v: bv8) returns (c: nat)
    requires v != 0
    ensures c < 8 && BitOf(v, c) && forall t :: 0 <= t < c ==> !BitOf(v, t)
  {
    var bit: bv8 := 1;
    c := 0;
    assert Mask(0) == 1;
    while bit != 0 && v & bit == 0
      invariant c <= 8 && bit == if c < 8 then Mask(c) else 0
      invariant forall t :: 0 <= t < c ==> !BitOf(v, t)
      decreases 8 - c
    {
      MaskTest(v, c);
      MaskShiftUp(c);
      c := c + 1;
      bit := bit << 1;
    }
    ZeroByte(v);
    if c < 8 {
      MaskNonZero(c);
      MaskTest(v, c);
    }
  }

  /**
   * The inner loop of `countr_zero` on the masked partial byte, whose guard
   * is `bit < (1u << rem)`.
   */
  method TrailingZerosBelow(v: bv8, rem: nat) returns (c: nat)
    requires 0 < rem < 8 && v != 0
    requires forall t :: rem <= t < 8 ==> !BitOf(v, t)
    ensures c < rem && BitOf(v, c) && forall t :: 0 <= t < c ==> !BitOf(v, t)
  {
    var bit: bv8 := 1;
    c := 0;
    assert Mask(0) == 1;
    while bit < Mask(rem) && v & bit == 0
      invariant c <= rem && bit == Mask(c)
      invariant forall t :: 0 <= t < c ==> !BitOf(v, t)
      decreases rem - c
    {
      MaskOrder(c, rem);
      MaskTest(v, c);
      MaskShiftUp(c);
      c := c + 1;
      bit := bit << 1;
    }
    ZeroByte(v);
    MaskOrder(c, rem);
    MaskTest(v, c);
  }

  /**
   * The inner loop of `countl_zero`: from bit `top` downward, the clear bits
   * above the highest set bit.
   */
  method LeadingZeros(v: bv8, top: nat) returns (c: nat)
    requires top < 8 && v != 0
    requires forall t :: top < t < 8 ==> !BitOf(v, t)
    ensures c <= top && BitOf(v, top - c) && forall t :: top - c < t < 8 ==> !BitOf(v, t)
  {
    var bit: bv8 := Mask(top);
    c := 0;
    ghost var j: int := top;
    while bit != 0 && v & bit == 0
      invariant -1 <= j <= top && c == top - j
      invariant bit == if 0 <= j then Mask(j) else 0
      invariant forall t :: j < t < 8 ==> !BitOf(v, t)
      decreases j
    {
      MaskTest(v, j);
      MaskShiftDown(j);
      c := c + 1;
      bit := bit >> 1;
      j := j - 1;
    }
    ZeroByte(v);
    if 0 <= j {
      MaskNonZero(j);
      MaskTest(v, j);
    }
  }

  /** The loop of `popcount` over the full bytes. */
  method PopcountFull(p: array<bv8>, full: nat) returns (total: nat)
    requires full <= p.Length
    ensures total == PopBits(p[..], 8 * full)
  {
    ghost var s := p[..];
    total := 0;
    var i := 0;
    while i < full
      invariant 0 <= i <= full && total == PopBits(s, 8 * i)
    {
      var c := PopcountByte(p[i]);
      CountByte(s, i, 8);
      PopLowByte(s[i]);
      total := total + c;
      i := i + 1;
    }
  }

  /** The `v &= v - 1` loop of `popcount` on one byte. */
  method PopcountByte(v0: bv8) returns (c: nat)
    ensures c == PopByte(v0)
  {
    var v := v0;
    c := 0;
    while v != 0
      invariant c + PopByte(v) == PopByte(v0)
      decreases PopByte(v)
    {
      ClearLowestSetBit(v);
      v := v & (v - 1);
      c := c + 1;
    }
    assert PopByte(0) == 0;
  }

  /**
   * `operator==`: equal sizes, equal full bytes, and equal partial bytes
   * once both are masked to their used bits.
   */
  method Equal(a: BitVec, b: BitVec) returns (eq: bool)
    requires a.Valid() && b.Valid()
    ensures eq <==> a.Contents() == b.Contents()
  {
    if a.currPos != b.currPos {
      return false;
    }
    ghost var s, t := a.bytes[..], b.bytes[..];
    var (full, rem) := SplitBits(a.currPos);
    var i := 0;
    while i != full
      invariant 0 <= i <= full
      invariant forall k :: 0 <= k < i ==> s[k] == t[k]
    {
      if a.bytes[i] != b.bytes[i] {
        FullByteDiffers(s, t, a.currPos, i);
        return false;
      }
      i := i + 1;
    }
    if rem != 0 {
      var aLast := a.bytes[full] & Low(rem);
      var bLast := b.bytes[full] & Low(rem);
      if aLast != bLast {
        PartialByteDiffers(s, t, a.currPos);
        return false;
      }
    }
    SameUsedBits(s, t, a.currPos);
    eq := true;
  }

  /**
   * The stale pointer of `resize` on a concrete vector: no bits in use, a
   * one-byte block that still holds `0xFF`, resized to 9 bits. The growth
   * reallocates; as written the first new bit reads set, and the corrected
   * resize reads it clear, as `resize` promises for every new bit.
   */
  method ResizeAsWrittenKeepsStaleBit() returns (asWritten: bool, corrected: bool)
    ensures asWritten && !corrected
  {
    var v := new BitVec();
    v.bytes := new bv8[1](_ => 0xFF);
    v.endPos := 8;
    v.ResizeAsWritten(9);
    assert v.bytes[..] == [0xFF] + v.bytes[1..];
    ReallocatedStorageKeepsStaleBits(v.bytes[1..], 9);
    asWritten := v.TestUnchecked(0);
    var w := new BitVec();
    w.bytes := new bv8[1](_ => 0xFF);
    w.endPos := 8;
    w.Resize(9);
    assert w.Contents() == Fill(false, 9);
    corrected := w.TestUnchecked(0);
  }
}
