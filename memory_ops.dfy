/**
 * Linear-memory opcodes: the effective-address computation, the
 * allocator-backed bounds check, little-endian loads with sign or zero
 * extension, truncating stores, `memory.size` and `memory.grow`
 * (section 4.4.4 of the WebAssembly Core Specification 1.0).
 */
module MemoryOps {
  import opened Arith
  import opened IntBits
  import opened LeBytes
  import opened IntNumeric
  import opened Interp

  /** The size of a WebAssembly page. */
  const PageBytes: nat := 65536

  /** Bytes of immediates after the opfunc pointer: memory pointer, `align`, `offset`. */
  const MemArgBytes: nat := PointerBytes + 4 + 4

  // ---------------------------------------------------------------------
  // Addresses and bounds
  // ---------------------------------------------------------------------

  /**
   * `wasm32_effective_offset` as the interpreter computes it: the unsigned
   * address plus the static offset, cut back to 32 bits.
   */
  function EffectiveOffset(addr: int, offset: nat): (eff: nat)
    requires IsSigned(W32, addr) && IsUnsigned(W32, offset)
    ensures IsUnsigned(W32, eff)
  {
    ToBits(W32, ToBits(W32, addr) + offset)
  }

  /**
   * The effective address of section 4.4.4 of the WebAssembly Core
   * Specification 1.0: the unsigned address plus the static offset, with no
   * wrap-around.  It needs 33 bits and so never overflows a 64-bit `size_t`.
   */
  function StandardAddress(addr: int, offset: nat): (ea: nat)
    requires IsSigned(W32, addr) && IsUnsigned(W32, offset)
    ensures ea <= 2 * (Modulus(W32) - 1)
    ensures ea >= offset && ea - offset == ToBits(W32, addr)
  {
    ToBits(W32, addr) + offset
  }

  /** The 32-bit sum equals the true sum exactly when the addition does not carry out. */
  lemma EffectiveOffsetWraps(addr: int, offset: nat)
    requires IsSigned(W32, addr) && IsUnsigned(W32, offset)
    ensures var ea := StandardAddress(addr, offset);
      EffectiveOffset(addr, offset) == if ea < Modulus(W32) then ea else ea - Modulus(W32)
  {
    var ea := StandardAddress(addr, offset);
    if ea >= Modulus(W32) {
      DivModUnique(ea, Modulus(W32), 1, ea - Modulus(W32));
    }
  }

  /**
   * The allocator-backed check of `check_memory_bounds_unlocked`, written
   * as the source writes it so that no subtraction underflows.
   */
  predicate InBounds(eff: nat, bytes: nat, len: nat)
  {
    !(bytes > len || eff > len - bytes)
  }

  /** The bounds check passes exactly when the accessed bytes lie inside the memory. */
  lemma InBoundsIff(eff: nat, bytes: nat, len: nat)
    ensures InBounds(eff, bytes, len) <==> eff + bytes <= len
  {
  }

  /**
   * A wrapped effective offset lets through an access the standard traps:
   * whenever the address and offset carry out of 32 bits and the wrapped
   * offset lands inside a memory of at most 2^32 bytes.
   */
  lemma WrappedAccessPassesBoundsCheck(addr: int, offset: nat, bytes: nat, len: nat)
    requires IsSigned(W32, addr) && IsUnsigned(W32, offset) && 0 < bytes && len <= Modulus(W32)
    requires StandardAddress(addr, offset) >= Modulus(W32)
    requires StandardAddress(addr, offset) - Modulus(W32) + bytes <= len
    ensures InBounds(EffectiveOffset(addr, offset), bytes, len)
    ensures !InBounds(StandardAddress(addr, offset), bytes, len)
  {
    EffectiveOffsetWraps(addr, offset);
  }

  /** An instance: `i32.load8_u offset=4` of address -1 in a one-page memory reads byte 3. */
  lemma WrappedAccessExample()
    ensures EffectiveOffset(-1, 4) == 3
    ensures InBounds(EffectiveOffset(-1, 4), 1, PageBytes)
    ensures !InBounds(StandardAddress(-1, 4), 1, PageBytes)
  {
    WrappedAccessPassesBoundsCheck(-1, 4, 1, PageBytes);
    EffectiveOffsetWraps(-1, 4);
  }

  /** With the standard address the check passes exactly when every byte `i + offset + k` is inside. */
  lemma StandardAddressBoundsCheck(addr: int, offset: nat, bytes: nat, len: nat)
    requires IsSigned(W32, addr) && IsUnsigned(W32, offset)
    ensures InBounds(StandardAddress(addr, offset), bytes, len)
      <==> ToBits(W32, addr) + offset + bytes <= len
    ensures 0 < bytes && StandardAddress(addr, offset) + bytes <= len <= Modulus(W32) ==> EffectiveOffset(addr, offset) == StandardAddress(addr, offset)
  {
    EffectiveOffsetWraps(addr, offset);
  }

  /**
   * `offset_in_pow2_bound<Shift>` for an unsigned offset of `digits` bits:
   * always true when the shift is at least the width, otherwise the test
   * that shifting right by `shift` leaves zero.
   */
  predicate OffsetInPow2Bound(digits: nat, shift: nat, u: nat)
  {
    if shift >= digits then true else u / Pow2(shift) == 0
  }

  lemma OffsetInPow2BoundIff(digits: nat, shift: nat, u: nat)
    requires u < Pow2(digits)
    ensures OffsetInPow2Bound(digits, shift, u) <==> u < Pow2(shift)
    ensures shift >= digits ==> OffsetInPow2Bound(digits, shift, u)
  {
    var p := Pow2(shift);
    if shift >= digits {
      Pow2Monotone(digits, shift);
    } else if u < p {
      DivModUnique(u, p, 0, u);
    } else {
      assert u == (u / p) * p + u % p;
    }
  }

  // ---------------------------------------------------------------------
  // Loaded and stored values
  // ---------------------------------------------------------------------

  lemma NarrowFits(w: Width, n: nat)
    requires n < ByteCount(w)
    ensures 2 * Pow2(8 * n) <= Modulus(w)
    ensures Pow2(8 * n) <= Half(w)
  {
    ByteCountBits(w);
    ModulusIsPow2(w);
    Pow2Monotone(8 * n + 1, 8 * ByteCount(w) - 1);
    assert BitCount(w) == 8 * ByteCount(w);
  }

  /**
   * The value a load of `|bs|` bytes produces at width `w`: the full-width
   * loads reinterpret the bytes, `loadN_s` sign-extends and `loadN_u`
   * zero-extends them.
   */
  function Loaded(w: Width, signed: bool, bs: seq<byte>): (v: int)
    requires 0 < |bs| <= ByteCount(w)
    ensures IsSigned(w, v)
  {
    if |bs| == ByteCount(w) then IntOfBytes(w, bs)
    else
      NarrowFits(w, |bs|);
      if signed then DecodeSigned(bs) else Decode(bs)
  }

  /**
   * A narrow load puts the loaded bytes in the low bits and fills the high
   * bits with copies of the loaded sign bit (`_s`) or with zeros (`_u`).
   */
  lemma LoadExtension(w: Width, signed: bool, bs: seq<byte>)
    requires 0 < |bs| < ByteCount(w)
    ensures var p := Pow2(8 * |bs|);
      var negative := signed && Decode(bs) >= Pow2(8 * |bs| - 1);
      ToBits(w, Loaded(w, signed, bs)) == Decode(bs) + (if negative then Modulus(w) - p else 0)
    ensures !signed ==> Loaded(w, signed, bs) == Decode(bs)
  {
    var p := Pow2(8 * |bs|);
    NarrowFits(w, |bs|);
    var v := Loaded(w, signed, bs);
    if signed && Decode(bs) >= Pow2(8 * |bs| - 1) {
      assert v == Decode(bs) - p;
      DivModUnique(v, Modulus(w), -1, Decode(bs) + Modulus(w) - p);
    }
  }

  /** `storeN`: the bytes an N-byte store writes, the low N bytes of the value. */
  function StoreImage(w: Width, v: int, n: nat): (bs: seq<byte>)
    requires n <= ByteCount(w)
    ensures |bs| == n
    ensures bs == IntBytes(w, v)[..n]
    ensures Decode(bs) == ToBits(w, v) % Pow2(8 * n)
  {
    EncodePrefix(n, ByteCount(w), ToBits(w, v));
    DecodeEncode(n, ToBits(w, v));
    Encode(n, ToBits(w, v))
  }

  /**
   * A store of N bytes followed by a load of N bytes at the same address: a
   * full-width load returns the stored value, a narrow unsigned load its
   * low N bytes, and every other byte of memory is as before.
   */
  lemma StoreLoadRoundTrip(w: Width, v: int, n: nat, mem: seq<byte>, ea: nat)
    requires IsSigned(w, v) && 0 < n <= ByteCount(w) && ea + n <= |mem|
    ensures var mem' := Overwrite(mem, ea, StoreImage(w, v, n));
      && (n == ByteCount(w) ==> Loaded(w, false, mem'[ea..ea + n]) == v)
      && (n < ByteCount(w) ==> Loaded(w, false, mem'[ea..ea + n]) == ToBits(w, v) % Pow2(8 * n))
      && (forall j :: 0 <= j < |mem| && !(ea <= j < ea + n) ==> mem'[j] == mem[j])
  {
    var mem' := Overwrite(mem, ea, StoreImage(w, v, n));
    assert mem'[ea..ea + n] == StoreImage(w, v, n);
    if n == ByteCount(w) {
      assert StoreImage(w, v, n) == IntBytes(w, v);
      IntBytesRoundTrip(w, v, IntBytes(w, v));
    } else {
      LoadExtension(w, false, StoreImage(w, v, n));
    }
  }

  /** `memory.grow`'s result: the old page count, or -1 when a strict grow fails. */
  function GrowResult(strict: bool, grown: bool, oldPages: nat): (r: int)
    ensures IsSigned(W32, r)
    ensures strict && !grown ==> r == -1
    ensures !(strict && !grown) ==> ToBits(W32, r) == ToBits(W32, oldPages)
  {
    if strict && !grown then -1 else Wrap(W32, oldPages)
  }

  /** For a memory of at most 65536 pages the result is -1 exactly on a failed strict grow. */
  lemma GrowResultSignalsFailure(strict: bool, grown: bool, oldPages: nat)
    requires oldPages <= 65536
    ensures GrowResult(strict, grown, oldPages) == -1 <==> strict && !grown
    ensures !(strict && !grown) ==> GrowResult(strict, grown, oldPages) == oldPages
  {
    if !(strict && !grown) {
      FromToBits(W32, oldPages);
    }
  }

  function Zeros(n: nat): (z: seq<byte>)
    ensures |z| == n && forall j :: 0 <= j < n ==> z[j] == 0
  {
    seq(n, j => 0)
  }

  // ---------------------------------------------------------------------
  // The memory and the byref opfuncs
  // ---------------------------------------------------------------------

  /** A linear memory: its bytes, whose length is a whole number of pages. */
  class Memory {
    var data: seq<byte>

    constructor (pages: nat)
      ensures data == Zeros(pages * PageBytes)
    {
      data := Zeros(pages * PageBytes);
    }

    /** `get_page_size()`: the current number of pages. */
    function Pages(): nat
      reads this
    {
      |data| / PageBytes
    }

    /** A successful grow: `delta` zero pages appended. */
    method GrowBy(delta: nat)
      modifies this
      ensures data == old(data) + Zeros(delta * PageBytes)
    {
      data := data + Zeros(delta * PageBytes);
    }
  }

  /** A `wasm_u32` immediate: its four bytes, least significant first. */
  function U32Imm(bs: seq<byte>): (u: nat)
    requires |bs| == 4
    ensures IsUnsigned(W32, u) && u == Decode(bs)
  {
    ByteCountBits(W32);
    Decode(bs)
  }

  /**
   * The byref `i32.load`, `i64.load`, `i32.load8/16_{s,u}` and
   * `i64.load8/16/32_{s,u}`: pop the i32 address, check the N accessed
   * bytes against the memory length, push the loaded value.
   */
  method Load(r: Regs, m: Memory, w: Width, n: nat, signed: bool) returns (st: Status)
    requires 0 < n <= ByteCount(w)
    requires r.ip + OpfuncBytes + MemArgBytes <= |r.code|
    requires 4 <= r.sp <= r.buf.Length && r.sp - 4 + ByteCount(w) <= r.buf.Length
    modifies r, r.buf
    ensures r.ip == old(r.ip) + OpfuncBytes + MemArgBytes && r.slots == old(r.slots)
    ensures var offset := U32Imm(r.code[old(r.ip) + 20..old(r.ip) + 24]);
      var ea := StandardAddress(IntOfBytes(W32, old(r.buf[r.sp - 4..r.sp])), offset);
      if InBounds(ea, n, |m.data|) then
        && st == Continue
        && r.sp == old(r.sp) - 4 + ByteCount(w)
        && r.buf[..] == Overwrite(old(r.buf[..]), old(r.sp) - 4, IntBytes(w, Loaded(w, signed, m.data[ea..ea + n])))
      else
        st == Halt(MemoryOutOfBounds) && r.sp == old(r.sp) - 4 && r.buf[..] == old(r.buf[..])
  {
    r.SkipOpfunc();
    var memoryPointer := r.ReadImm(PointerBytes);
    var align := r.ReadImm(4);
    var offsetBytes := r.ReadImm(4);
    assert offsetBytes == r.code[old(r.ip) + 20..old(r.ip) + 24];
    var addrBytes := r.Pop(4);
    var ea := StandardAddress(IntOfBytes(W32, addrBytes), U32Imm(offsetBytes));
    if !InBounds(ea, n, |m.data|) {
      return Halt(MemoryOutOfBounds);
    }
    var v := Loaded(w, signed, m.data[ea..ea + n]);
    r.Push(IntBytes(w, v));
    st := Continue;
  }

  /**
   * The byref `i32.store`, `i64.store`, `i32.store8/16` and
   * `i64.store8/16/32`: pop the value, pop the i32 address, check the N
   * accessed bytes, write the low N bytes of the value.
   */
  method Store(r: Regs, m: Memory, w: Width, n: nat) returns (st: Status)
    requires 0 < n <= ByteCount(w)
    requires r.ip + OpfuncBytes + MemArgBytes <= |r.code|
    requires ByteCount(w) + 4 <= r.sp <= r.buf.Length
    modifies r, m
    ensures r.ip == old(r.ip) + OpfuncBytes + MemArgBytes && r.slots == old(r.slots)
    ensures r.sp == old(r.sp) - ByteCount(w) - 4
    ensures var offset := U32Imm(r.code[old(r.ip) + 20..old(r.ip) + 24]);
      var value := IntOfBytes(w, r.buf[old(r.sp) - ByteCount(w)..old(r.sp)]);
      var ea := StandardAddress(IntOfBytes(W32, r.buf[r.sp..r.sp + 4]), offset);
      if InBounds(ea, n, |old(m.data)|) then
        st == Continue && m.data == Overwrite(old(m.data), ea, StoreImage(w, value, n))
      else
        st == Halt(MemoryOutOfBounds) && m.data == old(m.data)
  {
    r.SkipOpfunc();
    var memoryPointer := r.ReadImm(PointerBytes);
    var align := r.ReadImm(4);
    var offsetBytes := r.ReadImm(4);
    assert offsetBytes == r.code[old(r.ip) + 20..old(r.ip) + 24];
    var valueBytes := r.Pop(ByteCount(w));
    var addrBytes := r.Pop(4);
    assert addrBytes == r.buf[r.sp..r.sp + 4];
    var ea := StandardAddress(IntOfBytes(W32, addrBytes), U32Imm(offsetBytes));
    if !InBounds(ea, n, |m.data|) {
      return Halt(MemoryOutOfBounds);
    }
    m.data := Overwrite(m.data, ea, StoreImage(w, IntOfBytes(w, valueBytes), n));
    st := Continue;
  }

  /** The byref `memory.size`: push the page count as an i32. */
  method MemorySize(r: Regs, m: Memory)
    requires r.ip + OpfuncBytes + PointerBytes <= |r.code|
    requires r.sp + 4 <= r.buf.Length
    modifies r, r.buf
    ensures r.ip == old(r.ip) + OpfuncBytes + PointerBytes && r.slots == old(r.slots)
    ensures r.sp == old(r.sp) + 4
    ensures r.buf[..] == Overwrite(old(r.buf[..]), old(r.sp), IntBytes(W32, Wrap(W32, m.Pages())))
  {
    r.SkipOpfunc();
    var memoryPointer := r.ReadImm(PointerBytes);
    r.Push(IntBytes(W32, Wrap(W32, m.Pages())));
  }

  /**
   * The byref `memory.grow`: pop the page delta, grow, push the result.
   * `strict` is the `grow_strict` flag and `grown` the allocator's verdict,
   * both outside this model; a successful grow appends zero pages.
   */
  method MemoryGrow(r: Regs, m: Memory, strict: bool, grown: bool)
    requires r.ip + OpfuncBytes + 2 * PointerBytes <= |r.code|
    requires 4 <= r.sp <= r.buf.Length
    modifies r, r.buf, m
    ensures r.ip == old(r.ip) + OpfuncBytes + 2 * PointerBytes && r.slots == old(r.slots)
    ensures r.sp == old(r.sp)
    ensures var delta := Decode(old(r.buf[r.sp - 4..r.sp]));
      m.data == if grown then old(m.data) + Zeros(delta * PageBytes) else old(m.data)
    ensures r.buf[..] == Overwrite(old(r.buf[..]), old(r.sp) - 4, IntBytes(W32, GrowResult(strict, grown, old(m.Pages()))))
  {
    r.SkipOpfunc();
    var memoryPointer := r.ReadImm(PointerBytes);
    var maxLimit := r.ReadImm(PointerBytes);
    var deltaBytes := r.Pop(4);
    var oldPages := m.Pages();
    if grown {
      m.GrowBy(Decode(deltaBytes));
    }
    r.Push(IntBytes(W32, GrowResult(strict, grown, oldPages)));
  }
}
