/**
 * The register set every opfunc receives (`typeref...`): the instruction
 * pointer into the translated code (`typeref...[0]`), the operand-stack
 * pointer (`typeref...[1]`), the base of the locals area
 * (`typeref...[2]`) and the stack-top cache slots at positions 3 and up.
 *
 * Pointers are modelled as indices: `ip` into the translated code, `sp`
 * and `localBase` into one byte region that holds the locals and the
 * operand stack, which grows towards higher indices.  A stack-top slot
 * holds the bytes of the value cached in it.
 */
module Interp {
  import opened Arith
  import opened IntBits
  import opened LeBytes
  import opened IntNumeric

  /** What an opfunc hands on: the next opfunc, or a trap that ends execution. */
  datatype Status = Continue | Halt(trap: Trap)

  /** `sizeof(uwvm_interpreter_opfunc_t)` and `sizeof(..._byref_t)` on a 64-bit host. */
  const OpfuncBytes: nat := 8

  /** `sizeof(T*)` and `sizeof(std::size_t)` on a 64-bit host. */
  const PointerBytes: nat := 8

  /** `memcpy(s + at, bytes, |bytes|)` on a byte sequence. */
  function Overwrite(s: seq<byte>, at: nat, bytes: seq<byte>): (r: seq<byte>)
    requires at + |bytes| <= |s|
    ensures |r| == |s|
    ensures r[at..at + |bytes|] == bytes
  {
    s[..at] + bytes + s[at + |bytes|..]
  }

  /** Outside the written region every byte is as before. */
  lemma OverwriteKeeps(s: seq<byte>, at: nat, bytes: seq<byte>)
    requires at + |bytes| <= |s|
    ensures forall j :: 0 <= j < |s| && !(at <= j < at + |bytes|) ==> Overwrite(s, at, bytes)[j] == s[j]
  {
  }

  /** A region that does not meet the written one reads as before. */
  lemma OverwriteElsewhere(s: seq<byte>, at: nat, bytes: seq<byte>, lo: nat, hi: nat)
    requires at + |bytes| <= |s| && lo <= hi <= |s|
    requires hi <= at || at + |bytes| <= lo
    ensures Overwrite(s, at, bytes)[lo..hi] == s[lo..hi]
  {
    var r := Overwrite(s, at, bytes);
    assert forall j :: lo <= j < hi ==> r[j] == s[j];
  }

  /** Writing back the bytes already there changes nothing. */
  lemma OverwriteSame(s: seq<byte>, at: nat, n: nat)
    requires at + n <= |s|
    ensures Overwrite(s, at, s[at..at + n]) == s
  {
    var r := Overwrite(s, at, s[at..at + n]);
    assert forall j :: 0 <= j < |s| ==> r[j] == s[j];
  }

  /** Writing nothing changes nothing. */
  lemma OverwriteEmpty(s: seq<byte>, at: nat)
    requires at <= |s|
    ensures Overwrite(s, at, []) == s
  {
    assert s[..at] + [] + s[at..] == s;
  }

  /** Two writes that meet end to end are one write of both. */
  lemma OverwriteAdjacent(s: seq<byte>, at: nat, a: seq<byte>, b: seq<byte>)
    requires |b| <= at && at + |a| <= |s|
    ensures Overwrite(Overwrite(s, at, a), at - |b|, b) == Overwrite(s, at - |b|, b + a)
  {
    var x := Overwrite(Overwrite(s, at, a), at - |b|, b);
    var y := Overwrite(s, at - |b|, b + a);
    assert y[at - |b|..at + |a|] == b + a;
    forall j | 0 <= j < |s|
      ensures x[j] == y[j]
    {
      if at - |b| <= j < at {
        assert x[j] == x[at - |b|..at][j - (at - |b|)];
        assert y[j] == y[at - |b|..at + |a|][j - (at - |b|)];
      } else if at <= j < at + |a| {
        assert x[j] == Overwrite(s, at, a)[j];
        assert Overwrite(s, at, a)[j] == Overwrite(s, at, a)[at..at + |a|][j - at];
        assert y[j] == y[at - |b|..at + |a|][j - (at - |b|)];
      }
    }
  }

  /** Number of bytes of an integer of width w. */
  function ByteCount(w: Width): nat
  {
    match w
    case W32 => 4
    case W64 => 8
  }

  lemma ByteCountBits(w: Width)
    ensures Pow2(8 * ByteCount(w)) == Modulus(w)
  {
    ModulusIsPow2(w);
  }

  /** The little-endian image of an integer's bits (how `memcpy` stores it). */
  function IntBytes(w: Width, v: int): (bs: seq<byte>)
    ensures |bs| == ByteCount(w)
  {
    Encode(ByteCount(w), ToBits(w, v))
  }

  /** The integer whose little-endian image is `bs`. */
  function IntOfBytes(w: Width, bs: seq<byte>): (v: int)
    requires |bs| == ByteCount(w)
    ensures IsSigned(w, v)
  {
    ByteCountBits(w);
    FromBits(w, Decode(bs))
  }

  /** An integer and its image determine each other. */
  lemma IntBytesRoundTrip(w: Width, v: int, bs: seq<byte>)
    requires |bs| == ByteCount(w)
    ensures IsSigned(w, v) ==> IntOfBytes(w, IntBytes(w, v)) == v
    ensures IntBytes(w, IntOfBytes(w, bs)) == bs
  {
    ByteCountBits(w);
    DecodeEncode(ByteCount(w), ToBits(w, v));
    DivModUnique(ToBits(w, v), Modulus(w), 0, ToBits(w, v));
    if IsSigned(w, v) {
      FromToBits(w, v);
    }
    ToFromBits(w, Decode(bs));
    EncodeDecode(bs);
  }

  /** `memcpy` into a byte array, one byte at a time. */
  method WriteBytes(buf: array<byte>, at: nat, bytes: seq<byte>)
    requires at + |bytes| <= buf.Length
    modifies buf
    ensures buf[..] == Overwrite(old(buf[..]), at, bytes)
  {
    var i := 0;
    while i < |bytes|
      invariant 0 <= i <= |bytes|
      invariant forall j :: 0 <= j < buf.Length ==>
        buf[j] == if at <= j < at + i then bytes[j - at] else old(buf[j])
    {
      buf[at + i] := bytes[i];
      i := i + 1;
    }
    assert forall j :: 0 <= j < buf.Length ==> buf[..][j] == Overwrite(old(buf[..]), at, bytes)[j];
  }

  class Regs {
    /** The translated code the instruction pointer walks over. */
    const code: seq<byte>
    var ip: nat
    /** The byte region holding the locals and the operand stack. */
    const buf: array<byte>
    var sp: nat
    const localBase: nat
    /** Stack-top cache slots, by `typeref` position. */
    var slots: seq<seq<byte>>

    constructor (code: seq<byte>, ip: nat, buf: array<byte>, sp: nat, localBase: nat, slots: seq<seq<byte>>)
      ensures this.code == code && this.ip == ip && this.buf == buf
      ensures this.sp == sp && this.localBase == localBase && this.slots == slots
    {
      this.code := code;
      this.ip := ip;
      this.buf := buf;
      this.sp := sp;
      this.localBase := localBase;
      this.slots := slots;
    }

    /** `typeref...[0] += sizeof(uwvm_interpreter_opfunc_byref_t)`: step over the opfunc pointer. */
    method SkipOpfunc()
      modifies this
      ensures ip == old(ip) + OpfuncBytes
      ensures sp == old(sp) && slots == old(slots)
    {
      ip := ip + OpfuncBytes;
    }

    /** `read_imm<T>`: the `n` immediate bytes at `ip`; `ip` moves past them. */
    method ReadImm(n: nat) returns (bs: seq<byte>)
      requires ip + n <= |code|
      modifies this
      ensures bs == code[old(ip)..old(ip) + n]
      ensures ip == old(ip) + n
      ensures sp == old(sp) && slots == old(slots)
    {
      bs := code[ip..ip + n];
      ip := ip + n;
    }

    /** `get_curr_val_from_operand_stack_cache<T>`: lower `sp` by `n` and read the bytes there. */
    method Pop(n: nat) returns (bs: seq<byte>)
      requires n <= sp <= buf.Length
      modifies this
      ensures sp == old(sp) - n
      ensures bs == buf[sp..old(sp)]
      ensures ip == old(ip) && slots == old(slots)
    {
      sp := sp - n;
      bs := buf[sp..sp + n];
    }

    /** `memcpy(sp, &v, sizeof v); sp += sizeof v`. */
    method Push(bs: seq<byte>)
      requires sp + |bs| <= buf.Length
      modifies this, buf
      ensures sp == old(sp) + |bs|
      ensures buf[..] == Overwrite(old(buf[..]), old(sp), bs)
      ensures ip == old(ip) && slots == old(slots)
    {
      WriteBytes(buf, sp, bs);
      sp := sp + |bs|;
    }

    /** `peek_curr_val_from_operand_stack_cache<T>`: the top value of size `n`, without a pop. */
    method Peek(n: nat) returns (bs: seq<byte>)
      requires n <= sp <= buf.Length
      ensures bs == buf[sp - n..sp]
    {
      bs := buf[sp - n..sp];
    }

    /** `set_curr_val_to_operand_stack_cache_top`: overwrite the top value of the operand stack. */
    method Poke(bs: seq<byte>)
      requires |bs| <= sp <= buf.Length
      modifies buf
      ensures buf[..] == Overwrite(old(buf[..]), sp - |bs|, bs)
    {
      WriteBytes(buf, sp - |bs|, bs);
    }

    /** `set_curr_val_to_stacktop_cache<T, pos>`: store a value in a cache slot. */
    method SetSlot(pos: nat, bs: seq<byte>)
      requires pos < |slots|
      modifies this
      ensures slots == old(slots)[pos := bs]
      ensures ip == old(ip) && sp == old(sp)
    {
      slots := slots[pos := bs];
    }
  }
}
