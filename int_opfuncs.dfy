/**
 * The integer numeric, comparison and conversion opfuncs as transformers of
 * the register set: they take their operands from the operand stack (or,
 * in tail-call mode, from stack-top cache slots), apply the pure operators
 * of IntNumeric, IntCompare and IntConvert, and put the result back.
 */
module IntOps {
  import opened Arith
  import opened IntBits
  import opened IntNumeric
  import opened IntCompare
  import opened IntConvert
  import opened WasmTypes
  import opened Interp
  import opened StackTop

  /** The integer of width `w` on top of the stack that ends at `sp`. */
  function TopInt(w: Width, mem: seq<byte>, sp: nat): (v: int)
    requires ByteCount(w) <= sp <= |mem|
    ensures IsSigned(w, v)
  {
    IntOfBytes(w, mem[sp - ByteCount(w)..sp])
  }

  /** The integer of width `w` just under the top one. */
  function UnderInt(w: Width, mem: seq<byte>, sp: nat): (v: int)
    requires 2 * ByteCount(w) <= sp <= |mem|
    ensures IsSigned(w, v)
  {
    IntOfBytes(w, mem[sp - 2 * ByteCount(w)..sp - ByteCount(w)])
  }

  /** Reading back a value that was just pushed yields that value. */
  lemma TopIntOfPush(w: Width, mem: seq<byte>, sp: nat, v: int)
    requires sp + ByteCount(w) <= |mem| && IsSigned(w, v)
    ensures TopInt(w, Overwrite(mem, sp, IntBytes(w, v)), sp + ByteCount(w)) == v
  {
    IntBytesRoundTrip(w, v, IntBytes(w, v));
  }

  // ---------------------------------------------------------------------
  // By-reference opfuncs: every operand is on the operand stack
  // ---------------------------------------------------------------------

  /** By-reference `uwvmint_i32_unop` / `uwvmint_i64_unop`: clz, ctz, popcnt. */
  method Unop(regs: Regs, w: Width, op: IntUnop)
    requires ByteCount(w) <= regs.sp <= regs.buf.Length
    modifies regs, regs.buf
    ensures regs.ip == old(regs.ip) + OpfuncBytes
    ensures regs.sp == old(regs.sp) && regs.slots == old(regs.slots)
    ensures regs.buf[..] == Overwrite(old(regs.buf[..]), regs.sp - ByteCount(w),
      IntBytes(w, EvalIntUnop(w, op, TopInt(w, old(regs.buf[..]), regs.sp))))
  {
    regs.SkipOpfunc();
    var bs := regs.Pop(ByteCount(w));
    regs.Push(IntBytes(w, EvalIntUnop(w, op, IntOfBytes(w, bs))));
  }

  /**
   * By-reference `uwvmint_i32_binop` / `uwvmint_i64_binop`: pop `rhs`, then
   * `lhs`, and push `lhs op rhs`, or stop with the operator's trap.
   */
  method Binop(regs: Regs, w: Width, op: IntBinop) returns (r: Outcome)
    requires 2 * ByteCount(w) <= regs.sp <= regs.buf.Length
    modifies regs, regs.buf
    ensures r == EvalIntBinop(w, op, UnderInt(w, old(regs.buf[..]), old(regs.sp)), TopInt(w, old(regs.buf[..]), old(regs.sp)))
    ensures regs.ip == old(regs.ip) + OpfuncBytes && regs.slots == old(regs.slots)
    ensures r.Value? ==>
      && regs.sp == old(regs.sp) - ByteCount(w)
      && regs.buf[..] == Overwrite(old(regs.buf[..]), regs.sp - ByteCount(w), IntBytes(w, r.v))
    ensures r.Trapped? ==> regs.sp == old(regs.sp) - 2 * ByteCount(w) && regs.buf[..] == old(regs.buf[..])
  {
    regs.SkipOpfunc();
    ghost var mem := regs.buf[..];
    var rhs := regs.Pop(ByteCount(w));
    var lhs := regs.Pop(ByteCount(w));
    assert IntOfBytes(w, rhs) == TopInt(w, mem, old(regs.sp));
    assert IntOfBytes(w, lhs) == UnderInt(w, mem, old(regs.sp));
    r := EvalIntBinop(w, op, IntOfBytes(w, lhs), IntOfBytes(w, rhs));
    if r.Value? {
      regs.Push(IntBytes(w, r.v));
    }
  }

  /** By-reference `uwvmint_i32_cmp` / `uwvmint_i64_cmp`: two operands of width `w`, one i32 result. */
  method Cmp(regs: Regs, w: Width, op: IntCmp)
    requires 2 * ByteCount(w) <= regs.sp <= regs.buf.Length
    modifies regs, regs.buf
    ensures regs.ip == old(regs.ip) + OpfuncBytes && regs.slots == old(regs.slots)
    ensures regs.sp == old(regs.sp) - 2 * ByteCount(w) + 4
    ensures regs.buf[..] == Overwrite(old(regs.buf[..]), old(regs.sp) - 2 * ByteCount(w),
      IntBytes(W32, CmpResult(w, op, UnderInt(w, old(regs.buf[..]), old(regs.sp)), TopInt(w, old(regs.buf[..]), old(regs.sp)))))
  {
    regs.SkipOpfunc();
    var rhs := regs.Pop(ByteCount(w));
    var lhs := regs.Pop(ByteCount(w));
    regs.Push(IntBytes(W32, CmpResult(w, op, IntOfBytes(w, lhs), IntOfBytes(w, rhs))));
  }

  /** By-reference `uwvmint_i32_eqz` / `uwvmint_i64_eqz`. */
  method EqzOp(regs: Regs, w: Width)
    requires ByteCount(w) <= regs.sp <= regs.buf.Length
    modifies regs, regs.buf
    ensures regs.ip == old(regs.ip) + OpfuncBytes && regs.slots == old(regs.slots)
    ensures regs.sp == old(regs.sp) - ByteCount(w) + 4
    ensures regs.buf[..] == Overwrite(old(regs.buf[..]), old(regs.sp) - ByteCount(w),
      IntBytes(W32, Eqz(w, TopInt(w, old(regs.buf[..]), old(regs.sp)))))
  {
    regs.SkipOpfunc();
    var bs := regs.Pop(ByteCount(w));
    regs.Push(IntBytes(W32, Eqz(w, IntOfBytes(w, bs))));
  }

  /** By-reference `i32.wrap_i64`: an 8-byte operand becomes a 4-byte result. */
  method Wrap(regs: Regs)
    requires 8 <= regs.sp <= regs.buf.Length
    modifies regs, regs.buf
    ensures regs.ip == old(regs.ip) + OpfuncBytes && regs.slots == old(regs.slots)
    ensures regs.sp == old(regs.sp) - 4
    ensures regs.buf[..] == Overwrite(old(regs.buf[..]), old(regs.sp) - 8, IntBytes(W32, WrapI64(TopInt(W64, old(regs.buf[..]), old(regs.sp)))))
  {
    regs.SkipOpfunc();
    var bs := regs.Pop(8);
    regs.Push(IntBytes(W32, WrapI64(IntOfBytes(W64, bs))));
  }

  /** By-reference `i64.extend_i32_s` / `i64.extend_i32_u`: a 4-byte operand becomes an 8-byte result. */
  method Extend(regs: Regs, signed: bool)
    requires 4 <= regs.sp && regs.sp + 4 <= regs.buf.Length
    modifies regs, regs.buf
    ensures regs.ip == old(regs.ip) + OpfuncBytes && regs.slots == old(regs.slots)
    ensures regs.sp == old(regs.sp) + 4
    ensures var v := TopInt(W32, old(regs.buf[..]), old(regs.sp));
      regs.buf[..] == Overwrite(old(regs.buf[..]), old(regs.sp) - 4, IntBytes(W64, if signed then ExtendS(v) else ExtendU(v)))
  {
    regs.SkipOpfunc();
    var bs := regs.Pop(4);
    var v := IntOfBytes(W32, bs);
    regs.Push(IntBytes(W64, if signed then ExtendS(v) else ExtendU(v)));
  }

  // ---------------------------------------------------------------------
  // Tail-call opfuncs over a stack-top ring
  // ---------------------------------------------------------------------

  /** The slot `pos` of a ring `r` holds an integer of width `w`. */
  predicate IntSlot(slots: seq<seq<byte>>, r: Range, pos: nat, w: Width)
  {
    r.begin < r.end < SizeMax && r.begin <= pos < r.end && r.end <= |slots| && |slots[pos]| == ByteCount(w)
  }

  /** Tail-call `int_unary` on a cached operand: the result replaces it in the same slot. */
  method UnaryCached(regs: Regs, w: Width, op: IntUnop, r: Range, curr: nat)
    requires IntSlot(regs.slots, r, curr, w)
    modifies regs
    ensures regs.ip == old(regs.ip) + OpfuncBytes && regs.sp == old(regs.sp)
    ensures regs.slots == old(regs.slots)[curr := IntBytes(w, EvalIntUnop(w, op, IntOfBytes(w, old(regs.slots)[curr])))]
  {
    var v := IntOfBytes(w, regs.slots[curr]);
    regs.SetSlot(curr, IntBytes(w, EvalIntUnop(w, op, v)));
    regs.SkipOpfunc();
  }

  /**
   * Tail-call `int_binary` (and the tail-call `div_s`) on a cached `rhs`:
   * on a ring of two or more slots `lhs` is in the next slot and the result
   * replaces it; on a one-slot ring `lhs` is read from the top of the
   * operand stack without a pop and the result overwrites it there. When
   * the operator traps nothing has been written and `ip` has not moved.
   */
  method BinaryCached(regs: Regs, w: Width, op: IntBinop, r: Range, curr: nat) returns (o: Outcome)
    requires IntSlot(regs.slots, r, curr, w)
    requires r.end - r.begin >= 2 ==> |regs.slots[Next(curr, r)]| == ByteCount(w)
    requires r.end - r.begin == 1 ==> ByteCount(w) <= regs.sp <= regs.buf.Length
    modifies regs, regs.buf
    ensures regs.sp == old(regs.sp)
    ensures var rhs := IntOfBytes(w, old(regs.slots)[curr]);
      r.end - r.begin >= 2 ==>
        && o == EvalIntBinop(w, op, IntOfBytes(w, old(regs.slots)[Next(curr, r)]), rhs)
        && regs.buf[..] == old(regs.buf[..])
        && (o.Value? ==> regs.slots == old(regs.slots)[Next(curr, r) := IntBytes(w, o.v)])
    ensures var rhs := IntOfBytes(w, old(regs.slots)[curr]);
      r.end - r.begin == 1 ==>
        && o == EvalIntBinop(w, op, TopInt(w, old(regs.buf[..]), regs.sp), rhs)
        && regs.slots == old(regs.slots)
        && (o.Value? ==> regs.buf[..] == Overwrite(old(regs.buf[..]), regs.sp - ByteCount(w), IntBytes(w, o.v)))
    ensures o.Value? ==> regs.ip == old(regs.ip) + OpfuncBytes
    ensures o.Trapped? ==> regs.ip == old(regs.ip) && regs.slots == old(regs.slots) && regs.buf[..] == old(regs.buf[..])
  {
    var rhs := IntOfBytes(w, regs.slots[curr]);
    if r.end - r.begin >= 2 {
      NextPrevInverse(curr, r);
      var next := Next(curr, r);
      o := EvalIntBinop(w, op, IntOfBytes(w, regs.slots[next]), rhs);
      if o.Value? {
        regs.SetSlot(next, IntBytes(w, o.v));
        regs.SkipOpfunc();
      }
    } else {
      var lhs := regs.Peek(ByteCount(w));
      o := EvalIntBinop(w, op, IntOfBytes(w, lhs), rhs);
      if o.Value? {
        regs.Poke(IntBytes(w, o.v));
        regs.SkipOpfunc();
      }
    }
  }

  /** `div_s` of the cached operands traps exactly in the two documented cases, before any write. */
  lemma DivSTrapsFirst(w: Width, lhs: int, rhs: int)
    requires IsSigned(w, lhs) && IsSigned(w, rhs)
    ensures EvalIntBinop(w, DivS, lhs, rhs).Trapped? <==> rhs == 0 || (lhs == MinSigned(w) && rhs == -1)
    ensures rhs == 0 ==> EvalIntBinop(w, DivS, lhs, rhs) == Trapped(IntegerDivideByZero)
  {
  }

  /** The four bytes an i32 comparison of two i32 images stores. */
  function CmpBytes(op: IntCmp, lhs: seq<byte>, rhs: seq<byte>): (out: seq<byte>)
    requires |lhs| == 4 && |rhs| == 4
    ensures |out| == 4
  {
    IntBytes(W32, CmpResult(W32, op, IntOfBytes(W32, lhs), IntOfBytes(W32, rhs)))
  }

  /** The stored bytes decode to the comparison's 0/1 result. */
  lemma CmpBytesDecode(op: IntCmp, lhs: seq<byte>, rhs: seq<byte>)
    requires |lhs| == 4 && |rhs| == 4
    ensures IntOfBytes(W32, CmpBytes(op, lhs, rhs)) == CmpResult(W32, op, IntOfBytes(W32, lhs), IntOfBytes(W32, rhs))
  {
    var v := CmpResult(W32, op, IntOfBytes(W32, lhs), IntOfBytes(W32, rhs));
    IntBytesRoundTrip(W32, v, IntBytes(W32, v));
  }

  /**
   * Tail-call `uwvmint_i32_cmp`, as written: `rhs` is the cached top,
   * `lhs` is read from slot `next_pos` and the i32 result is stored there.
   */
  method CmpCachedAsWritten(regs: Regs, op: IntCmp, r: Range, curr: nat)
    requires IntSlot(regs.slots, r, curr, W32)
    requires |regs.slots[Next(curr, r)]| == 4
    modifies regs
    ensures regs.ip == old(regs.ip) + OpfuncBytes && regs.sp == old(regs.sp)
    ensures var next := Next(curr, r);
      regs.slots == old(regs.slots)[next := CmpBytes(op, old(regs.slots)[next], old(regs.slots)[curr])]
  {
    NextPrevInverse(curr, r);
    var next := Next(curr, r);
    regs.SetSlot(next, CmpBytes(op, regs.slots[next], regs.slots[curr]));
    regs.SkipOpfunc();
  }

  /**
   * On a one-slot i32 ring `next_pos` is the current slot itself, so the
   * comparison as written compares the top value with itself: `lt_s`
   * yields 0 and `eq` yields 1 whatever the operand under it is.
   */
  lemma CmpCachedOneSlotComparesTopWithItself(slots: seq<seq<byte>>, r: Range, curr: nat)
    requires IntSlot(slots, r, curr, W32) && r.end - r.begin == 1
    ensures Next(curr, r) == curr
    ensures IntOfBytes(W32, CmpBytes(LtS, slots[Next(curr, r)], slots[curr])) == 0
    ensures IntOfBytes(W32, CmpBytes(Eq, slots[Next(curr, r)], slots[curr])) == 1
  {
    assert Next(curr, r) == curr;
    SelfCompare(slots[curr]);
  }

  /** Comparing a value with itself: never less, always equal. */
  lemma SelfCompare(v: seq<byte>)
    requires |v| == 4
    ensures IntOfBytes(W32, CmpBytes(LtS, v, v)) == 0
    ensures IntOfBytes(W32, CmpBytes(Eq, v, v)) == 1
  {
    CmpBytesDecode(LtS, v, v);
    CmpBytesDecode(Eq, v, v);
  }

  /**
   * Tail-call `uwvmint_i32_cmp` as `int_binary` treats a one-slot ring:
   * `lhs` is then the top of the operand stack and the result replaces it.
   */
  method CmpCached(regs: Regs, op: IntCmp, r: Range, curr: nat)
    requires IntSlot(regs.slots, r, curr, W32)
    requires r.end - r.begin >= 2 ==> |regs.slots[Next(curr, r)]| == 4
    requires r.end - r.begin == 1 ==> 4 <= regs.sp <= regs.buf.Length
    modifies regs, regs.buf
    ensures regs.ip == old(regs.ip) + OpfuncBytes && regs.sp == old(regs.sp)
    ensures r.end - r.begin >= 2 ==>
      var next := Next(curr, r);
      && regs.buf[..] == old(regs.buf[..])
      && regs.slots == old(regs.slots)[next := CmpBytes(op, old(regs.slots)[next], old(regs.slots)[curr])]
    ensures r.end - r.begin == 1 ==>
      && regs.slots == old(regs.slots)
      && regs.buf[..] == Overwrite(old(regs.buf[..]), regs.sp - 4,
        CmpBytes(op, old(regs.buf[..])[regs.sp - 4..regs.sp], old(regs.slots)[curr]))
  {
    if r.end - r.begin >= 2 {
      NextPrevInverse(curr, r);
      var next := Next(curr, r);
      regs.SetSlot(next, CmpBytes(op, regs.slots[next], regs.slots[curr]));
    } else {
      var lhs := CmpIntoTop(regs, op, regs.slots[curr]);
    }
    regs.SkipOpfunc();
  }

  /** Compare the top of the operand stack with `rhs` and overwrite it with the result. */
  method CmpIntoTop(regs: Regs, op: IntCmp, rhs: seq<byte>) returns (lhs: seq<byte>)
    requires |rhs| == 4 && 4 <= regs.sp <= regs.buf.Length
    modifies regs.buf
    ensures lhs == old(regs.buf[..])[regs.sp - 4..regs.sp]
    ensures regs.buf[..] == Overwrite(old(regs.buf[..]), regs.sp - 4, CmpBytes(op, lhs, rhs))
  {
    lhs := regs.Peek(4);
    regs.Poke(CmpBytes(op, lhs, rhs));
  }

  /**
   * With the corrected one-slot path the operand under the top takes part:
   * `-1 < 0` holds, where the path as written compares `0` with itself.
   */
  lemma CmpCachedUsesBothOperands(under: seq<byte>, top: seq<byte>)
    requires |under| == 4 && |top| == 4
    requires under == IntBytes(W32, -1) && top == IntBytes(W32, 0)
    ensures IntOfBytes(W32, CmpBytes(LtS, under, top)) == 1
    ensures IntOfBytes(W32, CmpBytes(LtS, top, top)) == 0
  {
    IntBytesRoundTrip(W32, -1, under);
    IntBytesRoundTrip(W32, 0, top);
    CmpBytesDecode(LtS, under, top);
    CmpBytesDecode(LtS, top, top);
  }

  /** Tail-call `uwvmint_i32_eqz` on a cached operand: the result replaces it. */
  method EqzCached(regs: Regs, r: Range, curr: nat)
    requires IntSlot(regs.slots, r, curr, W32)
    modifies regs
    ensures regs.ip == old(regs.ip) + OpfuncBytes && regs.sp == old(regs.sp)
    ensures regs.slots == old(regs.slots)[curr := IntBytes(W32, Eqz(W32, IntOfBytes(W32, old(regs.slots)[curr])))]
  {
    regs.SetSlot(curr, IntBytes(W32, Eqz(W32, IntOfBytes(W32, regs.slots[curr]))));
    regs.SkipOpfunc();
  }
}
