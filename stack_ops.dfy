/**
 * The parametric opcodes `drop` and `select` as opfuncs over the register
 * set: in by-reference mode every operand lives on the operand stack; in
 * tail-call mode the condition and the values may sit in stack-top cache
 * slots, and the opfunc's template arguments say where.
 */
module StackOps {
  import opened Arith
  import opened IntBits
  import opened WasmTypes
  import opened Interp
  import opened StackTop

  /** `stacktop_enabled_for<OperandT>`: only the four scalar types can be cached here. */
  predicate CacheEnabledFor(opt: PerType<Range>, t: ValType)
  {
    t != V128 && Enabled(opt.At(t))
  }

  /** The by-reference layout: every range is `[SIZE_MAX, SIZE_MAX)`. */
  predicate ByrefLayout(opt: PerType<Range>)
  {
    forall t: ValType :: opt.At(t) == Range(SizeMax, SizeMax)
  }

  /** `cond != wasm_i32{0}` for the bytes of an i32. */
  predicate IsTrue(cond: seq<byte>)
    requires |cond| == 4
  {
    IntOfBytes(W32, cond) != 0
  }

  /** The value `select` keeps: `v1` when the condition holds, else `v2`. */
  function Chosen(cond: seq<byte>, v1: seq<byte>, v2: seq<byte>): (out: seq<byte>)
    requires |cond| == 4
    ensures IsTrue(cond) ==> out == v1
    ensures !IsTrue(cond) ==> out == v2
    ensures |v1| == |v2| ==> |out| == |v1|
  {
    if IsTrue(cond) then v1 else v2
  }

  /** The bytes of an all-zero i32 are the only false condition. */
  lemma IsTrueZero(cond: seq<byte>)
    requires |cond| == 4
    ensures !IsTrue(cond) <==> cond == IntBytes(W32, 0)
  {
    IntBytesRoundTrip(W32, 0, cond);
    IntBytesRoundTrip(W32, IntOfBytes(W32, cond), cond);
  }

  // ---------------------------------------------------------------------
  // drop
  // ---------------------------------------------------------------------

  /**
   * Tail-call `uwvmint_drop_typed<OperandT, curr_stack_top>`: only emitted
   * for an operand outside the cache, it lowers `sp` by the operand's size.
   */
  method Drop(regs: Regs, opt: PerType<Range>, t: ValType, currStackTop: nat)
    requires CacheEnabledFor(opt, t) ==> currStackTop == SizeMax
    requires Size(t) <= regs.sp
    modifies regs
    ensures regs.sp == old(regs.sp) - Size(t)
    ensures regs.ip == old(regs.ip) + OpfuncBytes
    ensures regs.slots == old(regs.slots)
  {
    regs.sp := regs.sp - Size(t);
    regs.SkipOpfunc();
  }

  /** By-reference `uwvmint_drop_typed<OperandT>`. */
  method DropByref(regs: Regs, opt: PerType<Range>, t: ValType)
    requires ByrefLayout(opt)
    requires Size(t) <= regs.sp
    modifies regs
    ensures regs.sp == old(regs.sp) - Size(t)
    ensures regs.ip == old(regs.ip) + OpfuncBytes
    ensures regs.slots == old(regs.slots)
  {
    regs.SkipOpfunc();
    regs.sp := regs.sp - Size(t);
  }

  // ---------------------------------------------------------------------
  // select
  // ---------------------------------------------------------------------

  /**
   * By-reference `uwvmint_select_typed<ValueT>`: pop the condition, `v2`
   * and `v1` and push the chosen one, all on the operand stack.
   */
  method SelectByref(regs: Regs, opt: PerType<Range>, t: ValType)
    requires ByrefLayout(opt)
    requires 4 + 2 * Size(t) <= regs.sp <= regs.buf.Length
    modifies regs, regs.buf
    ensures regs.ip == old(regs.ip) + OpfuncBytes
    ensures regs.slots == old(regs.slots)
    ensures regs.sp == old(regs.sp) - 4 - Size(t)
    ensures var sp0 := old(regs.sp);
      ChosenOnStack(old(regs.buf[..]), regs.buf[..], sp0 - 4, Size(t), old(regs.buf[..])[sp0 - 4..sp0])
  {
    regs.SkipOpfunc();
    var cond := regs.Pop(4);
    ChooseOnStack(regs, cond, Size(t));
  }

  /** Where the operands of a tail-call `select` are, by the cache layout. */
  datatype SelectPath =
    | MergedRing3   // value and condition in one ring of at least 3 slots
    | MergedRing2   // one ring of 2 slots: `v1` stays in memory
    | MergedRing1   // one ring of 1 slot: both values in memory
    | ValueRing2    // separate value ring of at least 2 slots
    | ValueRing1    // separate value ring of 1 slot: `v1` in memory
    | ValueStack    // condition cached, values on the operand stack
    | CondStackRing2  // condition on the stack, value ring of at least 2 slots
    | CondStackRing1  // condition on the stack, value ring of 1 slot
    | AllStack      // nothing cached

  /** The `if constexpr` chain of the tail-call `select`. */
  function PathOf(opt: PerType<Range>, t: ValType): SelectPath
  {
    var ri, rv := opt.At(I32), opt.At(t);
    if CacheEnabledFor(opt, I32) then
      if CacheEnabledFor(opt, t) then
        if ri == rv then
          if ri.end - ri.begin >= 3 then MergedRing3
          else if ri.end - ri.begin == 2 then MergedRing2
          else MergedRing1
        else if rv.end - rv.begin >= 2 then ValueRing2
        else ValueRing1
      else ValueStack
    else if CacheEnabledFor(opt, t) then
      if rv.end - rv.begin >= 2 then CondStackRing2 else CondStackRing1
    else AllStack
  }

  /** A ring whose positions are `typeref` arguments. */
  predicate RingIn(r: Range, pos: nat, argc: nat)
  {
    r.begin < r.end < SizeMax && r.begin <= pos < r.end && r.end <= argc
  }

  /**
   * Memory after `v1`, the value of size `n` under the top `v2`, is replaced
   * by the choice and `v2` is dropped: the stack then ends at `sp0 - n`.
   */
  predicate ChosenOnStack(before: seq<byte>, after: seq<byte>, sp0: nat, n: nat, cond: seq<byte>)
    requires |cond| == 4 && 2 * n <= sp0 <= |before|
  {
    after == Overwrite(before, sp0 - 2 * n, Chosen(cond, before[sp0 - 2 * n..sp0 - n], before[sp0 - n..sp0]))
  }

  /** Memory after the top value `v1` is replaced by the choice between it and a cached `v2`. */
  predicate ChosenIntoTop(before: seq<byte>, after: seq<byte>, sp0: nat, cond: seq<byte>, v2: seq<byte>)
    requires |cond| == 4 && |v2| <= sp0 <= |before|
  {
    after == Overwrite(before, sp0 - |v2|, Chosen(cond, before[sp0 - |v2|..sp0], v2))
  }

  /** `v1` is the value on top of the operand stack, `v2` is given; the choice replaces `v1`. */
  method ChooseIntoTop(regs: Regs, cond: seq<byte>, v2: seq<byte>)
    requires |cond| == 4 && |v2| <= regs.sp <= regs.buf.Length
    modifies regs.buf
    ensures ChosenIntoTop(old(regs.buf[..]), regs.buf[..], regs.sp, cond, v2)
  {
    var v1 := regs.Peek(|v2|);
    regs.Poke(Chosen(cond, v1, v2));
  }

  /** Both values of size `n` are on the operand stack; the choice replaces `v1` and `v2` is dropped. */
  method ChooseOnStack(regs: Regs, cond: seq<byte>, n: nat)
    requires |cond| == 4 && 2 * n <= regs.sp <= regs.buf.Length
    modifies regs, regs.buf
    ensures regs.sp == old(regs.sp) - n
    ensures regs.ip == old(regs.ip) && regs.slots == old(regs.slots)
    ensures ChosenOnStack(old(regs.buf[..]), regs.buf[..], old(regs.sp), n, cond)
  {
    ghost var before := regs.buf[..];
    var v2 := regs.Pop(n);
    var v1 := regs.Pop(n);
    assert v1 == before[regs.sp..regs.sp + n] && v2 == before[regs.sp + n..regs.sp + 2 * n];
    regs.Push(Chosen(cond, v1, v2));
  }

  /** The state `select` reads and writes: the cache slots, the stack memory and `sp`. */
  datatype Machine = Machine(slots: seq<seq<byte>>, mem: seq<byte>, sp: nat)

  /** What a tail-call `select` on `path` needs of the state it starts from. */
  predicate SelectReady(path: SelectPath, opt: PerType<Range>, t: ValType, ci: nat, cv: nat, m: Machine)
  {
    var ri, rv, n := opt.At(I32), opt.At(t), Size(t);
    && path == PathOf(opt, t) && t != V128
    && m.sp <= |m.mem|
    && (CacheEnabledFor(opt, I32) ==> RingIn(ri, ci, |m.slots|) && |m.slots[ci]| == 4)
    && (CacheEnabledFor(opt, t) ==> RingIn(rv, cv, |m.slots|))
    && match path
       case MergedRing3 =>
         cv == ci && |m.slots[Next(ci, ri)]| == n && |m.slots[Next(Next(ci, ri), ri)]| == n
       case MergedRing2 => cv == ci && |m.slots[Next(ci, ri)]| == n && n <= m.sp
       case MergedRing1 => cv == ci && 2 * n <= m.sp
       case ValueRing2 => |m.slots[cv]| == n && |m.slots[Next(cv, rv)]| == n
       case ValueRing1 => |m.slots[cv]| == n && n <= m.sp
       case ValueStack => 2 * n <= m.sp
       case CondStackRing2 => |m.slots[cv]| == n && |m.slots[Next(cv, rv)]| == n && 4 <= m.sp
       case CondStackRing1 => |m.slots[cv]| == n && 4 + n <= m.sp
       case AllStack => 4 + 2 * n <= m.sp
  }

  /**
   * What a tail-call `select` on `path` leaves: the condition, `v1` and `v2`
   * are read where the layout puts them, and `cond != 0 ? v1 : v2` is
   * stored where `v1` was, for the next opfunc to find there.
   */
  predicate SelectEffect(path: SelectPath, opt: PerType<Range>, t: ValType, ci: nat, cv: nat, m: Machine, m': Machine)
    requires SelectReady(path, opt, t, ci, cv, m)
  {
    var ri, rv, n := opt.At(I32), opt.At(t), Size(t);
    match path
    case MergedRing3 =>
      var v2pos := Next(ci, ri);
      var v1pos := Next(v2pos, ri);
      m' == m.(slots := m.slots[v1pos := Chosen(m.slots[ci], m.slots[v1pos], m.slots[v2pos])])
    case MergedRing2 =>
      && m'.sp == m.sp && m'.slots == m.slots && |m'.mem| == |m.mem|
      && ChosenIntoTop(m.mem, m'.mem, m.sp, m.slots[ci], m.slots[Next(ci, ri)])
    case MergedRing1 =>
      && m'.sp == m.sp - n && m'.slots == m.slots && |m'.mem| == |m.mem|
      && ChosenOnStack(m.mem, m'.mem, m.sp, n, m.slots[ci])
    case ValueRing2 =>
      var v1pos := Next(cv, rv);
      m' == m.(slots := m.slots[v1pos := Chosen(m.slots[ci], m.slots[v1pos], m.slots[cv])])
    case ValueRing1 =>
      && m'.sp == m.sp && m'.slots == m.slots && |m'.mem| == |m.mem|
      && ChosenIntoTop(m.mem, m'.mem, m.sp, m.slots[ci], m.slots[cv])
    case ValueStack =>
      && m'.sp == m.sp - n && m'.slots == m.slots && |m'.mem| == |m.mem|
      && ChosenOnStack(m.mem, m'.mem, m.sp, n, m.slots[ci])
    case CondStackRing2 =>
      var v1pos := Next(cv, rv);
      var cond := m.mem[m.sp - 4..m.sp];
      m' == Machine(m.slots[v1pos := Chosen(cond, m.slots[v1pos], m.slots[cv])], m.mem, m.sp - 4)
    case CondStackRing1 =>
      var cond := m.mem[m.sp - 4..m.sp];
      var v1 := m.mem[m.sp - 4 - n..m.sp - 4];
      m' == Machine(m.slots[Next(cv, rv) := Chosen(cond, v1, m.slots[cv])], m.mem, m.sp - 4 - n)
    case AllStack =>
      && m'.sp == m.sp - 4 - n && m'.slots == m.slots && |m'.mem| == |m.mem|
      && ChosenOnStack(m.mem, m'.mem, m.sp - 4, n, m.mem[m.sp - 4..m.sp])
  }

  /**
   * The tail-call `uwvmint_select_typed<ValueT, curr_i32_stack_top,
   * curr_value_stack_top>`, on the path its template arguments select.
   */
  method Select(regs: Regs, opt: PerType<Range>, t: ValType, ci: nat, cv: nat, path: SelectPath)
    requires SelectReady(path, opt, t, ci, cv, Machine(regs.slots, regs.buf[..], regs.sp))
    modifies regs, regs.buf
    ensures regs.ip == old(regs.ip) + OpfuncBytes
    ensures SelectEffect(path, opt, t, ci, cv, Machine(old(regs.slots), old(regs.buf[..]), old(regs.sp)),
      Machine(regs.slots, regs.buf[..], regs.sp))
  {
    if CacheEnabledFor(opt, I32) {
      SelectCachedCond(regs, opt, t, ci, cv, path);
    } else {
      SelectStackedCond(regs, opt, t, ci, cv, path);
    }
    regs.SkipOpfunc();
  }

  /** The paths on which the condition is in its cache slot `ci`. */
  method SelectCachedCond(regs: Regs, opt: PerType<Range>, t: ValType, ci: nat, cv: nat, path: SelectPath)
    requires SelectReady(path, opt, t, ci, cv, Machine(regs.slots, regs.buf[..], regs.sp))
    requires CacheEnabledFor(opt, I32)
    modifies regs, regs.buf
    ensures regs.ip == old(regs.ip)
    ensures SelectEffect(path, opt, t, ci, cv, Machine(old(regs.slots), old(regs.buf[..]), old(regs.sp)),
      Machine(regs.slots, regs.buf[..], regs.sp))
  {
    var ri, rv := opt.At(I32), opt.At(t);
    var cond := regs.slots[ci];
    if path == MergedRing3 {
      NextPrevInverse(ci, ri);
      var v2pos := Next(ci, ri);
      NextPrevInverse(v2pos, ri);
      var v1pos := Next(v2pos, ri);
      regs.SetSlot(v1pos, Chosen(cond, regs.slots[v1pos], regs.slots[v2pos]));
    } else if path == MergedRing2 {
      NextPrevInverse(ci, ri);
      ChooseIntoTop(regs, cond, regs.slots[Next(ci, ri)]);
    } else if path == ValueRing2 {
      NextPrevInverse(cv, rv);
      var v1pos := Next(cv, rv);
      regs.SetSlot(v1pos, Chosen(cond, regs.slots[v1pos], regs.slots[cv]));
    } else if path == ValueRing1 {
      ChooseIntoTop(regs, cond, regs.slots[cv]);
    } else {
      // MergedRing1 and ValueStack: both values on the operand stack.
      ChooseOnStack(regs, cond, Size(t));
    }
  }

  /** The paths on which the condition is on the operand stack. */
  method SelectStackedCond(regs: Regs, opt: PerType<Range>, t: ValType, ci: nat, cv: nat, path: SelectPath)
    requires SelectReady(path, opt, t, ci, cv, Machine(regs.slots, regs.buf[..], regs.sp))
    requires !CacheEnabledFor(opt, I32)
    modifies regs, regs.buf
    ensures regs.ip == old(regs.ip)
    ensures SelectEffect(path, opt, t, ci, cv, Machine(old(regs.slots), old(regs.buf[..]), old(regs.sp)),
      Machine(regs.slots, regs.buf[..], regs.sp))
  {
    var rv := opt.At(t);
    var cond := regs.Pop(4);
    if path == CondStackRing2 {
      NextPrevInverse(cv, rv);
      var v1pos := Next(cv, rv);
      regs.SetSlot(v1pos, Chosen(cond, regs.slots[v1pos], regs.slots[cv]));
    } else if path == CondStackRing1 {
      NextPrevInverse(cv, rv);
      var v1 := regs.Pop(Size(t));
      regs.SetSlot(Next(cv, rv), Chosen(cond, v1, regs.slots[cv]));
    } else {
      ChooseOnStack(regs, cond, Size(t));
    }
  }
}
