/**
 * The by-reference `local.get`, `local.set`, `local.tee`, `global.get` and
 * `global.set` opfuncs (sections 4.4.2 and 4.4.3 of the WebAssembly Core
 * Specification 1.0), read as transformers of the locals area and the
 * operand stack.
 *
 * A local is addressed by a `size_t` byte offset from `localBase`; a
 * global by a pointer to its storage.  Both are immediates that follow
 * the opfunc pointer in the translated code.
 */
module VariableOps {
  import opened Arith
  import opened LeBytes
  import opened WasmTypes
  import opened Interp
  import opened StackTop
  import StackOps

  /** The byte region and the operand-stack pointer: what the local opfuncs change. */
  datatype Frame = Frame(mem: seq<byte>, sp: nat)

  /** A little-endian `size_t` immediate. */
  function SizeImm(bs: seq<byte>): nat
    requires |bs| == PointerBytes
  {
    Decode(bs)
  }

  /** `read_imm<local_offset_t>` after the opfunc pointer: the local's byte offset. */
  function LocalOffset(code: seq<byte>, ip: nat): nat
    requires ip + OpfuncBytes + PointerBytes <= |code|
  {
    SizeImm(code[ip + OpfuncBytes..ip + OpfuncBytes + PointerBytes])
  }

  /** `local.get`: push a copy of the `n` bytes at `at`. */
  function GetLocal(f: Frame, at: nat, n: nat): (g: Frame)
    requires at + n <= |f.mem| && f.sp + n <= |f.mem|
    ensures g.sp == f.sp + n && |g.mem| == |f.mem|
  {
    Frame(Overwrite(f.mem, f.sp, f.mem[at..at + n]), f.sp + n)
  }

  /** `local.set`: pop the top `n` bytes and store them at `at`. */
  function SetLocal(f: Frame, at: nat, n: nat): (g: Frame)
    requires n <= f.sp <= |f.mem| && at + n <= |f.mem|
    ensures g.sp == f.sp - n && |g.mem| == |f.mem|
  {
    Frame(Overwrite(f.mem, at, f.mem[f.sp - n..f.sp]), f.sp - n)
  }

  /** `local.tee`: store the top `n` bytes at `at` and keep them on the stack. */
  function TeeLocal(f: Frame, at: nat, n: nat): (g: Frame)
    requires n <= f.sp <= |f.mem| && at + n <= |f.mem|
    ensures g.sp == f.sp && |g.mem| == |f.mem|
  {
    Frame(Overwrite(f.mem, at, f.mem[f.sp - n..f.sp]), f.sp)
  }

  /** `local.get` writes the local's bytes just above the old top and nothing else. */
  lemma GetLocalEffect(f: Frame, at: nat, n: nat)
    requires at + n <= |f.mem| && f.sp + n <= |f.mem|
    ensures var g := GetLocal(f, at, n);
      && g.mem[f.sp..g.sp] == f.mem[at..at + n]
      && forall j :: 0 <= j < |f.mem| && !(f.sp <= j < f.sp + n) ==> g.mem[j] == f.mem[j]
  {
  }

  /** `local.set` and `local.tee` write the top value into the local and nothing else. */
  lemma StoreLocalEffect(f: Frame, at: nat, n: nat)
    requires n <= f.sp <= |f.mem| && at + n <= |f.mem|
    ensures var g := SetLocal(f, at, n);
      && g.mem[at..at + n] == f.mem[f.sp - n..f.sp]
      && forall j :: 0 <= j < |f.mem| && !(at <= j < at + n) ==> g.mem[j] == f.mem[j]
    ensures TeeLocal(f, at, n).mem == SetLocal(f, at, n).mem
  {
  }

  /** The local at `at` lies wholly below the top value (locals precede the operand stack). */
  predicate LocalBelowTop(f: Frame, at: nat, n: nat)
  {
    n <= f.sp <= |f.mem| && at + n <= f.sp - n
  }

  /** `local.set` then `local.get` at the same offset pushes back the value that was set. */
  lemma SetThenGet(f: Frame, at: nat, n: nat)
    requires n <= f.sp <= |f.mem| && at + n <= |f.mem|
    ensures var g := GetLocal(SetLocal(f, at, n), at, n);
      g.sp == f.sp && g.mem[f.sp - n..f.sp] == f.mem[f.sp - n..f.sp]
  {
  }

  /** With the local below the top value, `local.set` then `local.get` is `local.tee`. */
  lemma {:induction false} SetThenGetIsTee(f: Frame, at: nat, n: nat)
    requires LocalBelowTop(f, at, n)
    ensures GetLocal(SetLocal(f, at, n), at, n) == TeeLocal(f, at, n)
  {
    var v := f.mem[f.sp - n..f.sp];
    var m := Overwrite(f.mem, at, v);
    assert SetLocal(f, at, n) == Frame(m, f.sp - n);
    assert m[at..at + n] == v;
    OverwriteElsewhere(f.mem, at, v, f.sp - n, f.sp);
    OverwriteSame(m, f.sp - n, n);
    assert GetLocal(Frame(m, f.sp - n), at, n) == Frame(Overwrite(m, f.sp - n, v), f.sp);
  }

  /** `local.get` leaves every local below the stack pointer as it was. */
  lemma GetKeepsLocals(f: Frame, at: nat, n: nat, lo: nat, hi: nat)
    requires at + n <= |f.mem| && f.sp + n <= |f.mem| && lo <= hi <= f.sp
    ensures GetLocal(f, at, n).mem[lo..hi] == f.mem[lo..hi]
  {
    OverwriteElsewhere(f.mem, f.sp, f.mem[at..at + n], lo, hi);
  }

  /** The local a `local.*` opfunc at `regs.ip` addresses fits in the region. */
  predicate LocalFits(regs: Regs, t: ValType)
    reads regs
  {
    && regs.ip + OpfuncBytes + PointerBytes <= |regs.code|
    && regs.localBase + LocalOffset(regs.code, regs.ip) + Size(t) <= regs.buf.Length
  }

  /** Step over the opfunc pointer and read the offset immediate: the local's address. */
  method LocalAddress(regs: Regs) returns (at: nat)
    requires regs.ip + OpfuncBytes + PointerBytes <= |regs.code|
    modifies regs
    ensures at == regs.localBase + LocalOffset(regs.code, old(regs.ip))
    ensures regs.ip == old(regs.ip) + OpfuncBytes + PointerBytes
    ensures regs.sp == old(regs.sp) && regs.slots == old(regs.slots)
  {
    regs.SkipOpfunc();
    var offBytes := regs.ReadImm(PointerBytes);
    at := regs.localBase + SizeImm(offBytes);
  }

  /** By-reference `uwvmint_local_get_typed<LocalT>`. */
  method LocalGet(regs: Regs, opt: PerType<Range>, t: ValType)
    requires StackOps.ByrefLayout(opt)
    requires LocalFits(regs, t) && regs.sp + Size(t) <= regs.buf.Length
    modifies regs, regs.buf
    ensures regs.ip == old(regs.ip) + OpfuncBytes + PointerBytes && regs.slots == old(regs.slots)
    ensures Frame(regs.buf[..], regs.sp)
      == GetLocal(Frame(old(regs.buf[..]), old(regs.sp)), regs.localBase + LocalOffset(regs.code, old(regs.ip)), Size(t))
  {
    var at := LocalAddress(regs);
    PushLocal(regs, at, Size(t));
  }

  /** `memcpy(sp, local, n); sp += n`: push a copy of the `n` bytes at `at`. */
  method PushLocal(regs: Regs, at: nat, n: nat)
    requires at + n <= regs.buf.Length && regs.sp + n <= regs.buf.Length
    modifies regs, regs.buf
    ensures regs.ip == old(regs.ip) && regs.slots == old(regs.slots)
    ensures Frame(regs.buf[..], regs.sp) == GetLocal(Frame(old(regs.buf[..]), old(regs.sp)), at, n)
  {
    var v := regs.buf[at..at + n];
    regs.Push(v);
  }

  /** By-reference `uwvmint_local_set_typed<LocalT>`: the popped value goes to the local. */
  method LocalSet(regs: Regs, opt: PerType<Range>, t: ValType)
    requires StackOps.ByrefLayout(opt)
    requires LocalFits(regs, t) && Size(t) <= regs.sp <= regs.buf.Length
    modifies regs, regs.buf
    ensures regs.ip == old(regs.ip) + OpfuncBytes + PointerBytes && regs.slots == old(regs.slots)
    ensures Frame(regs.buf[..], regs.sp)
      == SetLocal(Frame(old(regs.buf[..]), old(regs.sp)), regs.localBase + LocalOffset(regs.code, old(regs.ip)), Size(t))
  {
    var at := LocalAddress(regs);
    PopToLocal(regs, at, Size(t));
  }

  /** `sp -= n; memcpy(local, sp, n)`: pop the top `n` bytes into `at`. */
  method PopToLocal(regs: Regs, at: nat, n: nat)
    requires n <= regs.sp <= regs.buf.Length && at + n <= regs.buf.Length
    modifies regs, regs.buf
    ensures regs.ip == old(regs.ip) && regs.slots == old(regs.slots)
    ensures Frame(regs.buf[..], regs.sp) == SetLocal(Frame(old(regs.buf[..]), old(regs.sp)), at, n)
  {
    var v := regs.Pop(n);
    WriteBytes(regs.buf, at, v);
  }

  /** `memcpy(local, sp - n, n)`: copy the top `n` bytes to `at`. */
  method CopyTop(regs: Regs, at: nat, n: nat)
    requires n <= regs.sp <= regs.buf.Length && at + n <= regs.buf.Length
    modifies regs.buf
    ensures Frame(regs.buf[..], regs.sp) == TeeLocal(Frame(old(regs.buf[..]), regs.sp), at, n)
  {
    var v := regs.buf[regs.sp - n..regs.sp];
    WriteBytes(regs.buf, at, v);
  }

  /** By-reference `uwvmint_local_tee_typed<LocalT>`: the top value is copied, `sp` stays. */
  method LocalTee(regs: Regs, opt: PerType<Range>, t: ValType)
    requires StackOps.ByrefLayout(opt)
    requires LocalFits(regs, t) && Size(t) <= regs.sp <= regs.buf.Length
    modifies regs, regs.buf
    ensures regs.ip == old(regs.ip) + OpfuncBytes + PointerBytes && regs.slots == old(regs.slots)
    ensures Frame(regs.buf[..], regs.sp)
      == TeeLocal(Frame(old(regs.buf[..]), old(regs.sp)), regs.localBase + LocalOffset(regs.code, old(regs.ip)), Size(t))
  {
    var at := LocalAddress(regs);
    CopyTop(regs, at, Size(t));
  }

  // ---------------------------------------------------------------------
  // Globals
  // ---------------------------------------------------------------------

  /**
   * A global's storage (`wasm_global_storage_t`), reached through the
   * pointer immediate.  A global has one value type, so its storage is
   * modelled as the bytes of that one value.
   */
  class Global {
    var bits: seq<byte>

    constructor (bits: seq<byte>)
      ensures this.bits == bits
    {
      this.bits := bits;
    }
  }

  /** By-reference `uwvmint_global_get_typed<GlobalT>`: push the global's value. */
  method GlobalGet(regs: Regs, opt: PerType<Range>, g: Global, t: ValType)
    requires StackOps.ByrefLayout(opt) && t != V128
    requires regs.ip + OpfuncBytes + PointerBytes <= |regs.code|
    requires |g.bits| == Size(t) && regs.sp + Size(t) <= regs.buf.Length
    modifies regs, regs.buf
    ensures regs.ip == old(regs.ip) + OpfuncBytes + PointerBytes && regs.slots == old(regs.slots)
    ensures regs.sp == old(regs.sp) + Size(t)
    ensures regs.buf[..] == Overwrite(old(regs.buf[..]), old(regs.sp), g.bits)
  {
    regs.SkipOpfunc();
    var globalPointer := regs.ReadImm(PointerBytes);
    var v := g.bits;
    regs.Push(v);
  }

  /** By-reference `uwvmint_global_set_typed<GlobalT>`: pop a value into the global. */
  method GlobalSet(regs: Regs, opt: PerType<Range>, g: Global, t: ValType)
    requires StackOps.ByrefLayout(opt) && t != V128
    requires regs.ip + OpfuncBytes + PointerBytes <= |regs.code|
    requires Size(t) <= regs.sp <= regs.buf.Length
    modifies regs, g
    ensures regs.ip == old(regs.ip) + OpfuncBytes + PointerBytes && regs.slots == old(regs.slots)
    ensures regs.sp == old(regs.sp) - Size(t)
    ensures g.bits == old(regs.buf[..])[regs.sp..regs.sp + Size(t)]
  {
    regs.SkipOpfunc();
    var globalPointer := regs.ReadImm(PointerBytes);
    var v := regs.Pop(Size(t));
    g.bits := v;
  }

  /**
   * `global.set` followed by `global.get` on the same global pushes back
   * the value that was set, for each of i32, i64, f32 and f64.
   */
  method SetThenGetGlobal(regs: Regs, opt: PerType<Range>, g: Global, t: ValType) returns (v: seq<byte>)
    requires StackOps.ByrefLayout(opt) && t != V128
    requires regs.ip + 2 * (OpfuncBytes + PointerBytes) <= |regs.code|
    requires Size(t) <= regs.sp <= regs.buf.Length
    modifies regs, regs.buf, g
    ensures v == old(regs.buf[regs.sp - Size(t)..regs.sp])
    ensures regs.sp == old(regs.sp) && g.bits == v && regs.buf[regs.sp - Size(t)..regs.sp] == v
  {
    v := regs.buf[regs.sp - Size(t)..regs.sp];
    GlobalSet(regs, opt, g, t);
    GlobalGet(regs, opt, g, t);
  }
}
