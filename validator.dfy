/**
 * The compiler-side function-body validator for WebAssembly 1.0 code: a
 * single pass over a function's instructions that keeps a stack of operand
 * types, a stack of control frames and a "polymorphic" flag (the operand
 * stack after `unreachable`, `br`, `br_table` or `return`), reports the
 * first error it meets, and records the largest operand-stack height seen
 * on non-polymorphic steps.
 *
 * Instructions are taken already decoded: an opcode with its immediates.
 * The pass itself is the loop in `ValidateFunction`, proved equal to the
 * recursive `Validate`; each instruction is one pure transition of the
 * validator state.
 */
module Wasm1Validator {
  import opened Arith
  import opened WasmTypes

  /** The validation error codes the pass can raise. */
  datatype Error =
    | OperandStackUnderflow | NumericOperandTypeMismatch
    | IllegalBlockType | IfCondTypeNotI32 | IllegalElse | IfThenResultMismatch
    | IfMissingElse | EndResultMismatch | MissingEnd | TrailingCodeAfterEnd
    | IllegalLabelIndex | BrValueTypeMismatch | BrCondTypeNotI32 | BrTableTargetTypeMismatch
    | InvalidFunctionIndex | IllegalTableIndex | IllegalTypeIndex
    | SelectCondTypeNotI32 | SelectTypeMismatch
    | IllegalLocalIndex | LocalSetTypeMismatch | LocalTeeTypeMismatch
    | IllegalGlobalIndex | ImmutableGlobalSet | GlobalSetTypeMismatch
    | NoMemory | IllegalMemargAlignment | MemargAddressTypeNotI32 | StoreValueTypeMismatch
    | IllegalMemoryIndex | MemoryGrowDeltaTypeNotI32
    | IllegalOpbase

  datatype FuncType = FuncType(params: seq<ValType>, results: seq<ValType>)

  /** One run of declared locals: `count` locals of type `t`. */
  datatype LocalGroup = LocalGroup(count: nat, t: ValType)

  datatype GlobalType = GlobalType(t: ValType, mutable: bool)

  /**
   * What the pass reads from the module: the types of all functions and
   * globals (imported ones first), the type section, and how many tables
   * and memories exist (imported plus defined).
   */
  datatype ModuleInfo = ModuleInfo(
    funcs: seq<FuncType>,
    types: seq<FuncType>,
    tableCount: nat,
    memoryCount: nat,
    globals: seq<GlobalType>)

  /** The memory loads of WebAssembly 1.0. */
  datatype LoadOp =
    | I32Load | I64Load | F32Load | F64Load
    | I32Load8S | I32Load8U | I32Load16S | I32Load16U
    | I64Load8S | I64Load8U | I64Load16S | I64Load16U | I64Load32S | I64Load32U

  /** The memory stores of WebAssembly 1.0. */
  datatype StoreOp =
    | I32Store | I64Store | F32Store | F64Store
    | I32Store8 | I32Store16 | I64Store8 | I64Store16 | I64Store32

  /**
   * A decoded instruction. `Numeric(op)` stands for every opcode byte that
   * has no constructor of its own: the numeric table, or an illegal opcode.
   */
  datatype Instr =
    | Unreachable | Nop
    | Block(bt: byte) | Loop(bt: byte) | If(bt: byte) | Else | End
    | Br(target: nat) | BrIf(target: nat) | BrTable(labels: seq<nat>, otherwise: nat) | Return
    | Call(func: nat) | CallIndirect(typeIndex: nat, table: nat)
    | Drop | Select
    | LocalGet(local: nat) | LocalSet(local: nat) | LocalTee(local: nat)
    | GlobalGet(global: nat) | GlobalSet(global: nat)
    | Load(load: LoadOp, align: nat, offset: nat)
    | Store(store: StoreOp, align: nat, offset: nat)
    | MemorySize(mem: nat) | MemoryGrow(mem: nat)
    | I32Const | I64Const | F32Const | F64Const
    | Numeric(op: byte)

  /** A local function: its signature, its declared locals and its body. */
  datatype Func = Func(sig: FuncType, locals: seq<LocalGroup>, body: seq<Instr>)

  datatype BlockKind = FunctionBlock | PlainBlock | LoopBlock | IfBlock | ElseBlock

  /**
   * A control frame: the block's result types, the operand-stack height at
   * entry, its kind, whether the stack was polymorphic at entry, and (for an
   * `if` that reached `else`) whether the then-arm ended polymorphic.
   */
  datatype Frame = Frame(
    result: seq<ValType>,
    base: nat,
    kind: BlockKind,
    polymorphicBase: bool,
    thenPolymorphicEnd: bool)

  datatype State = State(
    stack: seq<ValType>,
    frames: seq<Frame>,
    polymorphic: bool,
    maxHeight: nat)

  /** What one instruction does: the next state, the function's own `end`, or an error. */
  datatype Outcome = Continue(next: State) | Finished | Fail(err: Error)

  /** The verdict on a function body: the recorded operand-stack maximum, or the first error. */
  datatype Verdict = Valid(operandStackMax: nat) | Invalid(error: Error)

  // ---------------------------------------------------------------------
  // Stack vocabulary

  function Last<T>(s: seq<T>): T
    requires |s| > 0
  {
    s[|s| - 1]
  }

  /** Pop up to `n` entries: the source's `while(!empty() && n-- != 0) pop_back()`. */
  function PopN<T>(s: seq<T>, n: nat): (r: seq<T>)
    ensures |s| >= n ==> |r| == |s| - n
    ensures |s| < n ==> r == []
    ensures r <= s
  {
    if |s| >= n then s[..|s| - n] else []
  }

  /** Pop down to height `base`: the source's `while(size() > base) pop_back()`. */
  function Truncate<T>(s: seq<T>, base: nat): (r: seq<T>)
    ensures |r| == if |s| > base then base else |s|
    ensures r <= s
  {
    if |s| > base then s[..base] else s
  }

  /** The top `|ts|` entries of the stack are `ts`, deepest first. */
  predicate EndsWith(s: seq<ValType>, ts: seq<ValType>)
  {
    |s| >= |ts| && s[|s| - |ts|..] == ts
  }

  // ---------------------------------------------------------------------
  // Tables

  datatype NumSig = Unary(operand: ValType, result: ValType) | Binary(operand: ValType, result: ValType)

  /**
   * The numeric opcodes 0x45..0xBF of section 5.4.5 of the WebAssembly Core
   * Specification 1.0, by the operand type and result type the validator
   * checks: tests and comparisons yield i32, the arithmetic of one type stays
   * in that type, and 0xA7..0xBF are the conversions.
   */
  function NumericSig(op: byte): (r: Option<NumSig>)
    ensures r.Some? <==> 0x45 <= op <= 0xBF
    ensures 0x45 <= op <= 0x66 ==> r.Some? && r.value.result == I32
    ensures 0x67 <= op <= 0xA6 ==> r.Some? && r.value.operand == r.value.result
    ensures r.Some? ==> r.value.operand != V128 && r.value.result != V128
  {
    if op == 0x45 then Some(Unary(I32, I32))
    else if 0x46 <= op <= 0x4F then Some(Binary(I32, I32))
    else if op == 0x50 then Some(Unary(I64, I32))
    else if 0x51 <= op <= 0x5A then Some(Binary(I64, I32))
    else if 0x5B <= op <= 0x60 then Some(Binary(F32, I32))
    else if 0x61 <= op <= 0x66 then Some(Binary(F64, I32))
    else if 0x67 <= op <= 0x69 then Some(Unary(I32, I32))
    else if 0x6A <= op <= 0x78 then Some(Binary(I32, I32))
    else if 0x79 <= op <= 0x7B then Some(Unary(I64, I64))
    else if 0x7C <= op <= 0x8A then Some(Binary(I64, I64))
    else if 0x8B <= op <= 0x91 then Some(Unary(F32, F32))
    else if 0x92 <= op <= 0x98 then Some(Binary(F32, F32))
    else if 0x99 <= op <= 0x9F then Some(Unary(F64, F64))
    else if 0xA0 <= op <= 0xA6 then Some(Binary(F64, F64))
    else if op == 0xA7 then Some(Unary(I64, I32))
    else if 0xA8 <= op <= 0xA9 then Some(Unary(F32, I32))
    else if 0xAA <= op <= 0xAB then Some(Unary(F64, I32))
    else if 0xAC <= op <= 0xAD then Some(Unary(I32, I64))
    else if 0xAE <= op <= 0xAF then Some(Unary(F32, I64))
    else if 0xB0 <= op <= 0xB1 then Some(Unary(F64, I64))
    else if 0xB2 <= op <= 0xB3 then Some(Unary(I32, F32))
    else if 0xB4 <= op <= 0xB5 then Some(Unary(I64, F32))
    else if op == 0xB6 then Some(Unary(F64, F32))
    else if 0xB7 <= op <= 0xB8 then Some(Unary(I32, F64))
    else if 0xB9 <= op <= 0xBA then Some(Unary(I64, F64))
    else if op == 0xBB then Some(Unary(F32, F64))
    else if op == 0xBC then Some(Unary(F32, I32))
    else if op == 0xBD then Some(Unary(F64, I64))
    else if op == 0xBE then Some(Unary(I32, F32))
    else if op == 0xBF then Some(Unary(I64, F64))
    else None
  }

  /** The largest alignment exponent a load accepts: log2 of its access width. */
  function LoadMaxAlign(op: LoadOp): nat
  {
    match op
    case I32Load => 2  case I64Load => 3  case F32Load => 2  case F64Load => 3
    case I32Load8S => 0  case I32Load8U => 0  case I32Load16S => 1  case I32Load16U => 1
    case I64Load8S => 0  case I64Load8U => 0  case I64Load16S => 1  case I64Load16U => 1
    case I64Load32S => 2  case I64Load32U => 2
  }

  function LoadType(op: LoadOp): ValType
  {
    match op
    case I32Load | I32Load8S | I32Load8U | I32Load16S | I32Load16U => I32
    case I64Load | I64Load8S | I64Load8U | I64Load16S | I64Load16U | I64Load32S | I64Load32U => I64
    case F32Load => F32
    case F64Load => F64
  }

  function StoreMaxAlign(op: StoreOp): nat
  {
    match op
    case I32Store => 2  case I64Store => 3  case F32Store => 2  case F64Store => 3
    case I32Store8 => 0  case I32Store16 => 1
    case I64Store8 => 0  case I64Store16 => 1  case I64Store32 => 2
  }

  function StoreType(op: StoreOp): ValType
  {
    match op
    case I32Store | I32Store8 | I32Store16 => I32
    case I64Store | I64Store8 | I64Store16 | I64Store32 => I64
    case F32Store => F32
    case F64Store => F64
  }

  /** The access width in bytes that a memory operation touches. */
  function AccessBytes(maxAlign: nat): nat
  {
    Pow2(maxAlign)
  }

  /** Every load accepts exactly the alignments up to its natural one (section 3.3.4). */
  lemma LoadAlignIsWidth(op: LoadOp)
    ensures AccessBytes(LoadMaxAlign(op)) == (match op
      case I32Load8S | I32Load8U | I64Load8S | I64Load8U => 1
      case I32Load16S | I32Load16U | I64Load16S | I64Load16U => 2
      case I32Load | F32Load | I64Load32S | I64Load32U => 4
      case I64Load | F64Load => 8)
    ensures AccessBytes(LoadMaxAlign(op)) <= Size(LoadType(op))
  {
    assert Pow2(1) == 2;
    assert Pow2(2) == 4;
    assert Pow2(3) == 8;
  }

  lemma StoreAlignIsWidth(op: StoreOp)
    ensures AccessBytes(StoreMaxAlign(op)) == (match op
      case I32Store8 | I64Store8 => 1
      case I32Store16 | I64Store16 => 2
      case I32Store | F32Store | I64Store32 => 4
      case I64Store | F64Store => 8)
    ensures AccessBytes(StoreMaxAlign(op)) <= Size(StoreType(op))
  {
    assert Pow2(1) == 2;
    assert Pow2(2) == 4;
    assert Pow2(3) == 8;
  }

  /** The block type byte: 0x40 for no result, or one value type of WebAssembly 1.0. */
  function BlockResult(bt: byte): (r: Option<seq<ValType>>)
    ensures r.Some? <==> bt in {0x40, 0x7F, 0x7E, 0x7D, 0x7C}
    ensures r == Some([]) <==> bt == 0x40
    ensures r.Some? && bt != 0x40 ==> CodeType(bt).Some? && r.value == [CodeType(bt).value]
  {
    if bt == 0x40 then Some([])
    else if bt == 0x7F then Some([I32])
    else if bt == 0x7E then Some([I64])
    else if bt == 0x7D then Some([F32])
    else if bt == 0x7C then Some([F64])
    else None
  }

  // ---------------------------------------------------------------------
  // Locals

  /** The declared locals, one entry per local, in order. */
  function Expand(gs: seq<LocalGroup>): (ts: seq<ValType>)
  {
    if gs == [] then [] else seq(gs[0].count, _ => gs[0].t) + Expand(gs[1..])
  }

  function GroupTotal(gs: seq<LocalGroup>): (n: nat)
  {
    if gs == [] then 0 else gs[0].count + GroupTotal(gs[1..])
  }

  /** Parameters and declared locals: the local index space of section 3.3.3. */
  function AllLocals(f: Func): (ts: seq<ValType>)
    ensures |ts| == LocalCount(f)
  {
    ExpandLength(f.locals);
    f.sig.params + Expand(f.locals)
  }

  /** `all_local_count`: parameters plus every declared local. */
  function LocalCount(f: Func): nat
  {
    |f.sig.params| + GroupTotal(f.locals)
  }

  /** The source's walk over the local groups, subtracting each group's count. */
  function FindInGroups(gs: seq<LocalGroup>, i: nat): Option<ValType>
  {
    if gs == [] then None
    else if i < gs[0].count then Some(gs[0].t)
    else FindInGroups(gs[1..], i - gs[0].count)
  }

  /** The type of local `i`, or `None` when the index is illegal. */
  function LocalType(f: Func, i: nat): Option<ValType>
  {
    if i >= LocalCount(f) then None
    else if i < |f.sig.params| then Some(f.sig.params[i])
    else FindInGroups(f.locals, i - |f.sig.params|)
  }

  lemma {:induction false} ExpandLength(gs: seq<LocalGroup>)
    ensures |Expand(gs)| == GroupTotal(gs)
  {
    if gs != [] {
      ExpandLength(gs[1..]);
    }
  }

  lemma {:induction false} FindInGroupsIsExpand(gs: seq<LocalGroup>, i: nat)
    ensures FindInGroups(gs, i) == if i < |Expand(gs)| then Some(Expand(gs)[i]) else None
  {
    ExpandLength(gs);
    if gs != [] {
      ExpandLength(gs[1..]);
      if i >= gs[0].count {
        FindInGroupsIsExpand(gs[1..], i - gs[0].count);
        if i < |Expand(gs)| {
          assert Expand(gs)[i] == Expand(gs[1..])[i - gs[0].count];
        }
      }
    }
  }

  /**
   * The group walk finds exactly the entry of the flat local list: a local
   * index is legal iff it is below parameters plus declared locals, and then
   * its type is that local's type.
   */
  lemma LocalTypeIsIndex(f: Func, i: nat)
    ensures LocalType(f, i) == if i < |AllLocals(f)| then Some(AllLocals(f)[i]) else None
    ensures LocalType(f, i).Some? <==> i < LocalCount(f)
  {
    ExpandLength(f.locals);
    if i >= |f.sig.params| {
      FindInGroupsIsExpand(f.locals, i - |f.sig.params|);
    }
  }

  // ---------------------------------------------------------------------
  // Frames and labels

  /** Label `l` names the `l`-th frame from the top. */
  function LabelFrame(s: State, l: nat): Frame
    requires l < |s.frames|
  {
    s.frames[|s.frames| - 1 - l]
  }

  /**
   * The values a branch to a frame carries: a block's, `if`'s or the
   * function's results, but nothing for a `loop`, whose label is its start
   * (section 3.3.5 of the WebAssembly Core Specification 1.0).
   */
  function LabelTypes(fr: Frame): (ts: seq<ValType>)
    ensures fr.kind == LoopBlock ==> ts == []
    ensures fr.kind != LoopBlock ==> ts == fr.result
  {
    if fr.kind == LoopBlock then [] else fr.result
  }

  /** As written: every frame's label carries its result types, loops included. */
  function LabelTypesAsWritten(fr: Frame): (ts: seq<ValType>)
    ensures ts == fr.result
  {
    fr.result
  }

  /** The validator's invariant on frames: exactly the bottom frame is the function's. */
  predicate WellFramed(s: State)
  {
    |s.frames| > 0 && s.frames[0].kind == FunctionBlock
    && forall k :: 0 < k < |s.frames| ==> s.frames[k].kind != FunctionBlock
  }

  function TopBase(s: State): nat
    requires |s.frames| > 0
  {
    Last(s.frames).base
  }

  // ---------------------------------------------------------------------
  // One instruction

  /** `validate_numeric_unary`: pop one operand of type `operand`, push `result`. */
  function StepUnary(s: State, operand: ValType, result: ValType): (o: Outcome)
    ensures !s.polymorphic ==> (o.Continue? <==> EndsWith(s.stack, [operand]))
    ensures o.Fail? ==> o.err == if |s.stack| == 0 then OperandStackUnderflow else NumericOperandTypeMismatch
    ensures o.Continue? ==> o.next == s.(stack := PopN(s.stack, 1) + [result])
    ensures !o.Finished?
  {
    if !s.polymorphic && |s.stack| == 0 then Fail(OperandStackUnderflow)
    else if !s.polymorphic && Last(s.stack) != operand then Fail(NumericOperandTypeMismatch)
    else Continue(s.(stack := PopN(s.stack, 1) + [result]))
  }

  /** `validate_numeric_binary`: pop rhs then lhs, both of type `operand`, push `result`. */
  function StepBinary(s: State, operand: ValType, result: ValType): (o: Outcome)
    ensures !s.polymorphic ==> (o.Continue? <==> EndsWith(s.stack, [operand, operand]))
    ensures o.Fail? ==> o.err == if |s.stack| < 2 then OperandStackUnderflow else NumericOperandTypeMismatch
    ensures o.Continue? ==> o.next == s.(stack := PopN(s.stack, 2) + [result])
    ensures !o.Finished?
  {
    if !s.polymorphic && |s.stack| < 2 then Fail(OperandStackUnderflow)
    else if !s.polymorphic && Last(s.stack) != operand then Fail(NumericOperandTypeMismatch)
    else if !s.polymorphic && Last(PopN(s.stack, 1)) != operand then Fail(NumericOperandTypeMismatch)
    else Continue(s.(stack := PopN(s.stack, 2) + [result]))
  }

  /** The memory checks shared by loads and stores: a memory exists, then the alignment bound. */
  function MemArgError(m: ModuleInfo, maxAlign: nat, align: nat): (e: Option<Error>)
    ensures e == None <==> m.memoryCount > 0 && align <= maxAlign
  {
    if m.memoryCount == 0 then Some(NoMemory)
    else if align > maxAlign then Some(IllegalMemargAlignment)
    else None
  }

  /** `validate_mem_load`: pop an i32 address, push the loaded type. */
  function StepLoad(m: ModuleInfo, s: State, op: LoadOp, align: nat): (o: Outcome)
    ensures !s.polymorphic ==>
      (o.Continue? <==> m.memoryCount > 0 && align <= LoadMaxAlign(op) && EndsWith(s.stack, [I32]))
    ensures o.Continue? ==> o.next == s.(stack := PopN(s.stack, 1) + [LoadType(op)])
    ensures !o.Finished?
  {
    match MemArgError(m, LoadMaxAlign(op), align)
    case Some(e) => Fail(e)
    case None =>
      if !s.polymorphic && |s.stack| == 0 then Fail(OperandStackUnderflow)
      else if !s.polymorphic && Last(s.stack) != I32 then Fail(MemargAddressTypeNotI32)
      else Continue(s.(stack := PopN(s.stack, 1) + [LoadType(op)]))
  }

  /** `validate_mem_store`: pop the value, then an i32 address; the address is checked first. */
  function StepStore(m: ModuleInfo, s: State, op: StoreOp, align: nat): (o: Outcome)
    ensures !s.polymorphic ==>
      (o.Continue? <==> m.memoryCount > 0 && align <= StoreMaxAlign(op) && EndsWith(s.stack, [I32, StoreType(op)]))
    ensures o.Continue? ==> o.next == s.(stack := PopN(s.stack, 2))
    ensures !o.Finished?
  {
    match MemArgError(m, StoreMaxAlign(op), align)
    case Some(e) => Fail(e)
    case None =>
      if !s.polymorphic && |s.stack| < 2 then Fail(OperandStackUnderflow)
      else if !s.polymorphic && Last(PopN(s.stack, 1)) != I32 then Fail(MemargAddressTypeNotI32)
      else if !s.polymorphic && Last(s.stack) != StoreType(op) then Fail(StoreValueTypeMismatch)
      else Continue(s.(stack := PopN(s.stack, 2)))
  }

  /** `block` and `loop`: push a frame whose base is the current height; the stack is untouched. */
  function StepBlock(s: State, bt: byte, kind: BlockKind): (o: Outcome)
    ensures o.Fail? <==> BlockResult(bt).None?
    ensures o.Fail? ==> o.err == IllegalBlockType
    ensures o.Continue? ==> o.next == s.(frames := s.frames + [Frame(BlockResult(bt).value, |s.stack|, kind, s.polymorphic, false)])
    ensures !o.Finished?
  {
    match BlockResult(bt)
    case None => Fail(IllegalBlockType)
    case Some(rs) => Continue(s.(frames := s.frames + [Frame(rs, |s.stack|, kind, s.polymorphic, false)]))
  }

  /** `if`: check the block type, pop an i32 condition, push a frame based above it. */
  function StepIf(s: State, bt: byte): (o: Outcome)
    ensures BlockResult(bt).None? ==> o == Fail(IllegalBlockType)
    ensures !s.polymorphic ==> (o.Continue? <==> BlockResult(bt).Some? && EndsWith(s.stack, [I32]))
    ensures o.Continue? ==> o.next == State(PopN(s.stack, 1),
      s.frames + [Frame(BlockResult(bt).value, |PopN(s.stack, 1)|, IfBlock, s.polymorphic, false)],
      s.polymorphic, s.maxHeight)
    ensures !o.Finished?
  {
    match BlockResult(bt)
    case None => Fail(IllegalBlockType)
    case Some(rs) =>
      if !s.polymorphic && |s.stack| == 0 then Fail(OperandStackUnderflow)
      else if |s.stack| > 0 && Last(s.stack) != I32 then Fail(IfCondTypeNotI32)
      else
        var rest := PopN(s.stack, 1);
        Continue(s.(stack := rest, frames := s.frames + [Frame(rs, |rest|, IfBlock, s.polymorphic, false)]))
  }

  /** The then-arm of an `if` left exactly its result values above the frame base. */
  predicate ArmMatches(stack: seq<ValType>, fr: Frame)
  {
    |stack| >= fr.base && |stack| - fr.base == |fr.result|
    && (|fr.result| == 1 ==> Last(stack) == fr.result[0])
  }

  /**
   * `else`: the top frame must be an `if`; a non-polymorphic then-arm must
   * have produced its results; the stack returns to the frame base and the
   * polymorphic flag to its value at `if`.
   */
  function StepElse(s: State): (o: Outcome)
    requires |s.frames| > 0
    ensures Last(s.frames).kind != IfBlock ==> o == Fail(IllegalElse)
    ensures !s.polymorphic && Last(s.frames).kind == IfBlock ==> (o.Continue? <==> ArmMatches(s.stack, Last(s.frames)))
    ensures o.Continue? ==>
      var fr := Last(s.frames);
      o.next == State(Truncate(s.stack, fr.base),
        s.frames[..|s.frames| - 1] + [fr.(kind := ElseBlock, thenPolymorphicEnd := s.polymorphic)],
        fr.polymorphicBase, s.maxHeight)
    ensures !o.Finished?
  {
    var fr := Last(s.frames);
    if fr.kind != IfBlock then Fail(IllegalElse)
    else if !s.polymorphic && !ArmMatches(s.stack, fr) then Fail(IfThenResultMismatch)
    else
      Continue(State(Truncate(s.stack, fr.base),
        s.frames[..|s.frames| - 1] + [fr.(kind := ElseBlock, thenPolymorphicEnd := s.polymorphic)],
        fr.polymorphicBase, s.maxHeight))
  }

  /** How many values sit above the frame base (0 when the stack is below it). */
  function AboveBase(stack: seq<ValType>, base: nat): nat
  {
    if |stack| >= base then |stack| - base else 0
  }

  /** The `end` check on the values above the base, before they are replaced by the results. */
  predicate EndMatches(stack: seq<ValType>, fr: Frame, polymorphic: bool)
  {
    var n := AboveBase(stack, fr.base);
    (if polymorphic then n <= |fr.result| else n == |fr.result|)
    && (|fr.result| != 0 && n >= |fr.result| ==> EndsWith(stack, fr.result))
  }

  /**
   * `end`: an `if` with results needs an `else`; the values above the base
   * must be the frame's results (at most that many when polymorphic); the
   * stack is cut to the base and the results pushed; the function's own
   * frame finishes the body.
   */
  function StepEnd(s: State): (o: Outcome)
    requires |s.frames| > 0
    ensures Last(s.frames).kind == IfBlock && |Last(s.frames).result| != 0 ==> o == Fail(IfMissingElse)
    ensures o.Fail? <==>
      ((Last(s.frames).kind == IfBlock && |Last(s.frames).result| != 0)
       || !EndMatches(s.stack, Last(s.frames), s.polymorphic))
    ensures o.Finished? <==> !o.Fail? && Last(s.frames).kind == FunctionBlock
    ensures o.Continue? ==>
      var fr := Last(s.frames);
      o.next == State(Truncate(s.stack, fr.base) + fr.result, s.frames[..|s.frames| - 1],
        if fr.kind == ElseBlock then fr.polymorphicBase || (fr.thenPolymorphicEnd && s.polymorphic)
        else fr.polymorphicBase,
        s.maxHeight)
  {
    var fr := Last(s.frames);
    if fr.kind == IfBlock && |fr.result| != 0 then Fail(IfMissingElse)
    else if !EndMatches(s.stack, fr, s.polymorphic) then Fail(EndResultMismatch)
    else if fr.kind == FunctionBlock then Finished
    else
      Continue(State(Truncate(s.stack, fr.base) + fr.result, s.frames[..|s.frames| - 1],
        if fr.kind == ElseBlock then fr.polymorphicBase || (fr.thenPolymorphicEnd && s.polymorphic)
        else fr.polymorphicBase,
        s.maxHeight))
  }

  /** Cut the stack to the current frame's base and make it polymorphic. */
  function Unwind(s: State, stack: seq<ValType>): State
    requires |s.frames| > 0
  {
    s.(stack := Truncate(stack, TopBase(s)), polymorphic := true)
  }

  /**
   * The unconditional part of `br` once the target's label types `ts` are
   * known: the top value must have the label's (first) type, then the
   * carried values are popped and the stack unwinds.
   */
  function BranchTo(s: State, ts: seq<ValType>): (o: Outcome)
    requires |s.frames| > 0
    ensures !s.polymorphic ==> (o.Continue? <==> |s.stack| >= |ts| && (|ts| != 0 ==> Last(s.stack) == ts[0]))
    ensures o.Continue? ==> o.next == Unwind(s, PopN(s.stack, |ts|))
    ensures !o.Finished?
  {
    if !s.polymorphic && |s.stack| < |ts| then Fail(OperandStackUnderflow)
    else if !s.polymorphic && |ts| != 0 && Last(s.stack) != ts[0] then Fail(BrValueTypeMismatch)
    else Continue(Unwind(s, PopN(s.stack, |ts|)))
  }

  /** `br_if` once the label types are known: pop an i32 condition, check the carried value, keep the rest. */
  function CondBranchTo(s: State, ts: seq<ValType>): (o: Outcome)
    ensures !s.polymorphic ==> (o.Continue? <==>
      |s.stack| >= |ts| + 1 && Last(s.stack) == I32 && (|ts| != 0 ==> Last(PopN(s.stack, 1)) == ts[0]))
    ensures o.Continue? ==> o.next == s.(stack := PopN(s.stack, 1))
    ensures !o.Finished?
  {
    if !s.polymorphic && |s.stack| < |ts| + 1 then Fail(OperandStackUnderflow)
    else if !s.polymorphic && Last(s.stack) != I32 then Fail(BrCondTypeNotI32)
    else if !s.polymorphic && |ts| != 0 && Last(PopN(s.stack, 1)) != ts[0] then Fail(BrValueTypeMismatch)
    else Continue(s.(stack := PopN(s.stack, 1)))
  }

  /** `br l` with the label rule of section 3.3.5: a loop's label carries nothing. */
  function StepBr(s: State, l: nat): (o: Outcome)
    requires |s.frames| > 0
    ensures l >= |s.frames| ==> o == Fail(IllegalLabelIndex)
    ensures l < |s.frames| && s.polymorphic ==> o.Continue?
    ensures !s.polymorphic && l < |s.frames| ==>
      var ts := LabelTypes(LabelFrame(s, l));
      (o.Continue? <==> |s.stack| >= |ts| && (|ts| != 0 ==> Last(s.stack) == ts[0]))
    ensures o.Continue? ==>
      l < |s.frames| && o.next == Unwind(s, PopN(s.stack, |LabelTypes(LabelFrame(s, l))|))
      && o.next.polymorphic && |o.next.stack| <= TopBase(s)
  {
    if l >= |s.frames| then Fail(IllegalLabelIndex)
    else BranchTo(s, LabelTypes(LabelFrame(s, l)))
  }

  /** `br l` as written: the label carries the frame's results even for a loop. */
  function StepBrAsWritten(s: State, l: nat): (o: Outcome)
    requires |s.frames| > 0
    ensures l >= |s.frames| ==> o == Fail(IllegalLabelIndex)
    ensures !s.polymorphic && l < |s.frames| ==>
      var rs := LabelFrame(s, l).result;
      (o.Continue? <==> |s.stack| >= |rs| && (|rs| != 0 ==> Last(s.stack) == rs[0]))
    ensures o.Continue? ==> l < |s.frames| && o.next == Unwind(s, PopN(s.stack, |LabelFrame(s, l).result|))
  {
    if l >= |s.frames| then Fail(IllegalLabelIndex)
    else BranchTo(s, LabelTypesAsWritten(LabelFrame(s, l)))
  }

  /** `br_if l` with the label rule of section 3.3.5. */
  function StepBrIf(s: State, l: nat): (o: Outcome)
    ensures l >= |s.frames| ==> o == Fail(IllegalLabelIndex)
    ensures l < |s.frames| && s.polymorphic ==> o.Continue?
    ensures !s.polymorphic && l < |s.frames| ==>
      var ts := LabelTypes(LabelFrame(s, l));
      (o.Continue? <==>
        |s.stack| >= |ts| + 1 && Last(s.stack) == I32 && (|ts| != 0 ==> Last(PopN(s.stack, 1)) == ts[0]))
    ensures !s.polymorphic && l < |s.frames| && LabelFrame(s, l).kind == LoopBlock ==>
      (o.Continue? <==> |s.stack| >= 1 && Last(s.stack) == I32)
    ensures o.Continue? ==> l < |s.frames| && o.next == s.(stack := PopN(s.stack, 1))
  {
    if l >= |s.frames| then Fail(IllegalLabelIndex)
    else CondBranchTo(s, LabelTypes(LabelFrame(s, l)))
  }

  /** `br_if` as written: the label carries the frame's results even for a loop. */
  function StepBrIfAsWritten(s: State, l: nat): (o: Outcome)
    ensures l >= |s.frames| ==> o == Fail(IllegalLabelIndex)
    ensures !s.polymorphic && l < |s.frames| ==>
      var rs := LabelFrame(s, l).result;
      (o.Continue? <==>
        |s.stack| >= |rs| + 1 && Last(s.stack) == I32 && (|rs| != 0 ==> Last(PopN(s.stack, 1)) == rs[0]))
    ensures !s.polymorphic && o.Continue? ==> |s.stack| >= |LabelFrame(s, l).result| + 1
    ensures o.Continue? ==> o.next == s.(stack := PopN(s.stack, 1))
  {
    if l >= |s.frames| then Fail(IllegalLabelIndex)
    else CondBranchTo(s, LabelTypesAsWritten(LabelFrame(s, l)))
  }

  /** Two label signatures agree as `br_table` compares them: the arity, and the first type. */
  predicate SameSig(a: seq<ValType>, b: seq<ValType>)
  {
    |a| == |b| && (|a| != 0 ==> a[0] == b[0])
  }

  /** The `br_table` target loop: each label in order is legal and has the expected signature. */
  function TableTargets(s: State, expected: seq<ValType>, ls: seq<nat>): (e: Option<Error>)
    ensures e == None <==> forall k :: 0 <= k < |ls| ==>
      ls[k] < |s.frames| && SameSig(LabelTypes(LabelFrame(s, ls[k])), expected)
    decreases |ls|
  {
    if ls == [] then None
    else if ls[0] >= |s.frames| then Some(IllegalLabelIndex)
    else if !SameSig(LabelTypes(LabelFrame(s, ls[0])), expected) then Some(BrTableTargetTypeMismatch)
    else
      var r := TableTargets(s, expected, ls[1..]);
      assert forall k :: 1 <= k < |ls| ==> ls[k] == ls[1..][k - 1];
      r
  }

  /**
   * `br_table`: all targets (the default last) must be legal and agree with
   * the first; then an i32 index is popped, the carried value checked, and
   * the stack unwinds.
   */
  function StepBrTable(s: State, labels: seq<nat>, otherwise: nat): (o: Outcome)
    requires |s.frames| > 0
    ensures o.Continue? ==>
      var all := labels + [otherwise];
      all[0] < |s.frames|
      && (forall k :: 0 <= k < |all| ==>
            all[k] < |s.frames| && SameSig(LabelTypes(LabelFrame(s, all[k])), LabelTypes(LabelFrame(s, all[0]))))
      && o.next.polymorphic && |o.next.stack| <= TopBase(s)
    ensures !s.polymorphic && o.Continue? ==> |s.stack| > 0 && Last(s.stack) == I32
    ensures
      var all := labels + [otherwise];
      o.Continue? <==>
        all[0] < |s.frames|
        && (forall k :: 0 <= k < |all| ==>
              all[k] < |s.frames| && SameSig(LabelTypes(LabelFrame(s, all[k])), LabelTypes(LabelFrame(s, all[0]))))
        && (!s.polymorphic ==>
              var ts := LabelTypes(LabelFrame(s, all[0]));
              |s.stack| >= |ts| + 1 && Last(s.stack) == I32
              && (|ts| != 0 ==> Last(PopN(s.stack, 1)) == ts[0]))
    ensures !o.Finished?
  {
    var all := labels + [otherwise];
    if all[0] >= |s.frames| then Fail(IllegalLabelIndex)
    else
      var ts := LabelTypes(LabelFrame(s, all[0]));
      match TableTargets(s, ts, all[1..])
      case Some(e) => Fail(e)
      case None =>
        assert forall k :: 1 <= k < |all| ==> all[k] == all[1..][k - 1];
        if !s.polymorphic && |s.stack| < |ts| + 1 then Fail(OperandStackUnderflow)
        else if !s.polymorphic && Last(s.stack) != I32 then Fail(BrCondTypeNotI32)
        else BranchTo(s.(stack := PopN(s.stack, 1)), ts)
  }

  /** `return`: the top values must be the function's results; then the stack unwinds. */
  function StepReturn(s: State): (o: Outcome)
    requires |s.frames| > 0
    ensures !s.polymorphic ==> (o.Continue? <==> EndsWith(s.stack, s.frames[0].result))
    ensures o.Continue? ==> o.next == Unwind(s, PopN(s.stack, |s.frames[0].result|))
    ensures !o.Finished?
  {
    var ts := s.frames[0].result;
    if !s.polymorphic && |s.stack| < |ts| then Fail(OperandStackUnderflow)
    else if !s.polymorphic && !EndsWith(s.stack, ts) then Fail(BrValueTypeMismatch)
    else Continue(Unwind(s, PopN(s.stack, |ts|)))
  }

  /** The argument check and effect of a call with signature `t`. */
  function Invoke(s: State, t: FuncType): (o: Outcome)
    ensures !s.polymorphic ==> (o.Continue? <==> EndsWith(s.stack, t.params))
    ensures o.Continue? ==> o.next == s.(stack := PopN(s.stack, |t.params|) + t.results)
    ensures !o.Finished?
  {
    if !s.polymorphic && |s.stack| < |t.params| then Fail(OperandStackUnderflow)
    else if !s.polymorphic && !EndsWith(s.stack, t.params) then Fail(BrValueTypeMismatch)
    else Continue(s.(stack := PopN(s.stack, |t.params|) + t.results))
  }

  function StepCall(m: ModuleInfo, s: State, f: nat): (o: Outcome)
    ensures f >= |m.funcs| ==> o == Fail(InvalidFunctionIndex)
    ensures f < |m.funcs| ==> o == Invoke(s, m.funcs[f])
  {
    if f >= |m.funcs| then Fail(InvalidFunctionIndex) else Invoke(s, m.funcs[f])
  }

  /** `call_indirect`: the table and type indices, then an i32 selector, then the call itself. */
  function StepCallIndirect(m: ModuleInfo, s: State, ti: nat, table: nat): (o: Outcome)
    ensures table >= m.tableCount ==> o == Fail(IllegalTableIndex)
    ensures table < m.tableCount && ti >= |m.types| ==> o == Fail(IllegalTypeIndex)
    ensures !s.polymorphic && table < m.tableCount && ti < |m.types| ==>
      (o.Continue? <==> EndsWith(s.stack, m.types[ti].params + [I32]))
  {
    if table >= m.tableCount then Fail(IllegalTableIndex)
    else if ti >= |m.types| then Fail(IllegalTypeIndex)
    else
      var t := m.types[ti];
      if !s.polymorphic && |s.stack| < |t.params| + 1 then Fail(OperandStackUnderflow)
      else if |s.stack| > 0 && !s.polymorphic && Last(s.stack) != I32 then Fail(BrCondTypeNotI32)
      else
        Invoke(s.(stack := PopN(s.stack, 1)), t)
  }

  function StepDrop(s: State): (o: Outcome)
    ensures !s.polymorphic ==> (o.Continue? <==> |s.stack| >= 1)
    ensures o.Continue? ==> o.next == s.(stack := PopN(s.stack, 1))
    ensures !o.Finished?
  {
    if |s.stack| == 0 && !s.polymorphic then Fail(OperandStackUnderflow)
    else Continue(s.(stack := PopN(s.stack, 1)))
  }

  /**
   * `select`: an i32 condition over two values of one type; the deeper
   * value stays as the result. When polymorphic, the values that are there
   * are still checked.
   */
  function StepSelect(s: State): (o: Outcome)
    ensures !s.polymorphic ==> (o.Continue? <==>
      |s.stack| >= 3 && Last(s.stack) == I32 && s.stack[|s.stack| - 2] == s.stack[|s.stack| - 3])
    ensures !s.polymorphic && o.Continue? ==> o.next == s.(stack := s.stack[..|s.stack| - 2])
    ensures !o.Finished?
  {
    if !s.polymorphic && |s.stack| < 3 then Fail(OperandStackUnderflow)
    else if |s.stack| > 0 && Last(s.stack) != I32 then Fail(SelectCondTypeNotI32)
    else
      var rest := PopN(s.stack, 1);
      if |rest| >= 2 && rest[|rest| - 1] != rest[|rest| - 2] then Fail(SelectTypeMismatch)
      else if |rest| >= 2 then Continue(s.(stack := PopN(rest, 1)))
      else Continue(s.(stack := rest))
  }

  function StepLocalGet(f: Func, s: State, i: nat): (o: Outcome)
    ensures o.Continue? <==> i < LocalCount(f)
    ensures o.Continue? ==> o.next == s.(stack := s.stack + [AllLocals(f)[i]])
    ensures o.Fail? ==> o.err == IllegalLocalIndex
  {
    LocalTypeIsIndex(f, i);
    match LocalType(f, i)
    case None => Fail(IllegalLocalIndex)
    case Some(t) => Continue(s.(stack := s.stack + [t]))
  }

  function StepLocalSet(f: Func, s: State, i: nat): (o: Outcome)
    ensures i >= LocalCount(f) ==> o == Fail(IllegalLocalIndex)
    ensures !s.polymorphic ==> (o.Continue? <==> i < LocalCount(f) && |s.stack| >= 1 && Last(s.stack) == AllLocals(f)[i])
    ensures o.Continue? ==> o.next == s.(stack := PopN(s.stack, 1))
    ensures !o.Finished?
  {
    LocalTypeIsIndex(f, i);
    match LocalType(f, i)
    case None => Fail(IllegalLocalIndex)
    case Some(t) =>
      if |s.stack| == 0 && !s.polymorphic then Fail(OperandStackUnderflow)
      else if |s.stack| > 0 && Last(s.stack) != t then Fail(LocalSetTypeMismatch)
      else Continue(s.(stack := PopN(s.stack, 1)))
  }

  /** `local.tee` keeps the value; on an empty polymorphic stack it pushes the local's type. */
  function StepLocalTee(f: Func, s: State, i: nat): (o: Outcome)
    ensures i >= LocalCount(f) ==> o == Fail(IllegalLocalIndex)
    ensures !s.polymorphic ==> (o.Continue? <==> i < LocalCount(f) && |s.stack| >= 1 && Last(s.stack) == AllLocals(f)[i])
    ensures o.Continue? && |s.stack| > 0 ==> o.next == s
    ensures !o.Finished?
  {
    LocalTypeIsIndex(f, i);
    match LocalType(f, i)
    case None => Fail(IllegalLocalIndex)
    case Some(t) =>
      if |s.stack| == 0 && !s.polymorphic then Fail(OperandStackUnderflow)
      else if |s.stack| == 0 then Continue(s.(stack := [t]))
      else if Last(s.stack) != t then Fail(LocalTeeTypeMismatch)
      else Continue(s)
  }

  function StepGlobalGet(m: ModuleInfo, s: State, g: nat): (o: Outcome)
    ensures o.Continue? <==> g < |m.globals|
    ensures o.Continue? ==> o.next == s.(stack := s.stack + [m.globals[g].t])
    ensures o.Fail? ==> o.err == IllegalGlobalIndex
  {
    if g >= |m.globals| then Fail(IllegalGlobalIndex)
    else Continue(s.(stack := s.stack + [m.globals[g].t]))
  }

  function StepGlobalSet(m: ModuleInfo, s: State, g: nat): (o: Outcome)
    ensures g >= |m.globals| ==> o == Fail(IllegalGlobalIndex)
    ensures g < |m.globals| && !m.globals[g].mutable ==> o == Fail(ImmutableGlobalSet)
    ensures !s.polymorphic ==> (o.Continue? <==>
      g < |m.globals| && m.globals[g].mutable && |s.stack| >= 1 && Last(s.stack) == m.globals[g].t)
    ensures o.Continue? ==> o.next == s.(stack := PopN(s.stack, 1))
    ensures !o.Finished?
  {
    if g >= |m.globals| then Fail(IllegalGlobalIndex)
    else if !m.globals[g].mutable then Fail(ImmutableGlobalSet)
    else if |s.stack| == 0 && !s.polymorphic then Fail(OperandStackUnderflow)
    else if |s.stack| > 0 && Last(s.stack) != m.globals[g].t then Fail(GlobalSetTypeMismatch)
    else Continue(s.(stack := PopN(s.stack, 1)))
  }

  /** `memory.size` and `memory.grow` address memory 0, which must exist. */
  function MemIndexError(m: ModuleInfo, mem: nat): (e: Option<Error>)
    ensures e == None <==> mem == 0 && m.memoryCount > 0
  {
    if mem != 0 then Some(IllegalMemoryIndex)
    else if m.memoryCount == 0 then Some(NoMemory)
    else None
  }

  function StepMemorySize(m: ModuleInfo, s: State, mem: nat): (o: Outcome)
    ensures o.Continue? <==> mem == 0 && m.memoryCount > 0
    ensures o.Continue? ==> o.next == s.(stack := s.stack + [I32])
    ensures !o.Finished?
  {
    match MemIndexError(m, mem)
    case Some(e) => Fail(e)
    case None => Continue(s.(stack := s.stack + [I32]))
  }

  function StepMemoryGrow(m: ModuleInfo, s: State, mem: nat): (o: Outcome)
    ensures !s.polymorphic ==> (o.Continue? <==> mem == 0 && m.memoryCount > 0 && EndsWith(s.stack, [I32]))
    ensures o.Continue? ==> o.next == s.(stack := PopN(s.stack, 1) + [I32])
    ensures !o.Finished?
  {
    match MemIndexError(m, mem)
    case Some(e) => Fail(e)
    case None =>
      if !s.polymorphic && |s.stack| == 0 then Fail(OperandStackUnderflow)
      else if !s.polymorphic && Last(s.stack) != I32 then Fail(MemoryGrowDeltaTypeNotI32)
      else Continue(s.(stack := PopN(s.stack, 1) + [I32]))
  }

  function StepNumeric(s: State, op: byte): (o: Outcome)
    ensures NumericSig(op).None? ==> o == Fail(IllegalOpbase)
    ensures o.Continue? ==> |o.next.stack| > 0 && Last(o.next.stack) == NumericSig(op).value.result
    ensures !o.Finished?
  {
    match NumericSig(op)
    case None => Fail(IllegalOpbase)
    case Some(Unary(a, r)) => StepUnary(s, a, r)
    case Some(Binary(a, r)) => StepBinary(s, a, r)
  }

  /** One iteration of the validator's `switch`, before the stack maximum is recorded. */
  function Step(m: ModuleInfo, f: Func, s: State, ins: Instr): (o: Outcome)
    requires |s.frames| > 0
  {
    match ins
    case Unreachable => Continue(Unwind(s, s.stack))
    case Nop => Continue(s)
    case Block(bt) => StepBlock(s, bt, PlainBlock)
    case Loop(bt) => StepBlock(s, bt, LoopBlock)
    case If(bt) => StepIf(s, bt)
    case Else => StepElse(s)
    case End => StepEnd(s)
    case Br(l) => StepBr(s, l)
    case BrIf(l) => StepBrIf(s, l)
    case BrTable(ls, d) => StepBrTable(s, ls, d)
    case Return => StepReturn(s)
    case Call(fi) => StepCall(m, s, fi)
    case CallIndirect(ti, tb) => StepCallIndirect(m, s, ti, tb)
    case Drop => StepDrop(s)
    case Select => StepSelect(s)
    case LocalGet(i) => StepLocalGet(f, s, i)
    case LocalSet(i) => StepLocalSet(f, s, i)
    case LocalTee(i) => StepLocalTee(f, s, i)
    case GlobalGet(g) => StepGlobalGet(m, s, g)
    case GlobalSet(g) => StepGlobalSet(m, s, g)
    case Load(op, a, _) => StepLoad(m, s, op, a)
    case Store(op, a, _) => StepStore(m, s, op, a)
    case MemorySize(mi) => StepMemorySize(m, s, mi)
    case MemoryGrow(mi) => StepMemoryGrow(m, s, mi)
    case I32Const => Continue(s.(stack := s.stack + [I32]))
    case I64Const => Continue(s.(stack := s.stack + [I64]))
    case F32Const => Continue(s.(stack := s.stack + [F32]))
    case F64Const => Continue(s.(stack := s.stack + [F64]))
    case Numeric(op) => StepNumeric(s, op)
  }

  /** After each instruction that leaves the stack non-polymorphic, the maximum is raised to its height. */
  function Record(s: State): (r: State)
    ensures r.stack == s.stack && r.frames == s.frames && r.polymorphic == s.polymorphic
    ensures !s.polymorphic ==> r.maxHeight == (if |s.stack| > s.maxHeight then |s.stack| else s.maxHeight)
    ensures s.polymorphic ==> r.maxHeight == s.maxHeight
  {
    if !s.polymorphic && |s.stack| > s.maxHeight then s.(maxHeight := |s.stack|) else s
  }

  // ---------------------------------------------------------------------
  // Frame invariant

  /**
   * Only the function's own `end` finishes the body, and every other step
   * keeps exactly one function frame at the bottom of the control stack.
   */
  lemma StepKeepsFrames(m: ModuleInfo, f: Func, s: State, ins: Instr)
    requires WellFramed(s)
    ensures Step(m, f, s, ins).Finished? ==> ins == End && |s.frames| == 1
    ensures Step(m, f, s, ins).Continue? ==> WellFramed(Step(m, f, s, ins).next)
    ensures Step(m, f, s, ins).Continue? ==> Step(m, f, s, ins).next.maxHeight == s.maxHeight
  {
    StepFinishesOnlyAtEnd(m, f, s, ins);
    StepKeepsFunctionFrame(m, f, s, ins);
    StepKeepsMaximum(m, f, s, ins);
  }

  lemma StepKeepsMaximum(m: ModuleInfo, f: Func, s: State, ins: Instr)
    requires WellFramed(s)
    ensures Step(m, f, s, ins).Continue? ==> Step(m, f, s, ins).next.maxHeight == s.maxHeight
  {
  }

  lemma StepFinishesOnlyAtEnd(m: ModuleInfo, f: Func, s: State, ins: Instr)
    requires WellFramed(s)
    ensures Step(m, f, s, ins).Finished? ==> ins == End && |s.frames| == 1
  {
  }

  lemma StepKeepsFunctionFrame(m: ModuleInfo, f: Func, s: State, ins: Instr)
    requires WellFramed(s)
    ensures Step(m, f, s, ins).Continue? ==> WellFramed(Step(m, f, s, ins).next)
  {
    if ins.End? || ins.Else? || ins.Block? || ins.Loop? || ins.If? {
      StructuredKeepsFunctionFrame(m, f, s, ins);
    }
  }

  lemma StructuredKeepsFunctionFrame(m: ModuleInfo, f: Func, s: State, ins: Instr)
    requires WellFramed(s)
    requires ins.End? || ins.Else? || ins.Block? || ins.Loop? || ins.If?
    ensures Step(m, f, s, ins).Continue? ==> WellFramed(Step(m, f, s, ins).next)
  {
    var o := Step(m, f, s, ins);
    if ins.End? && o.Continue? {
      assert Last(s.frames).kind != FunctionBlock;
      assert |s.frames| > 1;
    }
  }

  // ---------------------------------------------------------------------
  // The pass over a body

  function Initial(f: Func): (s: State)
    ensures WellFramed(s)
  {
    State([], [Frame(f.sig.results, 0, FunctionBlock, false, false)], false, 0)
  }

  /** The loop from instruction `i` on, with the state reached so far. */
  function Run(m: ModuleInfo, f: Func, i: nat, s: State): Verdict
    requires i <= |f.body| && WellFramed(s)
    decreases |f.body| - i
  {
    if i == |f.body| then Invalid(MissingEnd)
    else
      StepKeepsFrames(m, f, s, f.body[i]);
      match Step(m, f, s, f.body[i])
      case Fail(e) => Invalid(e)
      case Finished => if i + 1 == |f.body| then Valid(s.maxHeight) else Invalid(TrailingCodeAfterEnd)
      case Continue(t) => Run(m, f, i + 1, Record(t))
  }

  function Validate(m: ModuleInfo, f: Func): Verdict
  {
    Run(m, f, 0, Initial(f))
  }

  /** The validator loop over one function body. */
  method ValidateFunction(m: ModuleInfo, f: Func) returns (v: Verdict)
    ensures v == Validate(m, f)
  {
    var s := Initial(f);
    var i: nat := 0;
    while i < |f.body|
      invariant i <= |f.body| && WellFramed(s)
      invariant Run(m, f, i, s) == Validate(m, f)
      decreases |f.body| - i
    {
      StepKeepsFrames(m, f, s, f.body[i]);
      var o := Step(m, f, s, f.body[i]);
      match o {
        case Fail(e) =>
          return Invalid(e);
        case Finished =>
          if i + 1 != |f.body| {
            return Invalid(TrailingCodeAfterEnd);
          }
          return Valid(s.maxHeight);
        case Continue(t) =>
          s := Record(t);
          i := i + 1;
      }
    }
    return Invalid(MissingEnd);
  }

  // ---------------------------------------------------------------------
  // Properties of the pass

  /**
   * An accepted body ends with the function's `end` and nothing follows it:
   * running out of code is `missing_end`, and code after the function's
   * `end` is `trailing_code_after_end`.
   */
  lemma {:induction false} RunValidEndsWithEnd(m: ModuleInfo, f: Func, i: nat, s: State)
    requires i <= |f.body| && WellFramed(s)
    ensures Run(m, f, i, s).Valid? ==> |f.body| > 0 && f.body[|f.body| - 1] == End
    decreases |f.body| - i
  {
    if i < |f.body| {
      StepKeepsFrames(m, f, s, f.body[i]);
      var o := Step(m, f, s, f.body[i]);
      if o.Continue? {
        RunValidEndsWithEnd(m, f, i + 1, Record(o.next));
      }
    }
  }

  lemma ValidEndsWithEnd(m: ModuleInfo, f: Func)
    ensures Validate(m, f).Valid? ==> |f.body| > 0 && f.body[|f.body| - 1] == End
  {
    RunValidEndsWithEnd(m, f, 0, Initial(f));
  }

  /** A body with no `end` at all is rejected, with `missing_end` unless an earlier error is met. */
  lemma {:induction false} RunWithoutEnd(m: ModuleInfo, f: Func, i: nat, s: State)
    requires i <= |f.body| && WellFramed(s)
    requires forall j :: i <= j < |f.body| ==> f.body[j] != End
    ensures Run(m, f, i, s).Invalid?
    ensures (forall j :: i <= j < |f.body| ==> f.body[j] in {Nop, I32Const, I64Const, F32Const, F64Const})
      ==> Run(m, f, i, s) == Invalid(MissingEnd)
    decreases |f.body| - i
  {
    if i < |f.body| {
      StepKeepsFrames(m, f, s, f.body[i]);
      var o := Step(m, f, s, f.body[i]);
      if o.Continue? {
        RunWithoutEnd(m, f, i + 1, Record(o.next));
      }
    }
  }

  /** The states after each continuing step, in order, with the maximum already recorded. */
  ghost function Trace(m: ModuleInfo, f: Func, i: nat, s: State): seq<State>
    requires i <= |f.body| && WellFramed(s)
    decreases |f.body| - i
  {
    if i == |f.body| then []
    else
      StepKeepsFrames(m, f, s, f.body[i]);
      match Step(m, f, s, f.body[i])
      case Continue(t) => [Record(t)] + Trace(m, f, i + 1, Record(t))
      case _ => []
  }

  /** The maximum after recording state `t` when the maximum before was `m0`. */
  function Bump(m0: nat, t: State): nat
  {
    if !t.polymorphic && |t.stack| > m0 then |t.stack| else m0
  }

  /** Each state of `tr` carries the maximum recorded over it and everything before it, starting from `m0`. */
  predicate RecordChain(m0: nat, tr: seq<State>)
    decreases |tr|
  {
    tr == [] || (tr[0].maxHeight == Bump(m0, tr[0]) && RecordChain(tr[0].maxHeight, tr[1..]))
  }

  function LastMax(m0: nat, tr: seq<State>): nat
  {
    if tr == [] then m0 else Last(tr).maxHeight
  }

  /** Along a run, the recorded maxima form a chain, and an accepted body reports the last of them. */
  lemma {:induction false} RunRecordsChain(m: ModuleInfo, f: Func, i: nat, s: State)
    requires i <= |f.body| && WellFramed(s)
    ensures RecordChain(s.maxHeight, Trace(m, f, i, s))
    ensures Run(m, f, i, s).Valid? ==> Run(m, f, i, s).operandStackMax == LastMax(s.maxHeight, Trace(m, f, i, s))
    decreases |f.body| - i
  {
    if i < |f.body| {
      StepKeepsFrames(m, f, s, f.body[i]);
      var o := Step(m, f, s, f.body[i]);
      if o.Continue? {
        var t := Record(o.next);
        RunRecordsChain(m, f, i + 1, t);
        var rest := Trace(m, f, i + 1, t);
        assert ([t] + rest)[1..] == rest;
      }
    }
  }

  /**
   * The last maximum of a chain is the largest non-polymorphic height in it
   * (or the starting maximum), and it bounds every such height.
   */
  lemma {:induction false} ChainMax(m0: nat, tr: seq<State>)
    requires RecordChain(m0, tr)
    ensures m0 <= LastMax(m0, tr)
    ensures forall k :: 0 <= k < |tr| && !tr[k].polymorphic ==> |tr[k].stack| <= LastMax(m0, tr)
    ensures LastMax(m0, tr) == m0
      || exists k :: 0 <= k < |tr| && !tr[k].polymorphic && |tr[k].stack| == LastMax(m0, tr)
    decreases |tr|
  {
    if tr != [] {
      var rest := tr[1..];
      ChainMax(tr[0].maxHeight, rest);
      assert LastMax(m0, tr) == LastMax(tr[0].maxHeight, rest);
      assert forall k :: 1 <= k < |tr| ==> tr[k] == rest[k - 1];
      var h := LastMax(m0, tr);
      if h != m0 && h != tr[0].maxHeight {
        var k :| 0 <= k < |rest| && !rest[k].polymorphic && |rest[k].stack| == h;
        assert tr[k + 1] == rest[k];
      }
    }
  }

  /**
   * The recorded `operand_stack_max` of an accepted body is the largest
   * height of a non-polymorphic state along the run (0 if there is none),
   * and it bounds every such height.
   */
  lemma MaxHeight(m: ModuleInfo, f: Func)
    ensures Validate(m, f).Valid? ==>
      var h := Validate(m, f).operandStackMax;
      var tr := Trace(m, f, 0, Initial(f));
      (forall k :: 0 <= k < |tr| && !tr[k].polymorphic ==> |tr[k].stack| <= h)
      && (h == 0 || exists k :: 0 <= k < |tr| && !tr[k].polymorphic && |tr[k].stack| == h)
  {
    RunRecordsChain(m, f, 0, Initial(f));
    ChainMax(0, Trace(m, f, 0, Initial(f)));
  }

  /**
   * `unreachable`, `br`, `br_table` and `return` leave the stack
   * polymorphic and no higher than the current frame's base.
   */
  lemma StackPolymorphicAfterJump(m: ModuleInfo, f: Func, s: State, ins: Instr)
    requires |s.frames| > 0
    requires ins.Unreachable? || ins.Br? || ins.BrTable? || ins.Return?
    ensures Step(m, f, s, ins).Continue? ==>
      Step(m, f, s, ins).next.polymorphic && |Step(m, f, s, ins).next.stack| <= TopBase(s)
      && Step(m, f, s, ins).next.frames == s.frames
  {
  }

  /** `block`, `loop` and `if` open a frame based at the height left after their operands. */
  lemma BlockOpensFrame(m: ModuleInfo, f: Func, s: State, ins: Instr)
    requires |s.frames| > 0
    requires ins.Block? || ins.Loop? || ins.If?
    ensures Step(m, f, s, ins).Continue? ==>
      var t := Step(m, f, s, ins).next;
      |t.frames| == |s.frames| + 1 && t.frames[..|s.frames|] == s.frames
      && Last(t.frames).base == |t.stack| && Last(t.frames).result == BlockResult(ins.bt).value
      && Last(t.frames).polymorphicBase == s.polymorphic
  {
  }

  /** Leaving a block: on a non-polymorphic stack, exactly the results sit above the base afterwards. */
  lemma EndLeavesResults(m: ModuleInfo, f: Func, s: State)
    requires |s.frames| > 0 && !s.polymorphic && |s.stack| >= Last(s.frames).base
    ensures Step(m, f, s, End).Continue? ==>
      var fr := Last(s.frames);
      var t := Step(m, f, s, End).next;
      s.stack == s.stack[..fr.base] + fr.result && t.stack == s.stack
  {
    var fr := Last(s.frames);
    if Step(m, f, s, End).Continue? {
      assert |s.stack| - fr.base == |fr.result|;
      if |fr.result| != 0 {
        assert s.stack[|s.stack| - |fr.result|..] == fr.result;
      }
      assert s.stack == s.stack[..fr.base] + s.stack[fr.base..];
    }
  }

  // ---------------------------------------------------------------------
  // Finding: a branch to a loop carries the loop's results

  /**
   * `loop (result i32) ... (i32.const) br_if 0 ...`: the condition is the
   * only value, which suffices for a branch to the loop's start but not for
   * the as-written check, which also demands an i32 result value.
   */
  lemma BrIfToLoopAsWrittenUnderflows()
    ensures
      var s := State([I32], [Frame([], 0, FunctionBlock, false, false), Frame([I32], 0, LoopBlock, false, false)], false, 1);
      StepBrIfAsWritten(s, 0) == Fail(OperandStackUnderflow)
      && StepBrIf(s, 0) == Continue(s.(stack := []))
  {
  }

  /**
   * `loop (result i32) ... br 0 ...` on an empty stack: the branch to the
   * loop's start carries nothing, but the as-written check wants an i32.
   */
  lemma BrToLoopAsWrittenUnderflows()
    ensures
      var s := State([], [Frame([], 0, FunctionBlock, false, false), Frame([I32], 0, LoopBlock, false, false)], false, 0);
      StepBrAsWritten(s, 0) == Fail(OperandStackUnderflow)
      && StepBr(s, 0) == Continue(s.(polymorphic := true))
  {
  }

  /**
   * `block (result i32) loop (result i32) ... br_table 0 1 ...`: as written
   * both targets carry one i32 and have the same signature; under the
   * loop rule the loop carries nothing, and the table is rejected.
   */
  lemma BrTableOverLoopAndBlock()
    ensures
      var s := State([I32, I32],
        [Frame([], 0, FunctionBlock, false, false), Frame([I32], 0, PlainBlock, false, false),
         Frame([I32], 0, LoopBlock, false, false)], false, 2);
      SameSig(LabelTypesAsWritten(LabelFrame(s, 0)), LabelTypesAsWritten(LabelFrame(s, 1)))
      && StepBrTable(s, [0], 1) == Fail(BrTableTargetTypeMismatch)
  {
  }

  /** The two label rules differ only on loops. */
  lemma LabelRulesAgreeOffLoops(fr: Frame)
    ensures fr.kind != LoopBlock ==> LabelTypes(fr) == LabelTypesAsWritten(fr)
    ensures fr.kind == LoopBlock && fr.result != [] ==> LabelTypes(fr) != LabelTypesAsWritten(fr)
  {
  }

  // ---------------------------------------------------------------------
  // Every local function of a module

  /** The outcome for a whole module: one operand-stack maximum per function, or the first failure. */
  datatype Compiled = Compiled(stackMax: seq<nat>) | Rejected(index: nat, err: Error)

  /** Validate every local function in order; stop at the first that fails. */
  method CompileAll(m: ModuleInfo, funcs: seq<Func>) returns (r: Compiled)
    ensures r.Compiled? ==>
      |r.stackMax| == |funcs| && forall k :: 0 <= k < |funcs| ==> Validate(m, funcs[k]) == Valid(r.stackMax[k])
    ensures r.Rejected? ==>
      r.index < |funcs| && Validate(m, funcs[r.index]) == Invalid(r.err)
      && forall k :: 0 <= k < r.index ==> Validate(m, funcs[k]).Valid?
  {
    var maxes: seq<nat> := [];
    var k: nat := 0;
    while k < |funcs|
      invariant k <= |funcs| && |maxes| == k
      invariant forall j :: 0 <= j < k ==> Validate(m, funcs[j]) == Valid(maxes[j])
    {
      var v := ValidateFunction(m, funcs[k]);
      if v.Invalid? {
        return Rejected(k, v.error);
      }
      maxes := maxes + [v.operandStackMax];
      k := k + 1;
    }
    return Compiled(maxes);
  }

  /** As written: the function frame's `end` returns from the whole pass, after the first function. */
  function CompileAllAsWritten(m: ModuleInfo, funcs: seq<Func>): (r: Compiled)
    ensures |funcs| > 0 && r.Compiled? ==> |r.stackMax| == 1
  {
    if funcs == [] then Compiled([])
    else match Validate(m, funcs[0])
      case Valid(h) => Compiled([h])
      case Invalid(e) => Rejected(0, e)
  }

  /**
   * A module whose second function body is a lone `nop` with no `end`: the
   * as-written pass accepts the module with one compiled function, although
   * the second body is invalid and the runtime expects one result per
   * function.
   */
  lemma CompileAllAsWrittenSkipsLaterFunctions()
    ensures
      var m := ModuleInfo([], [], 0, 0, []);
      var ok := Func(FuncType([], []), [], [End]);
      var bad := Func(FuncType([], []), [], [Nop]);
      CompileAllAsWritten(m, [ok, bad]) == Compiled([0])
      && Validate(m, bad) == Invalid(MissingEnd)
  {
    var m := ModuleInfo([], [], 0, 0, []);
    var ok := Func(FuncType([], []), [], [End]);
    var bad := Func(FuncType([], []), [], [Nop]);
    assert Validate(m, ok) == Valid(0);
    assert Run(m, bad, 1, Record(Initial(bad))) == Invalid(MissingEnd);
  }
}
