/**
 * WebAssembly value types as the interpreter stores them: a one-byte type
 * code in modules and signatures, and a fixed byte width on the operand
 * stack, in ring slots and in globals.
 */
module WasmTypes {
  import opened Arith

  datatype ValType = I32 | I64 | F32 | F64 | V128

  /** `sizeof` of the interpreter's representation of each type. */
  function Size(t: ValType): nat
  {
    match t
    case I32 => 4
    case I64 => 8
    case F32 => 4
    case F64 => 8
    case V128 => 16
  }

  /** The binary-format type code (section 5.3.1 of the WebAssembly Core Specification 1.0, plus v128). */
  function Code(t: ValType): byte
  {
    match t
    case I32 => 0x7F
    case I64 => 0x7E
    case F32 => 0x7D
    case F64 => 0x7C
    case V128 => 0x7B
  }

  /** The value type a code byte denotes, if any. */
  function CodeType(c: byte): Option<ValType>
  {
    if c == 0x7F then Some(I32)
    else if c == 0x7E then Some(I64)
    else if c == 0x7D then Some(F32)
    else if c == 0x7C then Some(F64)
    else if c == 0x7B then Some(V128)
    else None
  }

  /** Codes and types correspond one to one. */
  lemma CodeRoundTrip(t: ValType, c: byte)
    ensures CodeType(Code(t)) == Some(t)
    ensures CodeType(c).Some? ==> Code(CodeType(c).value) == c
  {
  }
}
