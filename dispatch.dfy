/**
 * Helpers of the runtime's call path: the byte widths of value types and
 * signatures, signature equality, the address-range table that maps a
 * function record back to its module and local index, the walk along
 * import aliases, the stack of call frames, the stack accounting of a
 * call into a compiled local function, and the traps of `call_indirect`.
 */
module RuntimeDispatch {
  import opened Arith
  import opened WasmTypes
  import LeBytes

  // ---------------------------------------------------------------------
  // Value-type widths

  /** `valtype_size`: the ABI width of a type code, and 0 for a byte that is no value type. */
  function ValtypeSize(code: byte): (r: nat)
    ensures CodeType(code).Some? ==> r == Size(CodeType(code).value)
    ensures CodeType(code).None? ==> r == 0
  {
    if code == 0x7F then 4
    else if code == 0x7E then 8
    else if code == 0x7D then 4
    else if code == 0x7C then 8
    else if code == 0x7B then 16
    else 0
  }

  /** Every byte of `v` is a value-type code. */
  predicate Known(v: seq<byte>)
  {
    forall i :: 0 <= i < |v| ==> CodeType(v[i]).Some?
  }

  /** The widths of `v` added up. */
  function SumSizes(v: seq<byte>): nat
  {
    if |v| == 0 then 0 else SumSizes(v[..|v| - 1]) + ValtypeSize(v[|v| - 1])
  }

  /** `total_abi_bytes`: the summed widths, or 0 as soon as one code is unknown. */
  method TotalAbiBytes(v: seq<byte>) returns (total: nat)
    ensures Known(v) ==> total == SumSizes(v)
    ensures !Known(v) ==> total == 0
  {
    total := 0;
    for i := 0 to |v|
      invariant Known(v[..i]) && total == SumSizes(v[..i])
    {
      var sz := ValtypeSize(v[i]);
      if sz == 0 {
        return 0;
      }
      assert v[..i + 1][..i] == v[..i];
      total := total + sz;
    }
    assert v[..|v|] == v;
  }

  /** The widths of two lists add up. */
  lemma {:induction false} SumSizesAppend(a: seq<byte>, b: seq<byte>)
    ensures SumSizes(a + b) == SumSizes(a) + SumSizes(b)
    decreases |b|
  {
    if |b| == 0 {
      assert a + b == a;
    } else {
      assert (a + b)[..|a + b| - 1] == a + b[..|b| - 1];
      SumSizesAppend(a, b[..|b| - 1]);
    }
  }

  /** A known list takes between 4 and 16 bytes per value, so it is empty exactly when its width is 0. */
  lemma {:induction false} SumSizesBounds(v: seq<byte>)
    requires Known(v)
    ensures 4 * |v| <= SumSizes(v) <= 16 * |v|
  {
    if |v| > 0 {
      assert Known(v[..|v| - 1]);
      SumSizesBounds(v[..|v| - 1]);
      assert CodeType(v[|v| - 1]).Some?;
    }
  }

  // ---------------------------------------------------------------------
  // Signatures

  /** A function signature as the list of parameter and of result type codes. */
  datatype Sig = Sig(params: seq<byte>, results: seq<byte>)

  /** `func_sig_equal`: same lengths, then the codes element by element. */
  method FuncSigEqual(a: Sig, b: Sig) returns (eq: bool)
    ensures eq <==> a == b
  {
    if |a.params| != |b.params| || |a.results| != |b.results| {
      return false;
    }
    for i := 0 to |a.params|
      invariant a.params[..i] == b.params[..i]
    {
      if a.params[i] != b.params[i] {
        return false;
      }
      assert a.params[..i + 1] == a.params[..i] + [a.params[i]];
      assert b.params[..i + 1] == b.params[..i] + [b.params[i]];
    }
    for i := 0 to |a.results|
      invariant a.results[..i] == b.results[..i]
    {
      if a.results[i] != b.results[i] {
        return false;
      }
      assert a.results[..i + 1] == a.results[..i] + [a.results[i]];
      assert b.results[..i + 1] == b.results[..i] + [b.results[i]];
    }
    assert a.params == a.params[..|a.params|] && b.params == b.params[..|b.params|];
    assert a.results == a.results[..|a.results|] && b.results == b.results[..|b.results|];
    return true;
  }

  // ---------------------------------------------------------------------
  // From a function record's address back to its module

  /** The local functions of module `moduleId` sit at the addresses `[begin, end)`. */
  datatype Range = Range(begin: nat, end: nat, moduleId: nat)

  predicate SortedRanges(rs: seq<Range>)
  {
    forall i, j :: 0 <= i < j < |rs| ==> rs[i].begin <= rs[j].begin
  }

  /** Ranges in address order that do not overlap. */
  predicate Disjoint(rs: seq<Range>)
  {
    forall i, j :: 0 <= i < j < |rs| ==> rs[i].end <= rs[j].begin
  }

  /** `std::upper_bound` on the start addresses: the first range that starts above `addr`. */
  method UpperBound(rs: seq<Range>, addr: nat) returns (k: nat)
    requires SortedRanges(rs)
    ensures k <= |rs|
    ensures forall i :: 0 <= i < k ==> rs[i].begin <= addr
    ensures forall i :: k <= i < |rs| ==> addr < rs[i].begin
  {
    var lo: nat, hi: nat := 0, |rs|;
    while lo < hi
      invariant lo <= hi <= |rs|
      invariant forall i :: 0 <= i < lo ==> rs[i].begin <= addr
      invariant forall i :: hi <= i < |rs| ==> addr < rs[i].begin
    {
      var mid := lo + (hi - lo) / 2;
      if addr < rs[mid].begin {
        hi := mid;
      } else {
        lo := mid + 1;
      }
    }
    return lo;
  }

  /**
   * Address `addr` is local function `h.1` of module `h.0` by range `r`:
   * it lies in the range at a whole number of records from its start, and
   * the module's cache holds that address at that index.
   */
  predicate Hit(r: Range, cache: seq<seq<nat>>, elemSize: nat, addr: nat, h: (nat, nat))
    requires elemSize > 0
  {
    r.begin <= addr < r.end && (addr - r.begin) % elemSize == 0
    && h == (r.moduleId, (addr - r.begin) / elemSize)
    && h.0 < |cache| && h.1 < |cache[h.0]| && cache[h.0][h.1] == addr
  }

  /**
   * `find_defined_func_info`: the module and local index of the function
   * record at `addr` (0 is the null record), looked up in the last range
   * starting at or below `addr` and checked against the cache.
   */
  method FindDefinedFunc(rs: seq<Range>, cache: seq<seq<nat>>, elemSize: nat, addr: nat) returns (r: Option<(nat, nat)>)
    requires SortedRanges(rs) && elemSize > 0
    ensures r.Some? ==> addr != 0 && exists k :: 0 <= k < |rs| && Hit(rs[k], cache, elemSize, addr, r.value)
    ensures addr != 0 && Disjoint(rs) && (exists k, h :: 0 <= k < |rs| && Hit(rs[k], cache, elemSize, addr, h)) ==> r.Some?
  {
    if addr == 0 || |rs| == 0 {
      return None;
    }
    var k := UpperBound(rs, addr);
    if k == 0 {
      return None;
    }
    var rg := rs[k - 1];
    if addr < rg.begin || addr >= rg.end {
      return None;
    }
    var off := addr - rg.begin;
    if off % elemSize != 0 {
      return None;
    }
    var local := off / elemSize;
    if rg.moduleId >= |cache| || local >= |cache[rg.moduleId]| {
      return None;
    }
    if cache[rg.moduleId][local] != addr {
      return None;
    }
    assert Hit(rs[k - 1], cache, elemSize, addr, (rg.moduleId, local));
    return Some((rg.moduleId, local));
  }

  // ---------------------------------------------------------------------
  // Import aliases

  /**
   * How an imported function is linked: to another module's import slot,
   * or to a leaf (a module-defined function, a local-imported module, a
   * dynamic library or a weak symbol), or not at all.
   */
  datatype FuncLink = Imported(target: nat) | Defined | LocalImported | Dl | WeakSymbol | Unresolved

  /** The largest step count the walk still follows. */
  const StepBound: nat := 8192

  /**
   * The leaf reached from slot `at` in at most `fuel` slot visits; a
   * target outside `links` stands for a null pointer.
   */
  function Leaf(links: seq<FuncLink>, at: nat, fuel: nat): (r: Option<nat>)
    ensures r.Some? ==> r.value < |links| && !links[r.value].Imported? && !links[r.value].Unresolved?
    decreases fuel
  {
    if fuel == 0 || at >= |links| then None
    else
      match links[at]
      case Imported(t) => Leaf(links, t, fuel - 1)
      case Unresolved => None
      case _ => Some(at)
  }

  /** `resolve_import_leaf_assuming_initialized`: follow aliases for at most 8193 slots. */
  method ResolveImportLeaf(links: seq<FuncLink>, start: nat) returns (r: Option<nat>)
    ensures r == Leaf(links, start, StepBound + 1)
  {
    var curr: nat := start;
    var steps: nat := 0;
    while true
      invariant steps <= StepBound + 1
      invariant Leaf(links, start, StepBound + 1) == Leaf(links, curr, StepBound + 1 - steps)
      decreases StepBound + 1 - steps
    {
      if steps > StepBound {
        return None;
      }
      if curr >= |links| {
        return None;
      }
      match links[curr] {
        case Imported(t) =>
          curr := t;
        case Unresolved =>
          return None;
        case _ =>
          return Some(curr);
      }
      steps := steps + 1;
    }
  }

  /** More fuel does not change a leaf that was found. */
  lemma {:induction false} LeafMonotone(links: seq<FuncLink>, at: nat, n: nat, m: nat)
    requires Leaf(links, at, n).Some? && n <= m
    ensures Leaf(links, at, m) == Leaf(links, at, n)
    decreases n
  {
    if links[at].Imported? {
      LeafMonotone(links, links[at].target, n - 1, m - 1);
    }
  }

  /** A slot that aliases itself never resolves, however long the walk. */
  lemma {:induction false} SelfAliasUnresolved(links: seq<FuncLink>, at: nat, n: nat)
    requires at < |links| && links[at] == Imported(at)
    ensures Leaf(links, at, n) == None
    decreases n
  {
    if n > 0 {
      SelfAliasUnresolved(links, at, n - 1);
    }
  }

  /** A leaf slot resolves to itself. */
  lemma LeafOfLeaf(links: seq<FuncLink>, at: nat, n: nat)
    requires at < |links| && n > 0 && !links[at].Imported? && !links[at].Unresolved?
    ensures Leaf(links, at, n) == Some(at)
  {
  }

  // ---------------------------------------------------------------------
  // The call stack

  datatype CallFrame = CallFrame(moduleId: nat, functionIndex: nat)

  function Pushed(frames: seq<CallFrame>, f: CallFrame): (r: seq<CallFrame>)
    ensures |r| == |frames| + 1 && r[|frames|] == f && r[..|frames|] == frames
  {
    frames + [f]
  }

  /** Dropping the top frame; an empty stack stays empty. */
  function Popped(frames: seq<CallFrame>): (r: seq<CallFrame>)
    ensures |frames| > 0 ==> |r| == |frames| - 1 && frames == r + [frames[|frames| - 1]]
    ensures |frames| == 0 ==> r == []
  {
    if |frames| == 0 then [] else frames[..|frames| - 1]
  }

  /** Popping undoes pushing. */
  lemma PushPop(frames: seq<CallFrame>, f: CallFrame)
    ensures Popped(Pushed(frames, f)) == frames
  {
  }

  /** `g_call_stack` with `call_stack_guard`: push on entry, pop on exit. */
  class CallStack {
    var frames: seq<CallFrame>

    constructor()
      ensures frames == []
    {
      frames := [];
    }

    /** The guard's constructor. */
    method Enter(moduleId: nat, functionIndex: nat)
      modifies this
      ensures frames == Pushed(old(frames), CallFrame(moduleId, functionIndex))
    {
      frames := frames + [CallFrame(moduleId, functionIndex)];
    }

    /** The guard's destructor: pop unless the stack is already empty. */
    method Leave()
      modifies this
      ensures frames == Popped(old(frames))
    {
      if |frames| > 0 {
        frames := frames[..|frames| - 1];
      }
    }

    /** A guarded call: the callee's frame is on top while it runs, and the depth is balanced afterwards. */
    method Guarded(moduleId: nat, functionIndex: nat) returns (during: seq<CallFrame>)
      modifies this
      ensures during == old(frames) + [CallFrame(moduleId, functionIndex)]
      ensures frames == old(frames)
    {
      Enter(moduleId, functionIndex);
      during := frames;
      Leave();
      PushPop(old(frames), CallFrame(moduleId, functionIndex));
    }
  }

  // ---------------------------------------------------------------------
  // Calling a compiled local function

  datatype CallError = LocalsTooSmall | StackTooSmall | ResultSizeMismatch

  datatype CallResult = Returned(newTop: nat) | Terminated(reason: CallError)

  function Zeros(n: nat): (r: seq<byte>)
    ensures |r| == n && forall i :: 0 <= i < n ==> r[i] == 0
  {
    if n == 0 then [] else Zeros(n - 1) + [0]
  }

  /**
   * The locals buffer a call starts with: the arguments, then zeros up to
   * `localBytesMax`.
   */
  function Locals(args: seq<byte>, localBytesMax: nat): (r: seq<byte>)
    requires |args| <= localBytesMax
    ensures |r| == localBytesMax && r[..|args|] == args
    ensures forall i :: |args| <= i < localBytesMax ==> r[i] == 0
  {
    args + Zeros(localBytesMax - |args|)
  }

  /**
   * `execute_compiled_defined`: take the `paramBytes` argument bytes off
   * the caller's stack into the zeroed locals, run the body (`callee`
   * gives the bytes its operand stack ends with), check that exactly
   * `resultBytes` bytes came back and append them where the arguments were.
   */
  method ExecuteDefined(stack: array<byte>, top: nat, paramBytes: nat, resultBytes: nat,
                        localBytesMax: nat, stackCap: nat, callee: seq<byte> -> seq<byte>)
    returns (r: CallResult)
    requires paramBytes <= top <= stack.Length && top - paramBytes + resultBytes <= stack.Length
    modifies stack
    ensures paramBytes > localBytesMax ==> r == Terminated(LocalsTooSmall)
    ensures paramBytes <= localBytesMax && stackCap < resultBytes ==> r == Terminated(StackTooSmall)
    ensures paramBytes <= localBytesMax && stackCap >= resultBytes ==>
      var out := callee(Locals(old(stack[top - paramBytes..top]), localBytesMax));
      (|out| != resultBytes ==> r == Terminated(ResultSizeMismatch))
      && (|out| == resultBytes ==>
            r == Returned(top - paramBytes + resultBytes)
            && forall i :: 0 <= i < stack.Length ==>
                 stack[i] == if top - paramBytes <= i < top - paramBytes + resultBytes then out[i - (top - paramBytes)] else old(stack[i]))
    ensures r.Terminated? ==> stack[..] == old(stack[..])
  {
    var argsBegin := top - paramBytes;
    if paramBytes > localBytesMax {
      return Terminated(LocalsTooSmall);
    }
    var locals := Locals(stack[argsBegin..top], localBytesMax);
    if stackCap < resultBytes {
      return Terminated(StackTooSmall);
    }
    var out := callee(locals);
    if |out| != resultBytes {
      return Terminated(ResultSizeMismatch);
    }
    for j := 0 to resultBytes
      invariant forall i :: 0 <= i < stack.Length ==>
        stack[i] == if argsBegin <= i < argsBegin + j then out[i - argsBegin] else old(stack[i])
    {
      stack[argsBegin + j] := out[j];
    }
    return Returned(argsBegin + resultBytes);
  }

  // ---------------------------------------------------------------------
  // call_indirect

  /** A table element: null, or a function with its signature and identity. */
  datatype TableElem = NullElem | FuncElem(sig: Sig, func: nat)

  datatype IndirectTrap = TableOutOfBounds | NullElement | TypeMismatch

  datatype IndirectResult = Call(func: nat, newTop: nat) | Trapped(trap: IndirectTrap)

  /**
   * The checks of `call_indirect_bridge`: pop the i32 selector, read as
   * unsigned; trap when it is past the table, on a null element, or when
   * the element's signature is not the expected one.
   */
  method CallIndirect(stack: array<byte>, top: nat, table: seq<TableElem>, expected: Sig) returns (r: IndirectResult)
    requires 4 <= top <= stack.Length
    ensures
      var sel := LeBytes.Decode(stack[top - 4..top]);
      (sel >= |table| ==> r == Trapped(TableOutOfBounds))
      && (sel < |table| && table[sel].NullElem? ==> r == Trapped(NullElement))
      && (sel < |table| && table[sel].FuncElem? && table[sel].sig != expected ==> r == Trapped(TypeMismatch))
      && (sel < |table| && table[sel].FuncElem? && table[sel].sig == expected ==> r == Call(table[sel].func, top - 4))
  {
    var sp := top - 4;
    var sel := LeBytes.Decode(stack[sp..top]);
    if sel >= |table| {
      return Trapped(TableOutOfBounds);
    }
    match table[sel] {
      case NullElem =>
        return Trapped(NullElement);
      case FuncElem(sig, func) =>
        var same := FuncSigEqual(expected, sig);
        if !same {
          return Trapped(TypeMismatch);
        }
        return Call(func, sp);
    }
  }
}
