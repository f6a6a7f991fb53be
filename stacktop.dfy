/**
 * The compile-time bookkeeping of the stack-top cache: one slot range per
 * value type, the per-type cursor (`currpos`) and count of cached values
 * still available (`remain`), the layout rules a translation option must
 * satisfy, and how popping a value of one type moves the cursor of every
 * type whose range is merged with it.
 */
module StackTop {
  import opened Arith
  import opened WasmTypes
  import opened Interp

  /** One field per value type, as in `uwvm_interpreter_stacktop_currpos_t` and `..._remain_size_t`. */
  datatype PerType<T> = PerType(i32: T, i64: T, f32: T, f64: T, v128: T)
  {
    function At(t: ValType): T
    {
      match t
      case I32 => i32
      case I64 => i64
      case F32 => f32
      case F64 => f64
      case V128 => v128
    }

    function With(t: ValType, v: T): (p: PerType<T>)
      ensures p.At(t) == v
      ensures forall u :: u != t ==> p.At(u) == At(u)
    {
      match t
      case I32 => this.(i32 := v)
      case I64 => this.(i64 := v)
      case F32 => this.(f32 := v)
      case F64 => this.(f64 := v)
      case V128 => this.(v128 := v)
    }
  }

  /** A slot range `[begin, end)` of `typeref` positions; `begin == end` disables it. */
  datatype Range = Range(begin: nat, end: nat)

  predicate Enabled(r: Range)
  {
    r.begin != r.end
  }

  predicate InRange(pos: nat, r: Range)
  {
    Enabled(r) && r.begin <= pos < r.end
  }

  predicate Disjoint(a: Range, b: Range)
  {
    a.end <= b.begin || b.end <= a.begin
  }

  /** `size_t` successor and predecessor, wrapping at `SIZE_MAX`. */
  function Succ(p: nat): nat
  {
    if p >= SizeMax then 0 else p + 1
  }

  function Pred(p: nat): nat
  {
    if p == 0 then SizeMax else p - 1
  }

  /** `uwvm_interpreter_stacktop_range_size`: `end - begin` (in `size_t`) when enabled, else 0. */
  function RangeSize(r: Range): (n: nat)
    ensures r.begin < r.end ==> n == r.end - r.begin
    ensures !Enabled(r) ==> n == 0
  {
    if !Enabled(r) then 0
    else if r.begin <= r.end then r.end - r.begin
    else (r.end + SizeMax + 1 - r.begin) % (SizeMax + 1)
  }

  /**
   * `ring_next_pos` / `uwvm_interpreter_stacktop_next_pos`: one slot deeper
   * in the ring, wrapping `end - 1` to `begin`.
   */
  function Next(pos: nat, r: Range): nat
  {
    if Succ(pos) == r.end then r.begin else Succ(pos)
  }

  /** `ring_prev_pos`: one slot towards the top, wrapping `begin` to `end - 1`. */
  function Prev(pos: nat, r: Range): nat
  {
    if pos == r.begin then Pred(r.end) else Pred(pos)
  }

  // ---------------------------------------------------------------------
  // Layout rules (`check_uwvm_interpreter_stacktop_layout`)
  // ---------------------------------------------------------------------

  /** Two types share one enabled range. */
  predicate Merged(opt: PerType<Range>, a: ValType, b: ValType)
  {
    Enabled(opt.At(a)) && Enabled(opt.At(b)) && opt.At(a) == opt.At(b)
  }

  predicate FourWay(opt: PerType<Range>)
  {
    Merged(opt, I32, I64) && Merged(opt, I32, F32) && Merged(opt, I32, F64)
  }

  /**
   * The conditions on one range and its cursor, with `argc` the number of
   * `typeref` arguments (a `size_t` other than `SIZE_MAX` is below it).
   */
  predicate RangeOk(r: Range, cur: nat, argc: nat)
  {
    if Enabled(r) then
      r.begin < SizeMax && r.end < SizeMax && r.begin >= 3 && r.begin < r.end
      && argc >= r.end && r.begin <= cur < r.end
    else
      cur == SizeMax
  }

  /** The conditions that involve only the ranges. */
  predicate RangesValid(opt: PerType<Range>)
  {
    && (Merged(opt, I32, F64) ==> FourWay(opt))
    && (Merged(opt, I64, F32) ==> FourWay(opt))
    && (Merged(opt, I64, F64) ==> FourWay(opt))
    && !Merged(opt, V128, I32)
    && !Merged(opt, V128, I64)
    && (Merged(opt, F32, V128) ==> Merged(opt, F32, F64) && Merged(opt, F64, V128))
    && (Merged(opt, F64, V128) ==> Merged(opt, F32, F64) && Merged(opt, F32, V128))
    && (forall a: ValType, b: ValType ::
          Enabled(opt.At(a)) && Enabled(opt.At(b)) && opt.At(a) != opt.At(b) ==> Disjoint(opt.At(a), opt.At(b)))
  }

  /** `check_uwvm_interpreter_stacktop_layout`. */
  predicate LayoutValid(opt: PerType<Range>, cur: PerType<nat>, argc: nat)
  {
    && (forall t: ValType :: RangeOk(opt.At(t), cur.At(t), argc))
    && RangesValid(opt)
    && (Merged(opt, I32, I64) ==> cur.i32 == cur.i64)
    && (Merged(opt, I32, F32) ==> cur.i32 == cur.f32)
    && (FourWay(opt) ==> cur.i32 == cur.i64 == cur.f32 == cur.f64)
    && (Merged(opt, F32, F64) ==> cur.f32 == cur.f64)
    && (Merged(opt, F32, V128) ==> cur.f32 == cur.v128)
    && (Merged(opt, F64, V128) ==> cur.f64 == cur.v128)
  }

  /** Under a valid layout any two enabled ranges are identical or disjoint, and merged types share a cursor. */
  lemma LayoutConsequences(opt: PerType<Range>, cur: PerType<nat>, argc: nat, a: ValType, b: ValType)
    requires LayoutValid(opt, cur, argc)
    ensures Enabled(opt.At(a)) && Enabled(opt.At(b)) ==> opt.At(a) == opt.At(b) || Disjoint(opt.At(a), opt.At(b))
    ensures Merged(opt, a, b) ==> cur.At(a) == cur.At(b)
    ensures Enabled(opt.At(a)) ==> InRange(cur.At(a), opt.At(a)) && opt.At(a).end <= argc
    ensures !Enabled(opt.At(a)) ==> cur.At(a) == SizeMax
  {
    assert RangeOk(opt.At(a), cur.At(a), argc);
  }

  // ---------------------------------------------------------------------
  // The cache state and popping
  // ---------------------------------------------------------------------

  /** `uwvm_interpreter_stacktop_state_t`. */
  datatype State = State(currpos: PerType<nat>, remain: PerType<nat>)
  {
    function Set(t: ValType, pos: nat, rem: nat): State
    {
      State(currpos.With(t, pos), remain.With(t, rem))
    }
  }

  /** `make_uwvm_interpreter_stacktop_initial_state`. */
  function InitialState(opt: PerType<Range>, cur: PerType<nat>): (s: State)
    ensures s.currpos == cur
    ensures forall t: ValType :: s.remain.At(t) == RangeSize(opt.At(t))
  {
    State(cur, PerType(RangeSize(opt.i32), RangeSize(opt.i64), RangeSize(opt.f32), RangeSize(opt.f64), RangeSize(opt.v128)))
  }

  /** `uwvm_interpreter_can_get_val_from_stacktop_cache`. */
  predicate CanUse(opt: PerType<Range>, st: State, t: ValType)
  {
    Enabled(opt.At(t)) && st.remain.At(t) != 0
  }

  /**
   * The chain of merge cases of `pop_uwvm_interpreter_stacktop_state`, in
   * the source's order: the set of types whose cursor and count a pop of
   * `t` writes.
   */
  function PopGroup(opt: PerType<Range>, t: ValType): (g: PerType<bool>)
    ensures g.At(t)
  {
    var i32i64 := opt.i32 == opt.i64;
    var i32f32 := opt.i32 == opt.f32;
    var i32f64 := opt.i32 == opt.f64;
    var f32f64 := opt.f32 == opt.f64;
    var f32v128 := opt.f32 == opt.v128;
    var f64v128 := opt.f64 == opt.v128;
    var fourWay := i32i64 && i32f32 && i32f64;
    var threeWay := f32f64 && f32v128 && f64v128;
    match t
    case I32 =>
      if fourWay then PerType(true, true, true, true, false)
      else if i32i64 then PerType(true, true, false, false, false)
      else if i32f32 then PerType(true, false, true, false, false)
      else PerType(true, false, false, false, false)
    case I64 =>
      if fourWay then PerType(true, true, true, true, false)
      else if i32i64 then PerType(true, true, false, false, false)
      else PerType(false, true, false, false, false)
    case F32 =>
      if threeWay then PerType(false, false, true, true, true)
      else if fourWay then PerType(true, true, true, true, false)
      else if f32f64 then PerType(false, false, true, true, false)
      else if i32f32 then PerType(true, false, true, false, false)
      else PerType(false, false, true, false, false)
    case F64 =>
      if threeWay then PerType(false, false, true, true, true)
      else if fourWay then PerType(true, true, true, true, false)
      else if f32f64 then PerType(false, false, true, true, false)
      else PerType(false, false, false, true, false)
    case V128 =>
      if threeWay then PerType(false, false, true, true, true)
      else PerType(false, false, false, false, true)
  }

  /** The fields of `p` selected by `g` replaced by `v`. */
  function Pick<T>(g: PerType<bool>, v: T, p: PerType<T>): (q: PerType<T>)
    ensures forall u: ValType :: q.At(u) == if g.At(u) then v else p.At(u)
  {
    PerType(if g.i32 then v else p.i32, if g.i64 then v else p.i64, if g.f32 then v else p.f32,
            if g.f64 then v else p.f64, if g.v128 then v else p.v128)
  }

  /**
   * `pop_uwvm_interpreter_stacktop_state`: when `t` can use the cache, its
   * cursor moves one slot deeper and its count drops by one, and the same
   * values are written to the types its merge case lists.
   */
  function PopState(opt: PerType<Range>, st: State, t: ValType): (s: State)
    ensures !CanUse(opt, st, t) ==> s == st
    ensures CanUse(opt, st, t) ==>
      s.remain.At(t) == st.remain.At(t) - 1 && s.currpos.At(t) == Next(st.currpos.At(t), opt.At(t))
    ensures forall u: ValType :: opt.At(u) != opt.At(t) ==>
      s.remain.At(u) == st.remain.At(u) && s.currpos.At(u) == st.currpos.At(u)
  {
    if !CanUse(opt, st, t) then st
    else
      var g := PopGroup(opt, t);
      assert forall u: ValType :: g.At(u) ==> opt.At(u) == opt.At(t);
      State(Pick(g, Next(st.currpos.At(t), opt.At(t)), st.currpos), Pick(g, st.remain.At(t) - 1, st.remain))
  }

  /** Under valid ranges, popping `t` updates exactly the types whose range is `t`'s. */
  lemma PopMovesMergedGroup(opt: PerType<Range>, st: State, t: ValType, u: ValType)
    requires RangesValid(opt) && CanUse(opt, st, t)
    ensures var s := PopState(opt, st, t);
      if opt.At(u) == opt.At(t) then
        s.remain.At(u) == st.remain.At(t) - 1 && s.currpos.At(u) == Next(st.currpos.At(t), opt.At(t))
      else
        s.remain.At(u) == st.remain.At(u) && s.currpos.At(u) == st.currpos.At(u)
  {
    assert Merged(opt, t, u) <==> opt.At(u) == opt.At(t);
  }

  /** In-range positions stay in range under `Next` and `Prev`, and the two undo each other. */
  lemma NextPrevInverse(pos: nat, r: Range)
    requires r.begin < r.end <= SizeMax && InRange(pos, r)
    ensures InRange(Next(pos, r), r) && InRange(Prev(pos, r), r)
    ensures Prev(Next(pos, r), r) == pos
    ensures Next(Prev(pos, r), r) == pos
  {
  }

  /** The state the cache bookkeeping keeps: merged types agree, cursors lie in their range. */
  predicate Consistent(opt: PerType<Range>, st: State)
  {
    && (forall a: ValType, b: ValType :: Merged(opt, a, b) ==>
          st.currpos.At(a) == st.currpos.At(b) && st.remain.At(a) == st.remain.At(b))
    && (forall a: ValType :: Enabled(opt.At(a)) ==>
          InRange(st.currpos.At(a), opt.At(a)) && opt.At(a).end <= SizeMax && st.remain.At(a) <= RangeSize(opt.At(a)))
  }

  /** A valid layout starts consistent. */
  lemma InitialStateConsistent(opt: PerType<Range>, cur: PerType<nat>, argc: nat)
    requires LayoutValid(opt, cur, argc)
    ensures Consistent(opt, InitialState(opt, cur))
  {
    forall a: ValType, b: ValType
      ensures Merged(opt, a, b) ==> cur.At(a) == cur.At(b)
      ensures Enabled(opt.At(a)) ==> InRange(cur.At(a), opt.At(a)) && opt.At(a).end <= SizeMax
    {
      LayoutConsequences(opt, cur, argc, a, b);
    }
  }

  /** Popping keeps the state consistent. */
  lemma PopKeepsConsistent(opt: PerType<Range>, st: State, t: ValType)
    requires RangesValid(opt) && Consistent(opt, st)
    ensures Consistent(opt, PopState(opt, st, t))
  {
    if CanUse(opt, st, t) {
      var s := PopState(opt, st, t);
      forall u: ValType
        ensures opt.At(u) == opt.At(t) ==>
          s.remain.At(u) == st.remain.At(t) - 1 && s.currpos.At(u) == Next(st.currpos.At(t), opt.At(t))
        ensures opt.At(u) != opt.At(t) ==> s.remain.At(u) == st.remain.At(u) && s.currpos.At(u) == st.currpos.At(u)
      {
        PopMovesMergedGroup(opt, st, t, u);
      }
      NextPrevInverse(st.currpos.At(t), opt.At(t));
    }
  }

  /** Once a type's cache is exhausted, no pop makes it available again. */
  lemma ExhaustedStaysExhausted(opt: PerType<Range>, st: State, t: ValType, u: ValType)
    requires RangesValid(opt) && Consistent(opt, st) && !CanUse(opt, st, u)
    ensures !CanUse(opt, PopState(opt, st, t), u)
  {
    if CanUse(opt, st, t) {
      PopMovesMergedGroup(opt, st, t, u);
      if opt.At(u) == opt.At(t) {
        assert Merged(opt, t, u);
      }
    }
  }

  // ---------------------------------------------------------------------
  // Reading a tuple of values (`get_vals_from_operand_stack`)
  // ---------------------------------------------------------------------

  /** Every enabled range lies within the `argc` opfunc arguments. */
  predicate Fits(opt: PerType<Range>, argc: nat)
  {
    forall a: ValType :: Enabled(opt.At(a)) ==> opt.At(a).end <= argc
  }

  /** `calc_uwvm_interpreter_stacktop_state_after`: the state after popping `types` in order. */
  function After(opt: PerType<Range>, st: State, types: seq<ValType>): State
    decreases |types|
  {
    if |types| == 0 then st else After(opt, PopState(opt, st, types[0]), types[1..])
  }

  /** Where one element of the tuple comes from: a cache slot, or the top bytes of the operand stack. */
  datatype Source = FromSlot(pos: nat) | FromStack(bytes: nat)

  /**
   * The sources `fill_uwvm_interpreter_vals_from_operand_stack` uses for
   * `types`: the slot at the type's cursor while the type can use the
   * cache, otherwise `sizeof` bytes of the operand stack.
   */
  function Sources(opt: PerType<Range>, st: State, types: seq<ValType>): (p: seq<Source>)
    ensures |p| == |types|
    decreases |types|
  {
    if |types| == 0 then []
    else
      var t := types[0];
      [if CanUse(opt, st, t) then FromSlot(st.currpos.At(t)) else FromStack(Size(t))]
      + Sources(opt, PopState(opt, st, t), types[1..])
  }

  /** The operand-stack bytes a plan consumes. */
  function StackBytes(p: seq<Source>): nat
    decreases |p|
  {
    if |p| == 0 then 0
    else StackCost(p[0]) + StackBytes(p[1..])
  }

  /** The operand-stack bytes one source consumes. */
  function StackCost(s: Source): nat
  {
    if s.FromStack? then s.bytes else 0
  }

  predicate SlotsWithin(p: seq<Source>, n: nat)
    decreases |p|
  {
    |p| == 0 || ((p[0].FromSlot? ==> p[0].pos < n) && SlotsWithin(p[1..], n))
  }

  /**
   * The values a plan reads: a slot's contents, or the `sizeof` bytes just
   * below `top` in the operand stack `mem`, which
   * `get_curr_val_from_operand_stack_cache` then pops.
   */
  function Read(slots: seq<seq<byte>>, mem: seq<byte>, p: seq<Source>, top: nat): (vals: seq<seq<byte>>)
    requires SlotsWithin(p, |slots|) && StackBytes(p) <= top <= |mem|
    ensures |vals| == |p|
    decreases |p|
  {
    if |p| == 0 then []
    else
      match p[0]
      case FromSlot(pos) => [slots[pos]] + Read(slots, mem, p[1..], top)
      case FromStack(b) => [mem[top - b..top]] + Read(slots, mem, p[1..], top - b)
  }

  /**
   * The i-th source: the cache slot at its type's cursor when that type can
   * still use the cache after the first i pops, otherwise the stack.
   */
  lemma {:induction false} SourcesElement(opt: PerType<Range>, st: State, types: seq<ValType>, i: nat)
    requires i < |types|
    ensures var s := After(opt, st, types[..i]);
      Sources(opt, st, types)[i]
        == if CanUse(opt, s, types[i]) then FromSlot(s.currpos.At(types[i])) else FromStack(Size(types[i]))
    decreases i
  {
    if i > 0 {
      SourcesElement(opt, PopState(opt, st, types[0]), types[1..], i - 1);
      assert types[..i][1..] == types[1..][..i - 1];
    }
  }

  /** Once a type falls back to the stack, every later element of that type does too. */
  lemma SourcesStayOnStack(opt: PerType<Range>, st: State, types: seq<ValType>, i: nat, j: nat)
    requires RangesValid(opt) && Consistent(opt, st)
    requires i < j < |types| && types[i] == types[j] && Sources(opt, st, types)[i].FromStack?
    ensures Sources(opt, st, types)[j].FromStack?
  {
    SourcesElement(opt, st, types, i);
    PrefixStaysExhausted(opt, st, types, i, j, types[i]);
    SourcesElement(opt, st, types, j);
  }

  /** A type exhausted after a prefix of pops stays exhausted after any longer prefix. */
  lemma PrefixStaysExhausted(opt: PerType<Range>, st: State, types: seq<ValType>, i: nat, j: nat, u: ValType)
    requires RangesValid(opt) && Consistent(opt, st)
    requires i <= j <= |types| && !CanUse(opt, After(opt, st, types[..i]), u)
    ensures !CanUse(opt, After(opt, st, types[..j]), u)
  {
    var s := After(opt, st, types[..i]);
    AfterConsistent(opt, st, types[..i]);
    ExhaustedAfter(opt, s, types[i..j], u);
    AfterPrefix(opt, st, types, i, j);
  }

  /** Popping a longer prefix is popping the shorter one, then the types between. */
  lemma AfterPrefix(opt: PerType<Range>, st: State, types: seq<ValType>, i: nat, j: nat)
    requires i <= j <= |types|
    ensures After(opt, st, types[..j]) == After(opt, After(opt, st, types[..i]), types[i..j])
  {
    assert types[..j] == types[..i] + types[i..j];
    AfterAppend(opt, st, types[..i], types[i..j]);
  }

  lemma {:induction false} AfterAppend(opt: PerType<Range>, st: State, a: seq<ValType>, b: seq<ValType>)
    ensures After(opt, st, a + b) == After(opt, After(opt, st, a), b)
    decreases |a|
  {
    if |a| > 0 {
      AfterAppend(opt, PopState(opt, st, a[0]), a[1..], b);
      assert (a + b)[1..] == a[1..] + b;
    } else {
      assert a + b == b;
    }
  }

  lemma {:induction false} ExhaustedAfter(opt: PerType<Range>, st: State, types: seq<ValType>, u: ValType)
    requires RangesValid(opt) && Consistent(opt, st) && !CanUse(opt, st, u)
    ensures !CanUse(opt, After(opt, st, types), u)
    decreases |types|
  {
    if |types| > 0 {
      ExhaustedStaysExhausted(opt, st, types[0], u);
      PopKeepsConsistent(opt, st, types[0]);
      ExhaustedAfter(opt, PopState(opt, st, types[0]), types[1..], u);
    }
  }

  /** Every state reached by popping from a consistent state is consistent. */
  lemma {:induction false} AfterConsistent(opt: PerType<Range>, st: State, types: seq<ValType>)
    requires RangesValid(opt) && Consistent(opt, st)
    ensures Consistent(opt, After(opt, st, types))
    decreases |types|
  {
    if |types| > 0 {
      PopKeepsConsistent(opt, st, types[0]);
      AfterConsistent(opt, PopState(opt, st, types[0]), types[1..]);
    }
  }

  /** Under a consistent state every slot the plan names is an opfunc argument. */
  lemma {:induction false} SourcesWithin(opt: PerType<Range>, st: State, types: seq<ValType>, n: nat)
    requires RangesValid(opt) && Consistent(opt, st) && Fits(opt, n)
    ensures SlotsWithin(Sources(opt, st, types), n)
    decreases |types|
  {
    if |types| > 0 {
      PopKeepsConsistent(opt, st, types[0]);
      SourcesWithin(opt, PopState(opt, st, types[0]), types[1..], n);
      SourcesCons(opt, st, types);
    }
  }

  /** The operand-stack bytes the first `i` sources of a plan consume. */
  function Consumed(p: seq<Source>, i: nat): nat
    requires i <= |p|
    decreases i
  {
    if i == 0 then 0 else StackCost(p[0]) + Consumed(p[1..], i - 1)
  }

  /** One more source consumes its own bytes on top, never more than the whole plan's. */
  lemma {:induction false} ConsumedStep(p: seq<Source>, i: nat)
    requires i < |p|
    ensures Consumed(p, i + 1) == Consumed(p, i) + StackCost(p[i])
    ensures Consumed(p, i + 1) <= StackBytes(p)
    decreases i
  {
    if i > 0 {
      ConsumedStep(p[1..], i - 1);
      assert p[1..][i - 1] == p[i];
    }
  }

  /**
   * The i-th value read: the named slot's contents, or the stack bytes just
   * below those the first i elements consumed (last in, first out).
   */
  lemma {:induction false} ReadElement(slots: seq<seq<byte>>, mem: seq<byte>, p: seq<Source>, top: nat, i: nat)
    requires SlotsWithin(p, |slots|) && StackBytes(p) <= top <= |mem| && i < |p|
    ensures Consumed(p, i) <= Consumed(p, i + 1) <= top
    ensures match p[i]
      case FromSlot(pos) => pos < |slots| && Read(slots, mem, p, top)[i] == slots[pos]
      case FromStack(_) => Read(slots, mem, p, top)[i] == mem[top - Consumed(p, i + 1)..top - Consumed(p, i)]
    decreases i
  {
    ConsumedStep(p, i);
    var top' := ReadHead(slots, mem, p, top);
    if i > 0 {
      ReadElement(slots, mem, p[1..], top', i - 1);
      assert p[1..][i - 1] == p[i];
    }
  }

  /** Reading a plan is reading its first element, then the rest below what that one consumed. */
  lemma ReadHead(slots: seq<seq<byte>>, mem: seq<byte>, p: seq<Source>, top: nat) returns (top': nat)
    requires SlotsWithin(p, |slots|) && StackBytes(p) <= top <= |mem| && 0 < |p|
    ensures top' == top - StackCost(p[0])
    ensures SlotsWithin(p[1..], |slots|) && StackBytes(p[1..]) == StackBytes(p) - StackCost(p[0]) <= top'
    ensures Read(slots, mem, p, top)[1..] == Read(slots, mem, p[1..], top')
    ensures match p[0]
      case FromSlot(pos) => pos < |slots| && Read(slots, mem, p, top)[0] == slots[pos]
      case FromStack(b) => Read(slots, mem, p, top)[0] == mem[top - b..top]
  {
    top' := top - StackCost(p[0]);
  }

  /** The first source of a plan and the plan for the rest of the tuple. */
  lemma SourcesCons(opt: PerType<Range>, st: State, types: seq<ValType>)
    requires 0 < |types|
    ensures var t := types[0];
      Sources(opt, st, types)[0] == (if CanUse(opt, st, t) then FromSlot(st.currpos.At(t)) else FromStack(Size(t)))
    ensures Sources(opt, st, types)[1..] == Sources(opt, PopState(opt, st, types[0]), types[1..])
  {
  }

  /** With a valid layout every slot of the initial plan is an opfunc argument. */
  lemma PlanWithin(opt: PerType<Range>, cur: PerType<nat>, types: seq<ValType>, argc: nat)
    requires LayoutValid(opt, cur, argc)
    ensures SlotsWithin(Sources(opt, InitialState(opt, cur), types), argc)
  {
    InitialStateConsistent(opt, cur, argc);
    forall a: ValType ensures Enabled(opt.At(a)) ==> opt.At(a).end <= argc {
      LayoutConsequences(opt, cur, argc, a, a);
    }
    SourcesWithin(opt, InitialState(opt, cur), types, argc);
  }

  /** Read the first element of a plan: its slot, or pop its bytes off the operand stack. */
  method ReadSource(r: Regs, p: seq<Source>) returns (v: seq<byte>)
    requires 0 < |p| && SlotsWithin(p, |r.slots|) && StackBytes(p) <= r.sp <= r.buf.Length
    modifies r
    ensures r.slots == old(r.slots) && r.ip == old(r.ip) && r.sp == old(r.sp) - StackCost(p[0])
    ensures SlotsWithin(p[1..], |r.slots|) && StackBytes(p[1..]) == StackBytes(p) - StackCost(p[0])
    ensures Read(r.slots, r.buf[..], p, old(r.sp)) == [v] + Read(r.slots, r.buf[..], p[1..], r.sp)
  {
    var top' := ReadHead(r.slots, r.buf[..], p, r.sp);
    match p[0] {
      case FromSlot(pos) =>
        v := r.slots[pos];
      case FromStack(b) =>
        v := r.Pop(b);
    }
  }

  /**
   * `get_vals_from_operand_stack`: with a valid layout, the plan is fixed
   * from the initial state (at compile time in the source); the tuple is
   * then read element by element, popping the operand stack for the
   * elements that are not cached.
   */
  method GetVals(r: Regs, opt: PerType<Range>, cur: PerType<nat>, types: seq<ValType>) returns (vals: seq<seq<byte>>)
    requires LayoutValid(opt, cur, |r.slots|)
    requires StackBytes(Sources(opt, InitialState(opt, cur), types)) <= r.sp <= r.buf.Length
    modifies r
    ensures r.slots == old(r.slots) && r.ip == old(r.ip)
    ensures SlotsWithin(Sources(opt, InitialState(opt, cur), types), |r.slots|)
    ensures vals == Read(old(r.slots), old(r.buf[..]), Sources(opt, InitialState(opt, cur), types), old(r.sp))
    ensures r.sp == old(r.sp) - StackBytes(Sources(opt, InitialState(opt, cur), types))
  {
    var p := Sources(opt, InitialState(opt, cur), types);
    PlanWithin(opt, cur, types, |r.slots|);
    vals := ReadPlan(r, p);
  }

  /** The loop of `fill_uwvm_interpreter_vals_from_operand_stack`: read the plan element by element. */
  method ReadPlan(r: Regs, p: seq<Source>) returns (vals: seq<seq<byte>>)
    requires SlotsWithin(p, |r.slots|) && StackBytes(p) <= r.sp <= r.buf.Length
    modifies r
    ensures r.slots == old(r.slots) && r.ip == old(r.ip)
    ensures vals == Read(r.slots, r.buf[..], p, old(r.sp))
    ensures r.sp == old(r.sp) - StackBytes(p)
  {
    vals := [];
    var i := 0;
    assert p[0..] == p;
    while i < |p|
      invariant 0 <= i <= |p|
      invariant r.slots == old(r.slots) && r.ip == old(r.ip) && r.sp <= r.buf.Length
      invariant SlotsWithin(p[i..], |r.slots|) && StackBytes(p[i..]) <= r.sp
      invariant old(r.sp) - StackBytes(p) == r.sp - StackBytes(p[i..])
      invariant vals + Read(r.slots, r.buf[..], p[i..], r.sp) == Read(r.slots, r.buf[..], p, old(r.sp))
    {
      assert p[i..][1..] == p[i + 1..];
      var v := ReadSource(r, p[i..]);
      vals := vals + [v];
      i := i + 1;
    }
    assert p[i..] == [];
  }
}
