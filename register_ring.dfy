/**
 * The stack-top cache ring and its spill/fill operations.
 *
 * A ring is a slot range `[begin, end)` walked in depth direction by
 * `Next` (away from the logical top).  Spilling writes a segment of cached
 * values to the operand stack, the top value at the highest address and
 * deeper slots below it; filling reads such a segment back, deepest value
 * first, into the ring.
 */
module RegisterRing {
  import opened Arith
  import opened WasmTypes
  import opened Interp
  import opened StackTop

  // ---------------------------------------------------------------------
  // Ring arithmetic
  // ---------------------------------------------------------------------

  /** A ring a segment can be taken from: non-empty, with `size_t` bounds. */
  predicate Ring(r: Range)
  {
    r.begin < r.end <= SizeMax
  }

  lemma ModSmall(x: int, m: int)
    requires m > 0 && 0 <= x < 2 * m
    ensures x % m == if x < m then x else x - m
  {
    if x < m {
      DivModUnique(x, m, 0, x);
    } else {
      DivModUnique(x, m, 1, x - m);
    }
  }

  lemma ModAddLeft(x: int, y: int, m: int)
    requires m > 0
    ensures (x % m + y) % m == (x + y) % m
  {
    ModShift(x % m + y, x / m, m);
    assert x % m + y + (x / m) * m == x + y;
  }

  /** `ring_next_pos` in closed form: one step around the ring. */
  lemma NextClosed(pos: nat, r: Range)
    requires Ring(r) && InRange(pos, r)
    ensures Next(pos, r) == r.begin + (pos - r.begin + 1) % (r.end - r.begin)
  {
    ModSmall(pos - r.begin + 1, r.end - r.begin);
  }

  /**
   * `ring_advance_next_pos<Pos, Steps>`: `Next` applied `Steps` times; the
   * range checks apply only when there is a step to take.
   */
  function Advance(pos: nat, steps: nat, r: Range): (q: nat)
    requires steps == 0 || (Ring(r) && InRange(pos, r))
    ensures steps == 0 ==> q == pos
    ensures Ring(r) && InRange(pos, r) ==> InRange(q, r)
    decreases steps
  {
    if steps == 0 then pos
    else
      NextPrevInverse(pos, r);
      Advance(Next(pos, r), steps - 1, r)
  }

  /** `Advance` in closed form: `steps` places further round the ring. */
  lemma {:induction false} AdvanceClosed(pos: nat, steps: nat, r: Range)
    requires Ring(r) && InRange(pos, r)
    ensures Advance(pos, steps, r) == r.begin + (pos - r.begin + steps) % (r.end - r.begin)
    decreases steps
  {
    if steps == 0 {
      ModSmall(pos - r.begin, r.end - r.begin);
    } else {
      NextClosed(pos, r);
      NextPrevInverse(pos, r);
      AdvanceClosed(Next(pos, r), steps - 1, r);
      ModAddLeft(pos - r.begin + 1, steps - 1, r.end - r.begin);
    }
  }

  /** One more step is one more `Next`, and `Prev` takes it back. */
  lemma AdvanceStep(pos: nat, k: nat, r: Range)
    requires Ring(r) && InRange(pos, r)
    ensures Advance(pos, k + 1, r) == Next(Advance(pos, k, r), r)
    ensures Prev(Advance(pos, k + 1, r), r) == Advance(pos, k, r)
  {
    var q := Advance(pos, k, r);
    var size := r.end - r.begin;
    AdvanceClosed(pos, k, r);
    AdvanceClosed(pos, k + 1, r);
    NextClosed(q, r);
    ModAddLeft(pos - r.begin + k, 1, size);
    NextPrevInverse(q, r);
  }

  /** Going once around the ring comes back to the start. */
  lemma AdvancePeriod(pos: nat, k: nat, r: Range)
    requires Ring(r) && InRange(pos, r)
    ensures Advance(pos, k + (r.end - r.begin), r) == Advance(pos, k, r)
  {
    AdvanceClosed(pos, k, r);
    AdvanceClosed(pos, k + (r.end - r.begin), r);
    ModShift(pos - r.begin + k, 1, r.end - r.begin);
  }

  /** Fewer steps than the ring size reach distinct slots. */
  lemma AdvanceInjective(pos: nat, j: nat, k: nat, r: Range)
    requires Ring(r) && InRange(pos, r)
    requires j < r.end - r.begin && k < r.end - r.begin
    requires Advance(pos, j, r) == Advance(pos, k, r)
    ensures j == k
  {
    var size := r.end - r.begin;
    AdvanceClosed(pos, j, r);
    AdvanceClosed(pos, k, r);
    ModSmall(pos - r.begin + j, size);
    ModSmall(pos - r.begin + k, size);
  }

  // ---------------------------------------------------------------------
  // Segments and their operand-stack image
  // ---------------------------------------------------------------------

  /**
   * The compile-time checks of `spill_stacktop_range_to_operand_stack`
   * and `operand_stack_to_stacktop_range` for a segment of `count` slots
   * from `start` within `argc` opfunc arguments; the public entry points
   * return before them when `count` is 0.
   */
  predicate SegmentOk(r: Range, start: nat, count: nat, argc: nat)
  {
    count == 0 || (Ring(r) && InRange(start, r) && count <= r.end - r.begin && r.end <= argc)
  }

  /** The bytes of the first n values of a type list. */
  function Top(types: seq<ValType>, n: nat): nat
    requires n <= |types|
  {
    if n == 0 then 0 else Top(types, n - 1) + Size(types[n - 1])
  }

  lemma {:induction false} TopMonotone(types: seq<ValType>, j: nat, k: nat)
    requires j <= k <= |types|
    ensures Top(types, j) <= Top(types, k)
    decreases k
  {
    if j < k {
      TopMonotone(types, j, k - 1);
    }
  }

  /** `sizeof(T) * Count`, or the sum of the sizes of a type list. */
  function TotalSize(types: seq<ValType>): nat
  {
    Top(types, |types|)
  }

  /** A single-type segment of `count` values. */
  function Repeat(t: ValType, count: nat): (types: seq<ValType>)
    ensures |types| == count && forall k :: 0 <= k < count ==> types[k] == t
  {
    if count == 0 then [] else Repeat(t, count - 1) + [t]
  }

  lemma {:induction false} RepeatSize(t: ValType, count: nat, n: nat)
    requires n <= count
    ensures Top(Repeat(t, count), n) == Size(t) * n
    decreases n
  {
    if n > 0 {
      RepeatSize(t, count, n - 1);
    }
  }

  /** The slots of a segment hold values of the listed types. */
  predicate Typed(slots: seq<seq<byte>>, r: Range, start: nat, types: seq<ValType>)
    requires SegmentOk(r, start, |types|, |slots|)
  {
    forall k {:trigger Advance(start, k, r)} :: 0 <= k < |types| ==> |slots[Advance(start, k, r)]| == Size(types[k])
  }

  /**
   * The bytes the first `count` slots of a segment occupy on the operand
   * stack: each deeper slot below the ones above it, `start` on top.
   */
  function Image(slots: seq<seq<byte>>, r: Range, start: nat, count: nat): seq<byte>
    requires SegmentOk(r, start, count, |slots|)
    decreases count
  {
    if count == 0 then []
    else slots[Advance(start, count - 1, r)] + Image(slots, r, start, count - 1)
  }

  /** The image of the first n values of a typed segment has their total size. */
  lemma {:induction false} ImageLength(slots: seq<seq<byte>>, r: Range, start: nat, types: seq<ValType>, n: nat)
    requires SegmentOk(r, start, |types|, |slots|) && Typed(slots, r, start, types) && n <= |types|
    ensures |Image(slots, r, start, n)| == Top(types, n)
    decreases n
  {
    if n > 0 {
      ImageLength(slots, r, start, types, n - 1);
    }
  }

  /** The top part of a segment's image is the image of its top values. */
  lemma {:induction false} ImageSuffix(slots: seq<seq<byte>>, r: Range, start: nat, n: nat, j: nat)
    requires SegmentOk(r, start, n, |slots|) && j <= n
    ensures |Image(slots, r, start, j)| <= |Image(slots, r, start, n)|
    ensures Image(slots, r, start, n)[|Image(slots, r, start, n)| - |Image(slots, r, start, j)|..]
      == Image(slots, r, start, j)
    decreases n
  {
    if j < n {
      ImageSuffix(slots, r, start, n - 1, j);
      var x := slots[Advance(start, n - 1, r)];
      var below := Image(slots, r, start, n - 1);
      var top := Image(slots, r, start, j);
      assert Image(slots, r, start, n) == x + below;
      assert (x + below)[|x| + |below| - |top|..] == below[|below| - |top|..];
    }
  }

  /**
   * The bytes of the k-th value (top first) of an operand-stack segment
   * holding values of the listed types, the top value highest.
   */
  function Chunk(bytes: seq<byte>, types: seq<ValType>, k: nat): (c: seq<byte>)
    requires k < |types| && Top(types, k + 1) <= |bytes|
    ensures |c| == Size(types[k])
  {
    bytes[|bytes| - Top(types, k + 1)..|bytes| - Top(types, k)]
  }

  /** The part of a sequence just below a known top part. */
  lemma SuffixSlice<T>(s: seq<T>, x: seq<T>, y: seq<T>)
    requires |x| + |y| <= |s| && s[|s| - (|x| + |y|)..] == x + y
    ensures s[|s| - (|x| + |y|)..|s| - |y|] == x
  {
    assert s[|s| - (|x| + |y|)..|s| - |y|] == (x + y)[..|x|];
  }

  /** A typed segment's k-th slot is the k-th chunk of its image. */
  lemma ImageChunk(slots: seq<seq<byte>>, r: Range, start: nat, types: seq<ValType>, k: nat)
    requires SegmentOk(r, start, |types|, |slots|) && Typed(slots, r, start, types) && k < |types|
    ensures |Image(slots, r, start, |types|)| == TotalSize(types)
    ensures Top(types, k + 1) <= TotalSize(types)
    ensures Chunk(Image(slots, r, start, |types|), types, k) == slots[Advance(start, k, r)]
  {
    ImageLength(slots, r, start, types, |types|);
    ImageLength(slots, r, start, types, k);
    TopMonotone(types, k + 1, |types|);
    ImageSuffix(slots, r, start, |types|, k + 1);
    var x := slots[Advance(start, k, r)];
    var y := Image(slots, r, start, k);
    assert Image(slots, r, start, k + 1) == x + y;
    SuffixSlice(Image(slots, r, start, |types|), x, y);
  }

  /** The chunks of a segment are measured from its top, so dropping deeper bytes keeps them. */
  lemma ChunkDrop(bytes: seq<byte>, types: seq<ValType>, k: nat, d: nat)
    requires k < |types| && d <= |bytes| && Top(types, k + 1) <= |bytes| - d
    ensures Chunk(bytes[d..], types, k) == Chunk(bytes, types, k)
  {
    var lo, hi := |bytes| - Top(types, k + 1), |bytes| - Top(types, k);
    var rest := bytes[d..];
    assert |rest| - Top(types, k + 1) == lo - d && |rest| - Top(types, k) == hi - d;
    forall i | 0 <= i < hi - lo
      ensures rest[lo - d..hi - d][i] == bytes[lo..hi][i]
    {
      assert rest[lo - d + i] == bytes[lo + i];
    }
  }

  /**
   * The slots after filling the first n values of a segment from `bytes`,
   * the operand-stack bytes of those values: the deepest (n-1-th) value
   * comes first in memory and goes to `Advance(start, n - 1)`.
   */
  function FillSpec(slots: seq<seq<byte>>, bytes: seq<byte>, r: Range, start: nat, types: seq<ValType>, n: nat): (s: seq<seq<byte>>)
    requires n <= |types| && SegmentOk(r, start, |types|, |slots|) && |bytes| == Top(types, n)
    ensures |s| == |slots|
    decreases n
  {
    if n == 0 then slots
    else
      var t := types[n - 1];
      FillSpec(slots[Advance(start, n - 1, r) := bytes[..Size(t)]], bytes[Size(t)..], r, start, types, n - 1)
  }

  /** Filling leaves every slot outside the segment as it was. */
  lemma {:induction false} FillSpecElsewhere(slots: seq<seq<byte>>, bytes: seq<byte>, r: Range, start: nat, types: seq<ValType>, n: nat, p: nat)
    requires n <= |types| && SegmentOk(r, start, |types|, |slots|) && |bytes| == Top(types, n)
    requires p < |slots| && forall j :: 0 <= j < n ==> Advance(start, j, r) != p
    ensures FillSpec(slots, bytes, r, start, types, n)[p] == slots[p]
    decreases n
  {
    if n > 0 {
      var t := types[n - 1];
      FillSpecElsewhere(slots[Advance(start, n - 1, r) := bytes[..Size(t)]], bytes[Size(t)..], r, start, types, n - 1, p);
    }
  }

  /** Filling puts the k-th value's bytes into the k-th slot of the segment. */
  lemma {:induction false} FillSpecAt(slots: seq<seq<byte>>, bytes: seq<byte>, r: Range, start: nat, types: seq<ValType>, n: nat, k: nat)
    requires n <= |types| && SegmentOk(r, start, |types|, |slots|) && |bytes| == Top(types, n) && k < n
    ensures Top(types, k + 1) <= |bytes|
    ensures FillSpec(slots, bytes, r, start, types, n)[Advance(start, k, r)] == Chunk(bytes, types, k)
    decreases n
  {
    TopMonotone(types, k + 1, n);
    var t := types[n - 1];
    var slots' := slots[Advance(start, n - 1, r) := bytes[..Size(t)]];
    var bytes' := bytes[Size(t)..];
    if k == n - 1 {
      forall j | 0 <= j < n - 1
        ensures Advance(start, j, r) != Advance(start, n - 1, r)
      {
        if Advance(start, j, r) == Advance(start, n - 1, r) {
          AdvanceInjective(start, j, n - 1, r);
        }
      }
      FillSpecElsewhere(slots', bytes', r, start, types, n - 1, Advance(start, n - 1, r));
    } else {
      FillSpecAt(slots', bytes', r, start, types, n - 1, k);
      ChunkDrop(bytes, types, k, Size(t));
    }
  }

  /** The slots of the first n values of a segment hold the chunks of `bytes`. */
  predicate Chunked(slots: seq<seq<byte>>, bytes: seq<byte>, r: Range, start: nat, types: seq<ValType>, n: nat)
    requires n <= |types| && SegmentOk(r, start, |types|, |slots|)
  {
    forall k: nat :: k < n ==> ChunkAt(slots, bytes, r, start, types, k)
  }

  /** The k-th slot of a segment holds the k-th chunk of `bytes`. */
  predicate ChunkAt(slots: seq<seq<byte>>, bytes: seq<byte>, r: Range, start: nat, types: seq<ValType>, k: nat)
    requires k < |types| && SegmentOk(r, start, |types|, |slots|)
  {
    Top(types, k + 1) <= |bytes| && slots[Advance(start, k, r)] == Chunk(bytes, types, k)
  }

  /** Slots holding the chunks of `bytes` have `bytes` as their image. */
  lemma {:induction false} ImageOfChunks(slots: seq<seq<byte>>, bytes: seq<byte>, r: Range, start: nat, types: seq<ValType>, n: nat)
    requires n <= |types| && SegmentOk(r, start, |types|, |slots|) && |bytes| == Top(types, n)
    requires Chunked(slots, bytes, r, start, types, n)
    ensures Image(slots, r, start, n) == bytes
    decreases n
  {
    if n > 0 {
      var t := types[n - 1];
      var bytes' := bytes[Size(t)..];
      ChunkedBelow(slots, bytes, r, start, types, n);
      ImageOfChunks(slots, bytes', r, start, types, n - 1);
      assert ChunkAt(slots, bytes, r, start, types, n - 1);
      assert slots[Advance(start, n - 1, r)] == bytes[..Size(t)];
    }
  }

  /** Without the deepest value's bytes, the other values are still the chunks of the rest. */
  lemma ChunkedBelow(slots: seq<seq<byte>>, bytes: seq<byte>, r: Range, start: nat, types: seq<ValType>, n: nat)
    requires 0 < n <= |types| && SegmentOk(r, start, |types|, |slots|) && |bytes| == Top(types, n)
    requires Chunked(slots, bytes, r, start, types, n)
    ensures Size(types[n - 1]) <= |bytes|
    ensures Chunked(slots, bytes[Size(types[n - 1])..], r, start, types, n - 1)
  {
    var d := Size(types[n - 1]);
    assert Top(types, n) == Top(types, n - 1) + d;
    var rest := bytes[d..];
    forall k: nat | k < n - 1
      ensures ChunkAt(slots, rest, r, start, types, k)
    {
      assert ChunkAt(slots, bytes, r, start, types, k);
      TopMonotone(types, k + 1, n - 1);
      ChunkDrop(bytes, types, k, d);
    }
    assert Chunked(slots, rest, r, start, types, n - 1);
  }

  /** Spilling a typed segment and filling it back restores every slot. */
  lemma SpillFillRoundTrip(slots: seq<seq<byte>>, r: Range, start: nat, types: seq<ValType>)
    requires SegmentOk(r, start, |types|, |slots|) && Typed(slots, r, start, types)
    ensures |Image(slots, r, start, |types|)| == TotalSize(types)
    ensures FillSpec(slots, Image(slots, r, start, |types|), r, start, types, |types|) == slots
  {
    ImageLength(slots, r, start, types, |types|);
    var img := Image(slots, r, start, |types|);
    var filled := FillSpec(slots, img, r, start, types, |types|);
    forall p | 0 <= p < |slots|
      ensures filled[p] == slots[p]
    {
      if k :| 0 <= k < |types| && Advance(start, k, r) == p {
        FillSpecAt(slots, img, r, start, types, |types|, k);
        ImageChunk(slots, r, start, types, k);
      } else {
        FillSpecElsewhere(slots, img, r, start, types, |types|, p);
      }
    }
  }

  /** Every value filled sits in its chunk's slot. */
  lemma FillSpecChunked(slots: seq<seq<byte>>, bytes: seq<byte>, r: Range, start: nat, types: seq<ValType>, n: nat)
    requires n <= |types| && SegmentOk(r, start, |types|, |slots|) && |bytes| == Top(types, n)
    ensures Chunked(FillSpec(slots, bytes, r, start, types, n), bytes, r, start, types, n)
  {
    forall k: nat | k < n
      ensures ChunkAt(FillSpec(slots, bytes, r, start, types, n), bytes, r, start, types, k)
    {
      FillSpecAt(slots, bytes, r, start, types, n, k);
    }
  }

  /** Filling a segment and spilling it back reproduces the operand-stack bytes. */
  lemma FillSpillRoundTrip(slots: seq<seq<byte>>, bytes: seq<byte>, r: Range, start: nat, types: seq<ValType>)
    requires SegmentOk(r, start, |types|, |slots|) && |bytes| == TotalSize(types)
    ensures Typed(FillSpec(slots, bytes, r, start, types, |types|), r, start, types)
    ensures Image(FillSpec(slots, bytes, r, start, types, |types|), r, start, |types|) == bytes
  {
    var filled := FillSpec(slots, bytes, r, start, types, |types|);
    FillSpecChunked(slots, bytes, r, start, types, |types|);
    ImageOfChunks(filled, bytes, r, start, types, |types|);
    forall k | 0 <= k < |types|
      ensures |filled[Advance(start, k, r)]| == Size(types[k])
    {
      assert ChunkAt(filled, bytes, r, start, types, k);
    }
  }

  // ---------------------------------------------------------------------
  // Spill and fill
  // ---------------------------------------------------------------------

  /**
   * `spill_stacktop_range_to_operand_stack` (all values of one type) and
   * the mixed spill (`spill_stacktop_desc_by_types_to_operand_stack`):
   * raise `sp` by the segment's size, then store the slots from the top
   * (`start`) down through a write pointer that starts at the new `sp`.
   */
  method Spill(regs: Regs, r: Range, start: nat, types: seq<ValType>)
    requires SegmentOk(r, start, |types|, |regs.slots|) && Typed(regs.slots, r, start, types)
    requires regs.sp + TotalSize(types) <= regs.buf.Length
    modifies regs, regs.buf
    ensures regs.slots == old(regs.slots) && regs.ip == old(regs.ip)
    ensures regs.sp == old(regs.sp) + TotalSize(types)
    ensures |Image(regs.slots, r, start, |types|)| == TotalSize(types)
    ensures regs.buf[..] == Overwrite(old(regs.buf[..]), old(regs.sp), Image(regs.slots, r, start, |types|))
  {
    ImageLength(regs.slots, r, start, types, |types|);
    regs.sp := regs.sp + TotalSize(types);
    StoreSegment(regs.buf, regs.slots, r, start, types, regs.sp);
  }

  /**
   * `spill_stacktop_desc_to_operand_stack`: from a write pointer at `top`,
   * store each slot of the segment just below the previous one.
   */
  method StoreSegment(buf: array<byte>, slots: seq<seq<byte>>, r: Range, start: nat, types: seq<ValType>, top: nat)
    requires SegmentOk(r, start, |types|, |slots|) && Typed(slots, r, start, types)
    requires TotalSize(types) <= top <= buf.Length
    modifies buf
    ensures |Image(slots, r, start, |types|)| == TotalSize(types)
    ensures buf[..] == Overwrite(old(buf[..]), top - TotalSize(types), Image(slots, r, start, |types|))
  {
    ImageLength(slots, r, start, types, |types|);
    ghost var s0 := buf[..];
    var wp: nat := top;
    var pos: nat := start;
    var k: nat := 0;
    OverwriteEmpty(s0, wp);
    while k < |types|
      invariant k <= |types|
      invariant pos == Advance(start, k, r)
      invariant wp + Top(types, k) == top
      invariant |Image(slots, r, start, k)| == Top(types, k)
      invariant buf[..] == Overwrite(s0, wp, Image(slots, r, start, k))
    {
      wp, pos := StoreSlot(buf, s0, slots, r, start, types, k, wp, pos);
      k := k + 1;
    }
  }

  /** One pass of the spill loop: store the k-th slot of the segment just below the first k. */
  method StoreSlot(buf: array<byte>, ghost s0: seq<byte>, slots: seq<seq<byte>>, r: Range, start: nat,
                   types: seq<ValType>, k: nat, wp: nat, pos: nat) returns (wp': nat, pos': nat)
    requires SegmentOk(r, start, |types|, |slots|) && Typed(slots, r, start, types) && k < |types|
    requires pos == Advance(start, k, r) && TotalSize(types) <= wp + Top(types, k) && wp + Top(types, k) <= |s0| == buf.Length
    requires |Image(slots, r, start, k)| == Top(types, k)
    requires buf[..] == Overwrite(s0, wp, Image(slots, r, start, k))
    modifies buf
    ensures wp' + Top(types, k + 1) == wp + Top(types, k)
    ensures |Image(slots, r, start, k + 1)| == Top(types, k + 1)
    ensures buf[..] == Overwrite(s0, wp', Image(slots, r, start, k + 1))
    ensures pos' == Advance(start, k + 1, r)
  {
    SpillStep(wp, slots, r, start, types, k);
    ImageLength(slots, r, start, types, k + 1);
    var v := slots[pos];
    assert Image(slots, r, start, k + 1) == v + Image(slots, r, start, k);
    wp' := StoreBelow(buf, s0, wp, Image(slots, r, start, k), v);
    AdvanceStep(start, k, r);
    pos' := Next(pos, r);
  }

  /** One step of the spill loop: the next deeper slot fits below the bytes written so far. */
  lemma SpillStep(wp: nat, slots: seq<seq<byte>>, r: Range, start: nat, types: seq<ValType>, k: nat)
    requires SegmentOk(r, start, |types|, |slots|) && Typed(slots, r, start, types) && k < |types|
    requires TotalSize(types) <= wp + Top(types, k)
    ensures |slots[Advance(start, k, r)]| == Size(types[k])
    ensures Size(types[k]) <= wp
  {
    TopMonotone(types, k + 1, |types|);
    assert Top(types, k + 1) == Top(types, k) + Size(types[k]);
  }

  /** `write_ptr -= sizeof(v); memcpy(write_ptr, &v, sizeof(v))` below bytes already written. */
  method StoreBelow(buf: array<byte>, ghost s0: seq<byte>, wp: nat, ghost written: seq<byte>, v: seq<byte>) returns (wp': nat)
    requires |v| <= wp && wp + |written| <= |s0| == buf.Length
    requires buf[..] == Overwrite(s0, wp, written)
    modifies buf
    ensures wp' == wp - |v|
    ensures buf[..] == Overwrite(s0, wp', v + written)
  {
    ghost var before := buf[..];
    OverwriteAdjacent(s0, wp, written, v);
    wp' := wp - |v|;
    WriteBytes(buf, wp', v);
    assert buf[..] == Overwrite(before, wp', v);
  }

  /**
   * `operand_stack_to_stacktop_range` and the mixed fill
   * (`fill_stacktop_asc_by_types_from_operand_stack`): lower `sp` by the
   * segment's size, then load the values upwards from the new `sp`,
   * starting with the deepest slot and moving towards `start` by `Prev`.
   */
  method Fill(regs: Regs, r: Range, start: nat, types: seq<ValType>)
    requires SegmentOk(r, start, |types|, |regs.slots|)
    requires TotalSize(types) <= regs.sp <= regs.buf.Length
    modifies regs
    ensures regs.ip == old(regs.ip)
    ensures regs.sp == old(regs.sp) - TotalSize(types)
    ensures regs.slots == FillSpec(old(regs.slots), regs.buf[regs.sp..old(regs.sp)], r, start, types, |types|)
  {
    regs.sp := regs.sp - TotalSize(types);
    var rp: nat := regs.sp;
    var n: nat := |types|;
    var pos: nat := if n == 0 then start else Advance(start, n - 1, r);
    while n > 0
      invariant 0 <= n <= |types|
      invariant regs.ip == old(regs.ip) && regs.sp == old(regs.sp) - TotalSize(types)
      invariant |regs.slots| == |old(regs.slots)|
      invariant n > 0 ==> pos == Advance(start, n - 1, r)
      invariant rp + Top(types, n) == old(regs.sp)
      invariant FillSpec(regs.slots, regs.buf[rp..old(regs.sp)], r, start, types, n)
        == FillSpec(old(regs.slots), regs.buf[regs.sp..old(regs.sp)], r, start, types, |types|)
    {
      var t := types[n - 1];
      var rest := regs.buf[rp..old(regs.sp)];
      assert rest[..Size(t)] == regs.buf[rp..rp + Size(t)];
      assert rest[Size(t)..] == regs.buf[rp + Size(t)..old(regs.sp)];
      regs.SetSlot(pos, regs.buf[rp..rp + Size(t)]);
      rp := rp + Size(t);
      if n > 1 {
        AdvanceStep(start, n - 2, r);
      }
      pos := Prev(pos, r);
      n := n - 1;
    }
  }

  /** Spilling a segment and filling it back restores `sp` and every slot. */
  method SpillThenFill(regs: Regs, r: Range, start: nat, types: seq<ValType>)
    requires SegmentOk(r, start, |types|, |regs.slots|) && Typed(regs.slots, r, start, types)
    requires regs.sp + TotalSize(types) <= regs.buf.Length
    modifies regs, regs.buf
    ensures regs.sp == old(regs.sp) && regs.slots == old(regs.slots) && regs.ip == old(regs.ip)
  {
    Spill(regs, r, start, types);
    assert regs.buf[old(regs.sp)..regs.sp] == Image(regs.slots, r, start, |types|);
    SpillFillRoundTrip(regs.slots, r, start, types);
    Fill(regs, r, start, types);
  }

  // ---------------------------------------------------------------------
  // Entry points
  // ---------------------------------------------------------------------

  /** `hit_count` of the untyped entry points: the ranges that hold `start`. */
  function HitCount(opt: PerType<Range>, start: nat): nat
  {
    (if InRange(start, opt.i32) then 1 else 0) + (if InRange(start, opt.i64) then 1 else 0)
    + (if InRange(start, opt.f32) then 1 else 0) + (if InRange(start, opt.f64) then 1 else 0)
    + (if InRange(start, opt.v128) then 1 else 0)
  }

  /** The type of the one range that holds `start` (the `if constexpr` chain on `*_hit`). */
  function HitType(opt: PerType<Range>, start: nat): (t: ValType)
    requires HitCount(opt, start) == 1
    ensures InRange(start, opt.At(t))
    ensures forall u: ValType :: InRange(start, opt.At(u)) ==> u == t
  {
    if InRange(start, opt.i32) then I32
    else if InRange(start, opt.i64) then I64
    else if InRange(start, opt.f32) then F32
    else if InRange(start, opt.f64) then F64
    else V128
  }

  /** Every type of a mixed segment uses the range of the first. */
  predicate SameRange(opt: PerType<Range>, types: seq<ValType>)
  {
    forall i :: 0 <= i < |types| ==> opt.At(types[i]) == opt.At(types[0])
  }

  /**
   * `manipulate::spill_stacktop_to_operand_stack<Opt, StartPos, Count>`:
   * nothing for `Count == 0`; otherwise the range is the one range holding
   * `StartPos` and every value has that range's type.
   */
  method SpillUntyped(regs: Regs, opt: PerType<Range>, start: nat, count: nat)
    requires count > 0 ==> HitCount(opt, start) == 1
    requires count > 0 ==> SegmentOk(opt.At(HitType(opt, start)), start, count, |regs.slots|)
    requires count > 0 ==> Typed(regs.slots, opt.At(HitType(opt, start)), start, Repeat(HitType(opt, start), count))
    requires count > 0 ==> regs.sp + Size(HitType(opt, start)) * count <= regs.buf.Length
    modifies regs, regs.buf
    ensures regs.slots == old(regs.slots) && regs.ip == old(regs.ip)
    ensures count == 0 ==> regs.sp == old(regs.sp) && regs.buf[..] == old(regs.buf[..])
    ensures count > 0 ==> regs.sp == old(regs.sp) + Size(HitType(opt, start)) * count
    ensures count > 0 ==>
      var t := HitType(opt, start);
      |Image(regs.slots, opt.At(t), start, count)| == Size(t) * count
      && regs.buf[..] == Overwrite(old(regs.buf[..]), old(regs.sp), Image(regs.slots, opt.At(t), start, count))
  {
    if count == 0 {
      return;
    }
    var t := HitType(opt, start);
    RepeatSize(t, count, count);
    Spill(regs, opt.At(t), start, Repeat(t, count));
  }

  /** The typed overload: the range of `ValType`, which must be enabled. */
  method SpillTyped(regs: Regs, opt: PerType<Range>, start: nat, count: nat, t: ValType)
    requires count > 0 ==> Enabled(opt.At(t)) && SegmentOk(opt.At(t), start, count, |regs.slots|)
    requires count > 0 ==> Typed(regs.slots, opt.At(t), start, Repeat(t, count))
    requires count > 0 ==> regs.sp + Size(t) * count <= regs.buf.Length
    modifies regs, regs.buf
    ensures regs.slots == old(regs.slots) && regs.ip == old(regs.ip)
    ensures regs.sp == old(regs.sp) + Size(t) * count
    ensures count == 0 ==> regs.buf[..] == old(regs.buf[..])
    ensures count > 0 ==>
      |Image(regs.slots, opt.At(t), start, count)| == Size(t) * count
      && regs.buf[..] == Overwrite(old(regs.buf[..]), old(regs.sp), Image(regs.slots, opt.At(t), start, count))
  {
    if count == 0 {
      return;
    }
    RepeatSize(t, count, count);
    Spill(regs, opt.At(t), start, Repeat(t, count));
  }

  /**
   * The mixed overload: a type list in ring order from `StartPos`, all in
   * the range of the first type, no longer than the ring.
   */
  method SpillMixed(regs: Regs, opt: PerType<Range>, start: nat, types: seq<ValType>)
    requires |types| > 0 && Enabled(opt.At(types[0])) && SameRange(opt, types)
    requires SegmentOk(opt.At(types[0]), start, |types|, |regs.slots|)
    requires Typed(regs.slots, opt.At(types[0]), start, types)
    requires regs.sp + TotalSize(types) <= regs.buf.Length
    modifies regs, regs.buf
    ensures regs.slots == old(regs.slots) && regs.ip == old(regs.ip)
    ensures regs.sp == old(regs.sp) + TotalSize(types)
    ensures |Image(regs.slots, opt.At(types[0]), start, |types|)| == TotalSize(types)
    ensures regs.buf[..] == Overwrite(old(regs.buf[..]), old(regs.sp), Image(regs.slots, opt.At(types[0]), start, |types|))
  {
    Spill(regs, opt.At(types[0]), start, types);
  }

  /** `manipulate::operand_stack_to_stacktop<Opt, StartPos, Count>`, the inverse of `SpillUntyped`. */
  method FillUntyped(regs: Regs, opt: PerType<Range>, start: nat, count: nat)
    requires count > 0 ==> HitCount(opt, start) == 1
    requires count > 0 ==> SegmentOk(opt.At(HitType(opt, start)), start, count, |regs.slots|)
    requires count > 0 ==> Size(HitType(opt, start)) * count <= regs.sp <= regs.buf.Length
    modifies regs
    ensures regs.ip == old(regs.ip)
    ensures count == 0 ==> regs.sp == old(regs.sp) && regs.slots == old(regs.slots)
    ensures count > 0 ==> TotalSize(Repeat(HitType(opt, start), count)) == Size(HitType(opt, start)) * count
    ensures count > 0 ==>
      var t := HitType(opt, start);
      && regs.sp == old(regs.sp) - Size(t) * count
      && regs.slots == FillSpec(old(regs.slots), regs.buf[regs.sp..old(regs.sp)], opt.At(t), start, Repeat(t, count), count)
  {
    if count == 0 {
      return;
    }
    var t := HitType(opt, start);
    RepeatSize(t, count, count);
    Fill(regs, opt.At(t), start, Repeat(t, count));
  }

  /** The typed fill overload. */
  method FillTyped(regs: Regs, opt: PerType<Range>, start: nat, count: nat, t: ValType)
    requires count > 0 ==> Enabled(opt.At(t)) && SegmentOk(opt.At(t), start, count, |regs.slots|)
    requires Size(t) * count <= regs.sp <= regs.buf.Length
    modifies regs
    ensures regs.ip == old(regs.ip)
    ensures regs.sp == old(regs.sp) - Size(t) * count
    ensures count == 0 ==> regs.slots == old(regs.slots)
    ensures TotalSize(Repeat(t, count)) == Size(t) * count
    ensures count > 0 ==>
      regs.slots == FillSpec(old(regs.slots), regs.buf[regs.sp..old(regs.sp)], opt.At(t), start, Repeat(t, count), count)
  {
    RepeatSize(t, count, count);
    if count == 0 {
      return;
    }
    Fill(regs, opt.At(t), start, Repeat(t, count));
  }

  /** The mixed fill overload: the deepest type is the last of the list. */
  method FillMixed(regs: Regs, opt: PerType<Range>, start: nat, types: seq<ValType>)
    requires |types| > 0 && Enabled(opt.At(types[0])) && SameRange(opt, types)
    requires SegmentOk(opt.At(types[0]), start, |types|, |regs.slots|)
    requires TotalSize(types) <= regs.sp <= regs.buf.Length
    modifies regs
    ensures regs.ip == old(regs.ip)
    ensures regs.sp == old(regs.sp) - TotalSize(types)
    ensures regs.slots == FillSpec(old(regs.slots), regs.buf[regs.sp..old(regs.sp)], opt.At(types[0]), start, types, |types|)
  {
    Fill(regs, opt.At(types[0]), start, types);
  }

  /** `uwvmint_stacktop_to_operand_stack`: spill, then step over the opfunc pointer. */
  method StackTopToOperandStack(regs: Regs, opt: PerType<Range>, start: nat, count: nat)
    requires count > 0 ==> HitCount(opt, start) == 1
    requires count > 0 ==> SegmentOk(opt.At(HitType(opt, start)), start, count, |regs.slots|)
    requires count > 0 ==> Typed(regs.slots, opt.At(HitType(opt, start)), start, Repeat(HitType(opt, start), count))
    requires count > 0 ==> regs.sp + Size(HitType(opt, start)) * count <= regs.buf.Length
    modifies regs, regs.buf
    ensures regs.slots == old(regs.slots) && regs.ip == old(regs.ip) + OpfuncBytes
    ensures count == 0 ==> regs.sp == old(regs.sp) && regs.buf[..] == old(regs.buf[..])
    ensures count > 0 ==> regs.sp == old(regs.sp) + Size(HitType(opt, start)) * count
    ensures count > 0 ==>
      var t := HitType(opt, start);
      |Image(regs.slots, opt.At(t), start, count)| == Size(t) * count
      && regs.buf[..] == Overwrite(old(regs.buf[..]), old(regs.sp), Image(regs.slots, opt.At(t), start, count))
  {
    SpillUntyped(regs, opt, start, count);
    regs.SkipOpfunc();
  }

  /** `uwvmint_operand_stack_to_stacktop`: fill, then step over the opfunc pointer. */
  method OperandStackToStackTop(regs: Regs, opt: PerType<Range>, start: nat, count: nat)
    requires count > 0 ==> HitCount(opt, start) == 1
    requires count > 0 ==> SegmentOk(opt.At(HitType(opt, start)), start, count, |regs.slots|)
    requires count > 0 ==> Size(HitType(opt, start)) * count <= regs.sp <= regs.buf.Length
    modifies regs
    ensures regs.ip == old(regs.ip) + OpfuncBytes
    ensures count == 0 ==> regs.sp == old(regs.sp) && regs.slots == old(regs.slots)
    ensures count > 0 ==> TotalSize(Repeat(HitType(opt, start), count)) == Size(HitType(opt, start)) * count
    ensures count > 0 ==>
      var t := HitType(opt, start);
      && regs.sp == old(regs.sp) - Size(t) * count
      && regs.slots == FillSpec(old(regs.slots), regs.buf[regs.sp..old(regs.sp)], opt.At(t), start, Repeat(t, count), count)
  {
    FillUntyped(regs, opt, start, count);
    regs.SkipOpfunc();
  }

  // ---------------------------------------------------------------------
  // Runtime selection of a spill/fill opfunc
  // ---------------------------------------------------------------------

  /** A spill or fill opfunc instantiation: its `StartPos` and `Count`. */
  datatype Segment = Segment(start: nat, count: nat)

  /**
   * `get_..._fptr_count_impl<StartPos, CountCurr, CountEnd>`: try the counts
   * `curr, curr + 1, ...` below `last`; running past them terminates.
   */
  function ScanCount(curr: nat, last: nat, count: nat): (found: bool)
    requires curr < last
    ensures found <==> curr <= count < last
    decreases last - curr
  {
    if count == curr then true
    else if curr + 1 < last then ScanCount(curr + 1, last, count)
    else false
  }

  /**
   * `get_..._fptr_startpos_impl<RangeBegin, RangeEnd, StartPosCurr>`: try
   * the positions `curr, curr + 1, ...` below `end`, then the counts
   * `1 ..= end - begin`.
   */
  function ScanStart(begin: nat, end: nat, curr: nat, start: nat, count: nat): (found: bool)
    requires begin <= curr < end
    ensures found <==> curr <= start < end && 1 <= count <= end - begin
    decreases end - curr
  {
    if start == curr then ScanCount(1, end - begin + 1, count)
    else if curr + 1 < end then ScanStart(begin, end, curr + 1, start, count)
    else false
  }

  /**
   * `get_uwvmint_stacktop_to_operand_stack_fptr<ValType>` and
   * `get_uwvmint_operand_stack_to_stacktop_fptr<ValType>` (both select the
   * same way): the opfunc for the type's current position and remaining
   * count, or `None` where the selector terminates.
   */
  function Select(opt: PerType<Range>, st: State, t: ValType): (s: Option<Segment>)
    ensures s.Some? <==>
      Enabled(opt.At(t)) && st.remain.At(t) != 0 && InRange(st.currpos.At(t), opt.At(t))
      && st.remain.At(t) <= opt.At(t).end - opt.At(t).begin
    ensures s.Some? ==> s.value == Segment(st.currpos.At(t), st.remain.At(t))
  {
    var r := opt.At(t);
    var count := st.remain.At(t);
    var start := st.currpos.At(t);
    if !Enabled(r) then None
    else if count == 0 then None
    else if start < r.begin || start >= r.end then None
    else if ScanStart(r.begin, r.end, r.begin, start, count) then Some(Segment(start, count))
    else None
  }

  /** A selected segment passes the checks of the spill and fill it names. */
  lemma SelectedSegmentOk(opt: PerType<Range>, cur: PerType<nat>, argc: nat, st: State, t: ValType)
    requires LayoutValid(opt, cur, argc) && Select(opt, st, t).Some?
    ensures var seg := Select(opt, st, t).value;
      seg.count > 0 && SegmentOk(opt.At(t), seg.start, seg.count, argc)
  {
    assert RangeOk(opt.At(t), cur.At(t), argc);
  }
}
