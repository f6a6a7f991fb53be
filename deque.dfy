/**
 * fast_io's block deque. Elements live in fixed-size blocks reached through
 * a controller array of block pointers; the slots `[start_reserved,
 * after_reserved)` of that array hold the blocks the deque owns. The model
 * keeps those reserved blocks as a sequence and the front and back
 * positions as cursors (block index relative to the first reserved slot,
 * offset inside the block), so a block's `begin` is offset 0 and its `end`
 * is offset `bs`. The elements are the blocks laid end to end, cut between
 * the two cursors.
 */
module BlockDeque {
  import opened Arith

  /** The block size the sizing rule aims for, `1 << 12` bytes. */
  const BlockBytes: nat := 4096

  /**
   * `deque_block_size<sz>`: elements per block for elements of `sz` bytes.
   * Small elements fill one 4096-byte page as far as whole elements go;
   * elements larger than 256 bytes come sixteen to a block.
   */
  function BlockSize(sz: nat): (bs: nat)
    requires 0 < sz
    ensures 16 <= bs
    ensures sz <= BlockBytes / 16 ==> sz * bs <= BlockBytes < sz * (bs + 1)
    ensures BlockBytes / 16 < sz ==> bs == 16
  {
    if sz <= BlockBytes / 16 then
      PageQuotient(sz);
      BlockBytes / sz
    else
      16
  }

  lemma PageQuotient(sz: nat)
    requires 0 < sz <= BlockBytes / 16
    ensures 16 <= BlockBytes / sz
    ensures sz * (BlockBytes / sz) <= BlockBytes < sz * (BlockBytes / sz + 1)
  {
    var bs := BlockBytes / sz;
    assert BlockBytes == sz * bs + BlockBytes % sz;
    if bs < 16 {
      MulMonotone(bs, 15, sz);
    }
  }

  /** A position: a block index (relative to the first reserved slot) and an offset in it. */
  datatype Cursor = Cursor(block: int, curr: int)

  /** Where a cursor falls when the blocks are laid end to end. */
  function Offset(bs: nat, c: Cursor): int
  {
    bs * c.block + c.curr
  }

  /** The end of block `k` and the begin of block `k + 1` are the same position. */
  lemma OffsetNextBlock(bs: nat, k: int)
    ensures Offset(bs, Cursor(k + 1, 0)) == Offset(bs, Cursor(k, bs))
  {
    assert bs * (k + 1) == bs * k + bs;
  }

  /** Moving a cursor `d` blocks on moves its position `d` blocks on. */
  lemma OffsetMoveBlock(bs: nat, c: Cursor, d: int)
    ensures Offset(bs, Cursor(c.block + d, c.curr)) == Offset(bs, c) + bs * d
  {
    assert bs * (c.block + d) == bs * c.block + bs * d;
  }

  /** Every block holds exactly `bs` slots. */
  ghost predicate Uniform<T>(bl: seq<seq<T>>, bs: nat)
  {
    forall k :: 0 <= k < |bl| ==> |bl[k]| == bs
  }

  /** The blocks laid end to end. */
  ghost function Flatten<T>(bl: seq<seq<T>>): seq<T>
  {
    if bl == [] then [] else bl[0] + Flatten(bl[1..])
  }

  lemma {:induction false} FlattenLength<T>(bl: seq<seq<T>>, bs: nat)
    requires Uniform(bl, bs)
    ensures |Flatten(bl)| == bs * |bl|
  {
    if bl != [] {
      FlattenLength(bl[1..], bs);
    }
  }

  lemma {:induction false} FlattenAppend<T>(bl: seq<seq<T>>, nb: seq<T>)
    ensures Flatten(bl + [nb]) == Flatten(bl) + nb
  {
    if bl == [] {
      assert bl + [nb] == [nb];
      assert Flatten([nb]) == nb + Flatten([nb][1..]);
    } else {
      assert (bl + [nb])[1..] == bl[1..] + [nb];
      FlattenAppend(bl[1..], nb);
    }
  }

  lemma FlattenPrepend<T>(nb: seq<T>, bl: seq<seq<T>>)
    ensures Flatten([nb] + bl) == nb + Flatten(bl)
  {
    assert ([nb] + bl)[1..] == bl;
  }

  /** Slot `j` of block `k` is element `bs * k + j` of the flattened blocks. */
  lemma {:induction false} FlattenAt<T>(bl: seq<seq<T>>, bs: nat, k: int, j: int)
    requires Uniform(bl, bs) && 0 <= k < |bl| && 0 <= j < bs
    ensures bs * k + j < |Flatten(bl)|
    ensures Flatten(bl)[bs * k + j] == bl[k][j]
    decreases k
  {
    FlattenLength(bl, bs);
    MulMonotone(k + 1, |bl|, bs);
    if k > 0 {
      FlattenAt(bl[1..], bs, k - 1, j);
      assert bs * k + j == bs + (bs * (k - 1) + j);
    }
  }

  /** Writing one slot of one block writes one element of the flattened blocks. */
  lemma {:induction false} FlattenUpdate<T>(bl: seq<seq<T>>, bs: nat, k: int, j: int, x: T)
    requires Uniform(bl, bs) && 0 <= k < |bl| && 0 <= j < bs
    ensures Uniform(bl[k := bl[k][j := x]], bs)
    ensures bs * k + j < |Flatten(bl)|
    ensures Flatten(bl[k := bl[k][j := x]]) == Flatten(bl)[bs * k + j := x]
    decreases k
  {
    FlattenAt(bl, bs, k, j);
    var bl' := bl[k := bl[k][j := x]];
    if k == 0 {
      assert bl'[1..] == bl[1..];
      var rest := Flatten(bl[1..]);
      assert bl[0][j := x] + rest == (bl[0] + rest)[j := x];
    } else {
      assert bl'[1..] == bl[1..][k - 1 := bl[k][j := x]];
      FlattenUpdate(bl[1..], bs, k - 1, j, x);
      assert bs * k + j == bs + (bs * (k - 1) + j);
      var head := bl[0];
      var rest := Flatten(bl[1..]);
      assert head + rest[bs * (k - 1) + j := x] == (head + rest)[bs * k + j := x];
    }
  }

  /** A slice inside the first part of a concatenation. */
  lemma SliceOfPrefix<T>(s: seq<T>, t: seq<T>, lo: int, hi: int)
    requires 0 <= lo <= hi <= |s|
    ensures (s + t)[lo..hi] == s[lo..hi]
  {
  }

  /** A slice inside the second part of a concatenation. */
  lemma SliceOfSuffix<T>(s: seq<T>, t: seq<T>, lo: int, hi: int)
    requires |s| <= lo <= hi <= |s| + |t|
    ensures (s + t)[lo..hi] == t[lo - |s|..hi - |s|]
  {
  }

  /** A new block after the last one leaves every earlier position as it was. */
  lemma AppendSlice<T>(bl: seq<seq<T>>, bs: nat, nb: seq<T>, lo: int, hi: int)
    requires Uniform(bl, bs) && |nb| == bs && 0 <= lo <= hi <= |Flatten(bl)|
    ensures Uniform(bl + [nb], bs)
    ensures |Flatten(bl + [nb])| == |Flatten(bl)| + bs
    ensures Flatten(bl + [nb])[lo..hi] == Flatten(bl)[lo..hi]
  {
    FlattenAppend(bl, nb);
    SliceOfPrefix(Flatten(bl), nb, lo, hi);
  }

  /** A new block before the first one moves every position up by one block. */
  lemma PrependSlice<T>(bl: seq<seq<T>>, bs: nat, nb: seq<T>, lo: int, hi: int)
    requires Uniform(bl, bs) && |nb| == bs && 0 <= lo <= hi <= |Flatten(bl)|
    ensures Uniform([nb] + bl, bs)
    ensures |Flatten([nb] + bl)| == bs + |Flatten(bl)|
    ensures Flatten([nb] + bl)[lo + bs..hi + bs] == Flatten(bl)[lo..hi]
  {
    FlattenPrepend(nb, bl);
    SliceOfSuffix(nb, Flatten(bl), lo + bs, hi + bs);
  }

  /** Moving the first block behind the last moves every later position down by one block. */
  lemma RotateSlice<T>(bl: seq<seq<T>>, bs: nat, lo: int, hi: int)
    requires Uniform(bl, bs) && 0 < |bl| && bs <= lo <= hi <= |Flatten(bl)|
    ensures Uniform(bl[1..] + [bl[0]], bs)
    ensures |Flatten(bl[1..] + [bl[0]])| == |Flatten(bl)|
    ensures Flatten(bl[1..] + [bl[0]])[lo - bs..hi - bs] == Flatten(bl)[lo..hi]
  {
    var head, rest := bl[0], Flatten(bl[1..]);
    FlattenAppend(bl[1..], head);
    assert Flatten(bl) == head + rest;
    SliceOfSuffix(head, rest, lo, hi);
    SliceOfPrefix(rest, head, lo - bs, hi - bs);
  }

  /** Moving the last block in front of the first moves every earlier position up by one block. */
  lemma UnrotateSlice<T>(bl: seq<seq<T>>, bs: nat, lo: int, hi: int)
    requires Uniform(bl, bs) && 0 < |bl| && 0 <= lo <= hi && hi + bs <= |Flatten(bl)|
    ensures Uniform([bl[|bl| - 1]] + bl[..|bl| - 1], bs)
    ensures |Flatten([bl[|bl| - 1]] + bl[..|bl| - 1])| == |Flatten(bl)|
    ensures Flatten([bl[|bl| - 1]] + bl[..|bl| - 1])[lo + bs..hi + bs] == Flatten(bl)[lo..hi]
  {
    var pre, last := bl[..|bl| - 1], bl[|bl| - 1];
    assert bl == pre + [last];
    FlattenAppend(pre, last);
    FlattenPrepend(last, pre);
    var fp := Flatten(pre);
    SliceOfSuffix(last, fp, lo + bs, hi + bs);
    SliceOfPrefix(fp, last, lo, hi);
  }

  lemma SliceUpdateSnoc<T>(s: seq<T>, lo: int, hi: int, x: T)
    requires 0 <= lo <= hi < |s|
    ensures s[hi := x][lo..hi + 1] == s[lo..hi] + [x]
  {
    assert s[hi := x][lo..hi + 1] == s[hi := x][lo..hi] + [x];
  }

  lemma SliceUpdateCons<T>(s: seq<T>, lo: int, hi: int, x: T)
    requires 0 < lo <= hi <= |s|
    ensures s[lo - 1 := x][lo - 1..hi] == [x] + s[lo..hi]
  {
    assert s[lo - 1 := x][lo - 1..hi] == [x] + s[lo - 1 := x][lo..hi];
  }

  /** Cursors in order lie in order on the flattened blocks; strict ones differ whenever they are apart. */
  lemma CursorsInRange(bs: nat, n: int, f: Cursor, b: Cursor)
    requires 0 < bs && 0 <= f.block <= b.block < n
    requires 0 <= f.curr <= bs && 0 <= b.curr <= bs
    requires f.block == b.block ==> f.curr <= b.curr
    ensures 0 <= Offset(bs, f) <= Offset(bs, b) <= bs * n
    ensures f.block < b.block && f.curr < bs && 0 < b.curr ==> Offset(bs, f) < Offset(bs, b)
  {
    BlockEndWithin(bs, b.block, n);
    assert 0 <= bs * f.block;
    if f.block < b.block {
      BlockEndWithin(bs, f.block, b.block);
    }
  }

  /** The end of block `k` is no further than the begin of any later block `n`. */
  lemma BlockEndWithin(bs: nat, k: int, n: int)
    requires k < n
    ensures bs * k + bs <= bs * n
  {
    assert bs * n - (bs * k + bs) == bs * (n - k - 1);
    assert 0 <= bs * (n - k - 1);
  }

  /** Element `off` past the begin of block `base` is slot `off % bs` of block `base + off / bs`. */
  lemma {:induction false} SlotOf<T>(bl: seq<seq<T>>, bs: nat, base: int, off: int)
    requires Uniform(bl, bs) && 0 < bs && 0 <= base && 0 <= off
    requires bs * base + off < |Flatten(bl)|
    ensures 0 <= off / bs && base + off / bs < |bl| && 0 <= off % bs < bs
    ensures Flatten(bl)[bs * base + off] == bl[base + off / bs][off % bs]
    decreases off
  {
    if off < bs {
      SlotInBlock(bl, bs, base, off);
    } else {
      ModShift(off - bs, 1, bs);
      OffsetMoveBlock(bs, Cursor(base, off - bs), 1);
      SlotOf(bl, bs, base + 1, off - bs);
    }
  }

  lemma SlotInBlock<T>(bl: seq<seq<T>>, bs: nat, base: int, off: int)
    requires Uniform(bl, bs) && 0 <= base && 0 <= off < bs
    requires bs * base + off < |Flatten(bl)|
    ensures off / bs == 0 && base < |bl| && off % bs == off
    ensures Flatten(bl)[bs * base + off] == bl[base][off]
  {
    DivModUnique(off, bs, 0, off);
    FlattenLength(bl, bs);
    if |bl| <= base {
      MulMonotone(|bl|, base, bs);
    }
    FlattenAt(bl, bs, base, off);
  }

  /**
   * The back cursor after `pop_back_unchecked`: one slot back; when that is
   * the block's begin and the front is in another block, `back_backspace`
   * moves to the end of the previous block. Stays inside the deque and
   * drops exactly one position.
   */
  function BackAfterPop(bs: nat, front: Cursor, back: Cursor): (r: Cursor)
    requires 0 < bs && front.block <= back.block && 0 <= front.curr <= bs && 0 < back.curr <= bs
    requires front.block == back.block ==> front.curr < back.curr
    ensures Offset(bs, r) == Offset(bs, back) - 1
    ensures front.block <= r.block <= back.block && 0 <= r.curr <= bs
    ensures front.block == r.block ==> front.curr <= r.curr
    ensures front.block < r.block ==> 0 < r.curr
  {
    var b := back.(curr := back.curr - 1);
    if b.curr == 0 && b.block != front.block then
      OffsetNextBlock(bs, b.block - 1);
      Cursor(b.block - 1, bs)
    else
      b
  }

  /**
   * `pop_back_unchecked` as written: `back_backspace` runs whenever the back
   * reaches its block's begin, even when the front is in the same block.
   */
  function BackAfterPopAsWritten(bs: nat, back: Cursor): (r: Cursor)
    ensures Offset(bs, r) == Offset(bs, back) - 1
  {
    var b := back.(curr := back.curr - 1);
    if b.curr == 0 then
      OffsetNextBlock(bs, b.block - 1);
      Cursor(b.block - 1, bs)
    else
      b
  }

  /**
   * Popping the last element of a block whose front sits at the block's
   * begin: as written the back moves to the end of the block before, behind
   * the front, so the emptiness test (equal cursors) fails while the size
   * formula already gives zero. The guarded version leaves both cursors
   * equal.
   */
  lemma BackAfterPopAsWrittenPassesFront(bs: nat, front: Cursor, back: Cursor)
    requires 0 < bs && front.block == back.block && front.curr == 0 && back.curr == 1
    ensures BackAfterPopAsWritten(bs, back).block == front.block - 1
    ensures Offset(bs, BackAfterPopAsWritten(bs, back)) == Offset(bs, front)
    ensures BackAfterPopAsWritten(bs, back) != front
    ensures BackAfterPop(bs, front, back) == front
  {
  }

  /**
   * The front cursor after `pop_front_unchecked`: one slot on; when that is
   * the block's end and the back is in another block, `front_backspace`
   * moves to the begin of the next block.
   */
  function FrontAfterPop(bs: nat, front: Cursor, back: Cursor): (r: Cursor)
    requires 0 < bs && front.block <= back.block && 0 <= front.curr < bs && 0 <= back.curr <= bs
    requires front.block == back.block ==> front.curr < back.curr
    ensures Offset(bs, r) == Offset(bs, front) + 1
    ensures front.block <= r.block <= back.block && 0 <= r.curr <= bs
    ensures r.block == back.block ==> r.curr <= back.curr
    ensures r.block < back.block ==> r.curr < bs
  {
    var f := front.(curr := front.curr + 1);
    if f.curr == bs && f.block != back.block then
      OffsetNextBlock(bs, f.block);
      Cursor(f.block + 1, 0)
    else
      f
  }

  /** An iterator's pointers: its controller slot, its block's begin and its current element, as addresses in elements. */
  datatype Iter = Iter(slot: int, begin: int, curr: int)

  /** `deque_iter_difference_common` as written: the first term subtracts `b`'s begin from `a`'s current pointer. */
  function IterDifferenceAsWritten(bs: nat, a: Iter, b: Iter): (d: int)
    ensures d == IterDifference(bs, a, b) + (a.begin - b.begin)
  {
    (a.slot - b.slot) * bs + (a.curr - b.begin) + (b.begin - b.curr)
  }

  /** The iterator difference with `a`'s offset measured from `a`'s own block: the distance between the two positions. */
  function IterDifference(bs: nat, a: Iter, b: Iter): (d: int)
    ensures d == Offset(bs, Cursor(a.slot, a.curr - a.begin)) - Offset(bs, Cursor(b.slot, b.curr - b.begin))
  {
    (a.slot - b.slot) * bs + (a.curr - a.begin) + (b.begin - b.curr)
  }

  /**
   * Two iterators into different blocks at different addresses: the end of
   * block 1 (16 elements on) and the begin of block 0. As written the
   * difference also counts the distance between the two allocations.
   */
  lemma IterDifferenceAsWrittenCountsBlockGap()
    ensures IterDifference(16, Iter(1, 1000, 1016), Iter(0, 0, 0)) == 32
    ensures IterDifferenceAsWritten(16, Iter(1, 1000, 1016), Iter(0, 0, 0)) == 1032
  {
  }

  /** Within one block the two formulas agree. */
  lemma IterDifferenceSameBlock(bs: nat, a: Iter, b: Iter)
    requires a.begin == b.begin
    ensures IterDifferenceAsWritten(bs, a, b) == IterDifference(bs, a, b)
  {
  }

  /**
   * The byte offset of the middle of a new or cleared block on the run-time
   * path, as written: half of the block's bytes, `(sz * bs) >> 1`.
   */
  function MidBytesAsWritten(sz: nat): (m: nat)
    requires 0 < sz
    ensures 2 * m <= sz * BlockSize(sz) < 2 * m + 2
  {
    (sz * BlockSize(sz)) / 2
  }

  /** The middle of a block rounded to a whole element: `sz * (bs / 2)`. */
  function MidBytes(sz: nat): (m: nat)
    requires 0 < sz
    ensures m % sz == 0 && m <= sz * BlockSize(sz)
    ensures m + sz * (BlockSize(sz) - BlockSize(sz) / 2) == sz * BlockSize(sz)
  {
    var bs := BlockSize(sz);
    assert sz * (bs / 2) + sz * (bs - bs / 2) == sz * bs;
    MulMonotone(bs / 2, bs, sz);
    ModShift(0, bs / 2, sz);
    sz * (bs / 2)
  }

  /**
   * Twelve-byte elements: 341 per block, 4092 bytes. As written the middle
   * is at byte 2046, half an element, and no number of whole-element
   * pushes from there lands on the block's end, so the back's end test
   * never fires.
   */
  lemma MidBytesAsWrittenMisaligned()
    ensures BlockSize(12) == 341
    ensures MidBytesAsWritten(12) == 2046 && MidBytesAsWritten(12) % 12 == 6
    ensures forall k: int :: MidBytesAsWritten(12) + 12 * k != 12 * BlockSize(12)
  {
  }

  /** When a block holds an even number of elements both midpoints agree. */
  lemma MidBytesAgreeOnEvenBlocks(sz: nat)
    requires 0 < sz && BlockSize(sz) % 2 == 0
    ensures MidBytesAsWritten(sz) == MidBytes(sz)
  {
    var bs := BlockSize(sz);
    assert bs == 2 * (bs / 2);
    assert sz * bs == 2 * (sz * (bs / 2));
  }

  /** The size formula of `size()` is the distance between the two cursors. */
  lemma OffsetDistance(bs: nat, f: Cursor, b: Cursor)
    ensures bs * (b.block - f.block) + b.curr - f.curr == Offset(bs, b) - Offset(bs, f)
  {
    assert bs * (b.block - f.block) == bs * b.block - bs * f.block;
  }

  /** `size()`'s formula counts the elements between two cursors in order. */
  lemma SizeFormula<T>(bs: nat, bl: seq<seq<T>>, f: Cursor, b: Cursor)
    requires InOrder(bs, bl, f, b)
    ensures 0 <= bs * (b.block - f.block) + b.curr - f.curr == |Between(bs, bl, f, b)|
  {
    CursorsInRange(bs, |bl|, f, b);
    OffsetDistance(bs, f, b);
  }

  /** Both cursors inside the blocks, the front not after the back. */
  ghost predicate InOrder<T>(bs: nat, bl: seq<seq<T>>, f: Cursor, b: Cursor)
  {
    0 < bs && Uniform(bl, bs) &&
    0 <= f.block <= b.block < |bl| && 0 <= f.curr <= bs && 0 <= b.curr <= bs &&
    (f.block == b.block ==> f.curr <= b.curr)
  }

  /** A front in an earlier block than the back is not at its block's end, and the back not at its block's begin. */
  predicate Tight(bs: nat, f: Cursor, b: Cursor)
  {
    f.block < b.block ==> f.curr < bs && 0 < b.curr
  }

  /** The elements from the front cursor up to the back cursor. */
  ghost function Between<T>(bs: nat, bl: seq<seq<T>>, f: Cursor, b: Cursor): (s: seq<T>)
    requires InOrder(bs, bl, f, b)
    ensures |s| == Offset(bs, b) - Offset(bs, f)
  {
    CursorsInRange(bs, |bl|, f, b);
    FlattenLength(bl, bs);
    Flatten(bl)[Offset(bs, f)..Offset(bs, b)]
  }

  /**
   * For tight cursors, equal cursors are exactly the empty range, and a
   * non-empty range has an element at the front and one before the back
   * in their own blocks.
   */
  lemma TightBetween<T>(bs: nat, bl: seq<seq<T>>, f: Cursor, b: Cursor)
    requires InOrder(bs, bl, f, b) && Tight(bs, f, b)
    ensures f == b <==> Between(bs, bl, f, b) == []
    ensures Between(bs, bl, f, b) != [] ==>
              f.curr < bs && 0 < b.curr && (f.block == b.block ==> f.curr < b.curr)
  {
    CursorsInRange(bs, |bl|, f, b);
  }

  lemma BetweenFirst<T>(bs: nat, bl: seq<seq<T>>, f: Cursor, b: Cursor)
    requires InOrder(bs, bl, f, b) && f.curr < bs && Offset(bs, f) < Offset(bs, b)
    ensures Between(bs, bl, f, b)[0] == bl[f.block][f.curr]
  {
    CursorsInRange(bs, |bl|, f, b);
    FlattenLength(bl, bs);
    FlattenAt(bl, bs, f.block, f.curr);
    assert Between(bs, bl, f, b)[0] == Flatten(bl)[Offset(bs, f)];
  }

  lemma BetweenLast<T>(bs: nat, bl: seq<seq<T>>, f: Cursor, b: Cursor)
    requires InOrder(bs, bl, f, b) && 0 < b.curr && Offset(bs, f) < Offset(bs, b)
    ensures Between(bs, bl, f, b)[|Between(bs, bl, f, b)| - 1] == bl[b.block][b.curr - 1]
  {
    CursorsInRange(bs, |bl|, f, b);
    FlattenLength(bl, bs);
    FlattenAt(bl, bs, b.block, b.curr - 1);
  }

  /** Element `i` is slot `(f.curr + i) % bs` of the block `(f.curr + i) / bs` past the front's. */
  lemma BetweenAt<T>(bs: nat, bl: seq<seq<T>>, f: Cursor, b: Cursor, i: int)
    requires InOrder(bs, bl, f, b) && 0 <= i < Offset(bs, b) - Offset(bs, f)
    ensures 0 <= f.block + (f.curr + i) / bs < |bl| && 0 <= (f.curr + i) % bs < bs
    ensures Between(bs, bl, f, b)[i] == bl[f.block + (f.curr + i) / bs][(f.curr + i) % bs]
  {
    CursorsInRange(bs, |bl|, f, b);
    FlattenLength(bl, bs);
    SlotOf(bl, bs, f.block, f.curr + i);
  }

  /** Writing the slot under a back that is not at its block's end, then stepping the back, appends. */
  lemma WriteBack<T>(bs: nat, bl: seq<seq<T>>, f: Cursor, b: Cursor, x: T)
    requires InOrder(bs, bl, f, b) && b.curr < bs
    ensures InOrder(bs, bl[b.block := bl[b.block][b.curr := x]], f, b.(curr := b.curr + 1))
    ensures Between(bs, bl[b.block := bl[b.block][b.curr := x]], f, b.(curr := b.curr + 1))
         == Between(bs, bl, f, b) + [x]
  {
    CursorsInRange(bs, |bl|, f, b);
    FlattenUpdate(bl, bs, b.block, b.curr, x);
    SliceUpdateSnoc(Flatten(bl), Offset(bs, f), Offset(bs, b), x);
  }

  /** Writing the slot before a front that is not at its block's begin, then stepping the front back, prepends. */
  lemma WriteFront<T>(bs: nat, bl: seq<seq<T>>, f: Cursor, b: Cursor, x: T)
    requires InOrder(bs, bl, f, b) && 0 < f.curr
    ensures InOrder(bs, bl[f.block := bl[f.block][f.curr - 1 := x]], f.(curr := f.curr - 1), b)
    ensures Between(bs, bl[f.block := bl[f.block][f.curr - 1 := x]], f.(curr := f.curr - 1), b)
         == [x] + Between(bs, bl, f, b)
  {
    CursorsInRange(bs, |bl|, f, b);
    FlattenLength(bl, bs);
    FlattenUpdate(bl, bs, f.block, f.curr - 1, x);
    SliceUpdateCons(Flatten(bl), Offset(bs, f), Offset(bs, b), x);
  }

  lemma AppendBetween<T>(bs: nat, bl: seq<seq<T>>, nb: seq<T>, f: Cursor, b: Cursor)
    requires InOrder(bs, bl, f, b) && |nb| == bs
    ensures InOrder(bs, bl + [nb], f, b)
    ensures Between(bs, bl + [nb], f, b) == Between(bs, bl, f, b)
  {
    CursorsInRange(bs, |bl|, f, b);
    FlattenLength(bl, bs);
    AppendSlice(bl, bs, nb, Offset(bs, f), Offset(bs, b));
  }

  lemma PrependBetween<T>(bs: nat, bl: seq<seq<T>>, nb: seq<T>, f: Cursor, b: Cursor)
    requires InOrder(bs, bl, f, b) && |nb| == bs
    ensures InOrder(bs, [nb] + bl, Cursor(f.block + 1, f.curr), Cursor(b.block + 1, b.curr))
    ensures Between(bs, [nb] + bl, Cursor(f.block + 1, f.curr), Cursor(b.block + 1, b.curr))
         == Between(bs, bl, f, b)
  {
    CursorsInRange(bs, |bl|, f, b);
    FlattenLength(bl, bs);
    OffsetMoveBlock(bs, f, 1);
    OffsetMoveBlock(bs, b, 1);
    PrependSlice(bl, bs, nb, Offset(bs, f), Offset(bs, b));
  }

  lemma RotateBetween<T>(bs: nat, bl: seq<seq<T>>, f: Cursor, b: Cursor)
    requires InOrder(bs, bl, f, b) && 0 < f.block
    ensures InOrder(bs, bl[1..] + [bl[0]], Cursor(f.block - 1, f.curr), Cursor(b.block - 1, b.curr))
    ensures Between(bs, bl[1..] + [bl[0]], Cursor(f.block - 1, f.curr), Cursor(b.block - 1, b.curr))
         == Between(bs, bl, f, b)
  {
    CursorsInRange(bs, |bl|, f, b);
    FlattenLength(bl, bs);
    MulAtLeast(f.block, bs);
    OffsetMoveBlock(bs, f, -1);
    OffsetMoveBlock(bs, b, -1);
    RotateSlice(bl, bs, Offset(bs, f), Offset(bs, b));
  }

  lemma UnrotateBetween<T>(bs: nat, bl: seq<seq<T>>, f: Cursor, b: Cursor)
    requires InOrder(bs, bl, f, b) && b.block + 1 < |bl|
    ensures InOrder(bs, [bl[|bl| - 1]] + bl[..|bl| - 1], Cursor(f.block + 1, f.curr), Cursor(b.block + 1, b.curr))
    ensures Between(bs, [bl[|bl| - 1]] + bl[..|bl| - 1], Cursor(f.block + 1, f.curr), Cursor(b.block + 1, b.curr))
         == Between(bs, bl, f, b)
  {
    CursorsInRange(bs, |bl| - 1, f, b);
    FlattenLength(bl, bs);
    assert bs * (|bl| - 1) + bs == bs * |bl|;
    OffsetMoveBlock(bs, f, 1);
    OffsetMoveBlock(bs, b, 1);
    UnrotateSlice(bl, bs, Offset(bs, f), Offset(bs, b));
  }

  /** A back at its block's end is the same position as the begin of the next block. */
  lemma BackToNextBlock<T>(bs: nat, bl: seq<seq<T>>, f: Cursor, b: Cursor)
    requires InOrder(bs, bl, f, b) && b.curr == bs && b.block + 1 < |bl| && f != b
    ensures InOrder(bs, bl, f, Cursor(b.block + 1, 0))
    ensures Between(bs, bl, f, Cursor(b.block + 1, 0)) == Between(bs, bl, f, b)
  {
    OffsetNextBlock(bs, b.block);
  }

  /** A front at its block's begin is the same position as the end of the block before. */
  lemma FrontToPrevBlock<T>(bs: nat, bl: seq<seq<T>>, f: Cursor, b: Cursor)
    requires InOrder(bs, bl, f, b) && f.curr == 0 && 0 < f.block && f != b
    ensures InOrder(bs, bl, Cursor(f.block - 1, bs), b)
    ensures Between(bs, bl, Cursor(f.block - 1, bs), b) == Between(bs, bl, f, b)
  {
    OffsetNextBlock(bs, f.block - 1);
  }

  /** Popping the back of a non-empty range drops its last element and leaves the cursors tight. */
  lemma PopBackBetween<T>(bs: nat, bl: seq<seq<T>>, f: Cursor, b: Cursor)
    requires InOrder(bs, bl, f, b) && Tight(bs, f, b) && Between(bs, bl, f, b) != []
    ensures InOrder(bs, bl, f, BackAfterPop(bs, f, b)) && Tight(bs, f, BackAfterPop(bs, f, b))
    ensures Between(bs, bl, f, BackAfterPop(bs, f, b))
         == Between(bs, bl, f, b)[..|Between(bs, bl, f, b)| - 1]
  {
    TightBetween(bs, bl, f, b);
    CursorsInRange(bs, |bl|, f, b);
    FlattenLength(bl, bs);
  }

  /** Popping the front of a non-empty range drops its first element and leaves the cursors tight. */
  lemma PopFrontBetween<T>(bs: nat, bl: seq<seq<T>>, f: Cursor, b: Cursor)
    requires InOrder(bs, bl, f, b) && Tight(bs, f, b) && Between(bs, bl, f, b) != []
    ensures InOrder(bs, bl, FrontAfterPop(bs, f, b), b) && Tight(bs, FrontAfterPop(bs, f, b), b)
    ensures Between(bs, bl, FrontAfterPop(bs, f, b), b) == Between(bs, bl, f, b)[1..]
  {
    TightBetween(bs, bl, f, b);
    CursorsInRange(bs, |bl|, f, b);
    FlattenLength(bl, bs);
  }

  /**
   * `fast_io::containers::deque<T>` for elements of `sz` bytes. `blocks`
   * are the reserved blocks; `blocks == []` is the state before the first
   * allocation, where every pointer is null.
   */
  class Deque<T> {
    const sz: nat
    const bs: nat
    var blocks: seq<seq<T>>
    var front: Cursor
    var back: Cursor

    /** Cursors inside the reserved blocks and in order. */
    ghost predicate Shaped()
      reads this
    {
      0 < sz && bs == BlockSize(sz) &&
      if blocks == [] then front == Cursor(0, 0) && back == Cursor(0, 0)
      else InOrder(bs, blocks, front, back)
    }

    /**
     * Between operations the cursors are also tight, so they are equal
     * exactly when the deque is empty.
     */
    ghost predicate Valid()
      reads this
    {
      Shaped() && Tight(bs, front, back)
    }

    /** The elements, front first. */
    ghost function Contents(): seq<T>
      reads this
      requires Shaped()
    {
      if blocks == [] then [] else Between(bs, blocks, front, back)
    }

    constructor(sz: nat)
      requires 0 < sz
      ensures Valid() && Contents() == []
      ensures this.sz == sz && bs == BlockSize(sz) && blocks == []
    {
      this.sz := sz;
      bs := BlockSize(sz);
      blocks := [];
      front := Cursor(0, 0);
      back := Cursor(0, 0);
    }

    /** `size()`: the source's formula over the two cursors is the number of elements. */
    function Size(): (n: nat)
      reads this
      requires Valid()
      ensures n == |Contents()|
    {
      if blocks != [] then
        SizeFormula(bs, blocks, front, back);
        bs * (back.block - front.block) + back.curr - front.curr
      else
        bs * (back.block - front.block) + back.curr - front.curr
    }

    /** `empty()`: the two current pointers are equal. */
    function IsEmpty(): (e: bool)
      reads this
      requires Valid()
      ensures e <==> Contents() == []
    {
      if blocks != [] then
        TightBetween(bs, blocks, front, back);
        front == back
      else
        front == back
    }

    /** `front()`: terminates on an empty deque (`None`), otherwise the first element. */
    function Front(): (r: Option<T>)
      reads this
      requires Valid()
      ensures r.Some? <==> Contents() != []
      ensures r.Some? ==> r.value == Contents()[0]
    {
      if IsEmpty() then None else Some(FrontUnchecked())
    }

    /** `front_unchecked()`: the element under the front cursor. */
    function FrontUnchecked(): (x: T)
      reads this
      requires Valid() && Contents() != []
      ensures x == Contents()[0]
    {
      TightBetween(bs, blocks, front, back);
      BetweenFirst(bs, blocks, front, back);
      blocks[front.block][front.curr]
    }

    /** `back()`: terminates on an empty deque (`None`), otherwise the last element. */
    function Back(): (r: Option<T>)
      reads this
      requires Valid()
      ensures r.Some? <==> Contents() != []
      ensures r.Some? ==> r.value == Contents()[|Contents()| - 1]
    {
      if IsEmpty() then None else Some(BackUnchecked())
    }

    /** `back_unchecked()`: the element just before the back cursor. */
    function BackUnchecked(): (x: T)
      reads this
      requires Valid() && Contents() != []
      ensures x == Contents()[|Contents()| - 1]
    {
      TightBetween(bs, blocks, front, back);
      BetweenLast(bs, blocks, front, back);
      blocks[back.block][back.curr - 1]
    }

    /** `operator[]`: terminates when `i >= size()` (`None`), otherwise element `i`. */
    function At(i: nat): (r: Option<T>)
      reads this
      requires Valid()
      ensures r.Some? <==> i < |Contents()|
      ensures r.Some? ==> r.value == Contents()[i]
    {
      if Size() <= i then None else Some(IndexUnchecked(i))
    }

    /**
     * `index_unchecked(i)`: slot `off % bs` of the block `off / bs` past
     * the front's, where `off` is `i` plus the front's offset in its block.
     */
    function IndexUnchecked(i: nat): (x: T)
      reads this
      requires Valid() && i < |Contents()|
      ensures x == Contents()[i]
    {
      BetweenAt(bs, blocks, front, back, i);
      var off := front.curr + i;
      blocks[front.block + off / bs][off % bs]
    }

    /**
     * `deque_allocate_on_empty_common_impl`: one block in the middle of a
     * fresh controller array, both cursors at its middle element. New
     * storage is uninitialised; the model fills it with `filler`.
     */
    method AllocateOnEmpty(filler: T)
      modifies this
      requires Shaped() && blocks == []
      ensures Valid() && Contents() == []
      ensures |blocks| == 1 && front == back == Cursor(0, bs / 2)
    {
      blocks := [seq(bs, _ => filler)];
      front := Cursor(0, bs / 2);
      back := front;
    }

    /**
     * `deque_grow_back_common_impl`, reached when the back is at its
     * block's end (or nothing is allocated yet). Uses the next reserved
     * block if there is one; otherwise borrows the spare block before the
     * front, or allocates one. The elements stay as they are; the back
     * ends at the begin of the next block, and an empty deque's front,
     * sitting at the same end, moves with it.
     */
    method GrowBack(filler: T)
      modifies this
      requires Valid() && (blocks == [] || back.curr == bs)
      ensures Shaped() && blocks != [] && Contents() == old(Contents())
      ensures back.curr < bs && (front.block < back.block ==> front.curr < bs)
      ensures old(blocks) == [] ==> |blocks| == 1 && front == back == Cursor(0, bs / 2)
      ensures old(blocks) != [] ==> back.curr == 0 && old(|blocks|) <= |blocks| <= old(|blocks|) + 1
      ensures old(blocks) != [] && old(back.block) + 1 < old(|blocks|) ==> blocks == old(blocks)
    {
      if blocks == [] {
        AllocateOnEmpty(filler);
        return;
      }
      if back.block + 1 == |blocks| {
        SpareBlockAtBack(filler);
      }
      var f, b := front, back;
      TightBetween(bs, blocks, f, b);
      if f == b {
        OffsetNextBlock(bs, b.block);
        front := Cursor(b.block + 1, 0);
      } else {
        BackToNextBlock(bs, blocks, f, b);
      }
      back := Cursor(b.block + 1, 0);
    }

    /**
     * The controller-slot step of `deque_grow_back_common_impl` when no
     * reserved block follows the back's: the spare block before the front
     * moves behind the last one, or a new block is added there.
     */
    method SpareBlockAtBack(filler: T)
      modifies this
      requires Valid() && blocks != [] && back.block + 1 == |blocks|
      ensures Valid() && Contents() == old(Contents())
      ensures back.block + 2 == |blocks| && back.curr == old(back.curr)
      ensures front.curr == old(front.curr) && back.block - front.block == old(back.block - front.block)
      ensures |blocks| == old(|blocks|) + (if old(front.block) == 0 then 1 else 0)
    {
      var bl, f, b := blocks, front, back;
      if f.block != 0 {
        RotateBetween(bs, bl, f, b);
        blocks := bl[1..] + [bl[0]];
        front := Cursor(f.block - 1, f.curr);
        back := Cursor(b.block - 1, b.curr);
      } else {
        var nb := seq(bs, _ => filler);
        AppendBetween(bs, bl, nb, f, b);
        blocks := bl + [nb];
      }
    }

    /**
     * `deque_grow_front_common_impl`, reached when the front is at its
     * block's begin (or nothing is allocated yet). Uses the reserved block
     * before the front if there is one; otherwise takes the last reserved
     * block if it is spare, or allocates one, and puts it first. The front
     * ends at the end of the block before. The source's `grow_front` moves
     * only the front: its `back_backspace` never leaves the back cursor at a
     * block's begin. The corrected pop (`BackAfterPop`) can leave an empty
     * deque's back at the front's begin, so here the back moves with the
     * front when the two are equal, which keeps the deque empty.
     */
    method GrowFront(filler: T)
      modifies this
      requires Valid() && (blocks == [] || front.curr == 0)
      ensures Shaped() && blocks != [] && Contents() == old(Contents())
      ensures 0 < front.curr && (front.block < back.block ==> 0 < back.curr)
      ensures old(blocks) == [] ==> |blocks| == 1 && front == back == Cursor(0, bs / 2)
      ensures old(blocks) != [] ==> front.curr == bs && old(|blocks|) <= |blocks| <= old(|blocks|) + 1
      ensures old(blocks) != [] && 0 < old(front.block) ==> blocks == old(blocks)
    {
      if blocks == [] {
        AllocateOnEmpty(filler);
        return;
      }
      if front.block == 0 {
        SpareBlockAtFront(filler);
      }
      var f, b := front, back;
      TightBetween(bs, blocks, f, b);
      if f == b {
        OffsetNextBlock(bs, f.block - 1);
        back := Cursor(f.block - 1, bs);
      } else {
        FrontToPrevBlock(bs, blocks, f, b);
      }
      front := Cursor(f.block - 1, bs);
    }

    /**
     * The controller-slot step of `deque_grow_front_common_impl` when no
     * reserved block precedes the front's: the last reserved block, if it
     * is spare, moves before the first, or a new block is put there.
     */
    method SpareBlockAtFront(filler: T)
      modifies this
      requires Valid() && blocks != [] && front.block == 0
      ensures Valid() && Contents() == old(Contents())
      ensures front.block == 1 && front.curr == old(front.curr)
      ensures back.curr == old(back.curr) && back.block - front.block == old(back.block - front.block)
      ensures |blocks| == old(|blocks|) + (if old(back.block) + 1 < old(|blocks|) then 0 else 1)
    {
      var bl, f, b := blocks, front, back;
      if b.block + 1 < |bl| {
        UnrotateBetween(bs, bl, f, b);
        blocks := [bl[|bl| - 1]] + bl[..|bl| - 1];
      } else {
        var nb := seq(bs, _ => filler);
        PrependBetween(bs, bl, nb, f, b);
        blocks := [nb] + bl;
      }
      front := Cursor(f.block + 1, f.curr);
      back := Cursor(b.block + 1, b.curr);
    }

    /** `emplace_back(x)`: `x` becomes the last element; storage grows only when the back is at its block's end. */
    method EmplaceBack(x: T)
      modifies this
      requires Valid()
      ensures Valid() && Contents() == old(Contents()) + [x]
      ensures old(blocks) != [] && old(back.curr) < bs ==>
                |blocks| == |old(blocks)| && front == old(front) && back == old(back).(curr := old(back.curr) + 1)
      ensures |blocks| <= |old(blocks)| + 1
    {
      if blocks == [] || back.curr == bs {
        GrowBack(x);
      }
      StoreBack(x);
    }

    /** The store step of `emplace_back`: the slot under the back gets `x` and the back steps past it. */
    method StoreBack(x: T)
      modifies this
      requires Shaped() && blocks != [] && back.curr < bs && (front.block < back.block ==> front.curr < bs)
      ensures Valid() && Contents() == old(Contents()) + [x]
      ensures |blocks| == |old(blocks)| && front == old(front) && back == old(back).(curr := old(back.curr) + 1)
    {
      var bl, f, b := blocks, front, back;
      WriteBack(bs, bl, f, b, x);
      blocks := bl[b.block := bl[b.block][b.curr := x]];
      back := b.(curr := b.curr + 1);
    }

    /** `emplace_front(x)`: `x` becomes the first element and the others keep their order. */
    method EmplaceFront(x: T)
      modifies this
      requires Valid()
      ensures Valid() && Contents() == [x] + old(Contents())
      ensures old(blocks) != [] && 0 < old(front.curr) ==>
                |blocks| == |old(blocks)| && back == old(back) && front == old(front).(curr := old(front.curr) - 1)
      ensures |blocks| <= |old(blocks)| + 1
    {
      if blocks == [] || front.curr == 0 {
        GrowFront(x);
      }
      StoreFront(x);
    }

    /** The store step of `emplace_front`: the slot before the front gets `x` and the front steps back onto it. */
    method StoreFront(x: T)
      modifies this
      requires Shaped() && blocks != [] && 0 < front.curr && (front.block < back.block ==> 0 < back.curr)
      ensures Valid() && Contents() == [x] + old(Contents())
      ensures |blocks| == |old(blocks)| && back == old(back) && front == old(front).(curr := old(front.curr) - 1)
    {
      var bl, f, b := blocks, front, back;
      WriteFront(bs, bl, f, b, x);
      blocks := bl[f.block := bl[f.block][f.curr - 1 := x]];
      front := f.(curr := f.curr - 1);
    }

    /** `pop_back_unchecked()`: drops the last element. */
    method PopBackUnchecked()
      modifies this
      requires Valid() && Contents() != []
      ensures Valid() && Contents() == old(Contents())[..|old(Contents())| - 1]
      ensures blocks == old(blocks) && front == old(front)
    {
      PopBackBetween(bs, blocks, front, back);
      back := BackAfterPop(bs, front, back);
    }

    /** `pop_back()`: terminates on an empty deque (`false`, nothing changes), otherwise drops the last element. */
    method PopBack() returns (ok: bool)
      modifies this
      requires Valid()
      ensures Valid() && (ok <==> old(Contents()) != [])
      ensures ok ==> Contents() == old(Contents())[..|old(Contents())| - 1]
      ensures blocks == old(blocks) && front == old(front)
      ensures !ok ==> back == old(back)
    {
      if IsEmpty() {
        return false;
      }
      PopBackUnchecked();
      return true;
    }

    /** `pop_front_unchecked()`: drops the first element. */
    method PopFrontUnchecked()
      modifies this
      requires Valid() && Contents() != []
      ensures Valid() && Contents() == old(Contents())[1..]
      ensures blocks == old(blocks) && back == old(back)
    {
      PopFrontBetween(bs, blocks, front, back);
      front := FrontAfterPop(bs, front, back);
    }

    /** `pop_front()`: terminates on an empty deque (`false`, nothing changes), otherwise drops the first element. */
    method PopFront() returns (ok: bool)
      modifies this
      requires Valid()
      ensures Valid() && (ok <==> old(Contents()) != [])
      ensures ok ==> Contents() == old(Contents())[1..]
      ensures blocks == old(blocks) && back == old(back)
      ensures !ok ==> front == old(front)
    {
      if IsEmpty() {
        return false;
      }
      PopFrontUnchecked();
      return true;
    }

    /**
     * `clear()`: with storage, both cursors move to the middle element of
     * the middle reserved block; every block is kept.
     */
    method Clear()
      modifies this
      requires Valid()
      ensures Valid() && Contents() == [] && blocks == old(blocks)
      ensures blocks != [] ==> front == back == Cursor(|blocks| / 2, bs / 2)
      ensures blocks == [] ==> front == old(front) && back == old(back)
    {
      if blocks == [] {
        return;
      }
      front := Cursor(|blocks| / 2, bs / 2);
      back := front;
    }
  }
}
