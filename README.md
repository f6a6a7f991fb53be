# uwvm2 interpreter cores and fast_io containers, modelled in Dafny

This project models the sequential cores of uwvm2, a WebAssembly runtime, and of
the two fast_io containers it uses, and proves properties of those models. The
cores are:

- **`fast_io::bitvec`**: a growable bit array packed into bytes (`bitvec.dfy`,
  class `Bitvec.BitVec` over an `array<bv8>`; the pure bit layout is in
  `bitvec_bits.dfy`, module `BitLayout`).
- **`fast_io::deque`**: a double-ended queue stored in fixed-size blocks
  (`deque.dfy`, class `BlockDeque.Deque`, with the blocks as a sequence and the
  front/back positions as cursors).
- **The stack-top cache of the `uwvm_int` interpreter**:
  - ring arithmetic, spilling and filling between the cached slots and the byte
    operand stack, and the runtime selectors (`register_ring.dfy`);
  - the compile-time cache state, popped per value type, and reading a tuple of
    values from cache and memory (`stacktop.dfy`);
  - the register file of one running function: `ip`, `sp`, the locals base, the
    byte buffer and the cache slots (`frame.dfy`, class `Interp.Regs`).
- **The integer opfuncs**: the reference semantics of the WebAssembly 1.0
  integer operators, comparisons and conversions, over explicit 32- and 64-bit
  views (`int_bits.dfy`, `int_numeric.dfy`, `int_compare.dfy`,
  `int_convert.dfy`), and the opfuncs that pop and push them on the stack and
  the cache (`int_opfuncs.dfy`).
- **Linear memory**: the effective address, the bounds check, little-endian
  loads and stores with extension and truncation, `memory.size` and
  `memory.grow` (`memory_ops.dfy`, class `MemoryOps.Memory`; bytes are in
  `le_bytes.dfy`).
- **Parametric and variable opcodes**: `drop`, `select`, `local.*` and
  `global.*` (`stack_ops.dfy`, `variable_ops.dfy`).
- **The function-body validator of the compiler** (`validator.dfy`). It works
  on decoded instructions. Each instruction is one step of a state machine over
  the operand type stack and the control frames, with the validator's error
  codes.
- **The module runtime initializer** (`init_model.dfy` for the pure parts,
  `init_runtime.dfy`, class `InitRuntime.Runtime`). It builds each module's
  runtime record, links imports across modules, initializes globals with the
  three-state machine and cycle detection, and evaluates segment offsets after
  linking.
- **Call dispatch helpers of the runtime** (`dispatch.dfy`): value sizes,
  signature equality, the range lookup of a defined function, import-alias
  resolution, the call-stack guard, the stack accounting of a defined call, and
  the `call_indirect` traps.

Shared definitions are in `arith.dfy` (powers of two, division facts, the
`byte` type, `Option`) and `wasm_types.dfy` (value types and their sizes).

Code that changes state step by step is modelled as methods on classes or
arrays. Each such method is proved against a pure specification function, and
the source's promises are proved as lemmas about those functions. Pure code is
modelled as functions and lemmas.

Things the source takes from its environment are either parameters of the
model or left out:
- `memory.grow` receives the allocator's verdict as a boolean;
- a defined call receives the callee's behaviour as a function from locals
  to result bytes;
- the interpreter's tail-call dispatch is replaced by one method per opfunc.

## Model

| member | source | states |
|---|---|---|
| Bitvec.BitVec.constructor | third-parties/fast_io/include/fast_io_dsal/impl/bitvec.h:56 | a default-constructed vector is valid and holds no bits and no storage |
| Bitvec.BitVec.OfSize | third-parties/fast_io/include/fast_io_dsal/impl/bitvec.h:180-217 | `bitvec(n)` allocates `ceil(n/8)` zeroed bytes and holds `n` false bits |
| Bitvec.BitVec.Size | third-parties/fast_io/include/fast_io_dsal/impl/bitvec.h:672-675 | the size is the number of logical bits |
| Bitvec.BitVec.UsedBytes | third-parties/fast_io/include/fast_io_dsal/impl/bitvec.h:676-681 | `size_bytes()` is the ceiling of size/8 and never exceeds the allocated bytes |
| Bitvec.BitVec.IsEmpty | third-parties/fast_io/include/fast_io_dsal/impl/bitvec.h:723-730 | empty holds exactly when there are no bits |
| Bitvec.BitVec.TestUnchecked | third-parties/fast_io/include/fast_io_dsal/impl/bitvec.h:311-337 | `test_unchecked(pos)` returns logical bit `pos` |
| Bitvec.BitVec.Test | third-parties/fast_io/include/fast_io_dsal/impl/bitvec.h:338-345 | the checked test fails exactly when `pos >= size()`, and otherwise returns bit `pos` |
| Bitvec.BitVec.SetUnchecked | third-parties/fast_io/include/fast_io_dsal/impl/bitvec.h:346-372 | only byte `pos/8` changes, only bit `pos%8` of it; the logical bits are the old ones with bit `pos` updated |
| Bitvec.BitVec.Set | third-parties/fast_io/include/fast_io_dsal/impl/bitvec.h:373-381 | fails exactly when `pos >= size()` and then changes nothing; otherwise only bit `pos` changes |
| Bitvec.BitVec.ResetUnchecked | third-parties/fast_io/include/fast_io_dsal/impl/bitvec.h:382-405 | only bit `pos` of byte `pos/8` is cleared; every other bit keeps its value |
| Bitvec.BitVec.Reset | third-parties/fast_io/include/fast_io_dsal/impl/bitvec.h:406-414 | fails exactly when `pos >= size()`; otherwise only bit `pos` becomes false |
| Bitvec.BitVec.FlipUnchecked | third-parties/fast_io/include/fast_io_dsal/impl/bitvec.h:576-585 | only bit `pos` is inverted; every other bit keeps its value |
| Bitvec.BitVec.Flip | third-parties/fast_io/include/fast_io_dsal/impl/bitvec.h:586-594 | fails exactly when `pos >= size()`; otherwise only bit `pos` is inverted |
| Bitvec.BitVec.PushBackUnchecked | third-parties/fast_io/include/fast_io_dsal/impl/bitvec.h:277-309 | with spare capacity the bit is appended in place: same storage, one more bit equal to `v`, earlier bits unchanged |
| Bitvec.BitVec.GrowTo | third-parties/fast_io/include/fast_io_dsal/impl/bitvec.h:128-156 | growing to `m` bytes (capped at the maximum) copies the old bytes into fresh storage, zero-fills the rest and keeps the logical bits |
| Bitvec.BitVec.GrowTwice | third-parties/fast_io/include/fast_io_dsal/impl/bitvec.h:157-179 | the capacity doubles (1 byte from empty, capped at the maximum), keeping the bits |
| Bitvec.BitVec.PushBack | third-parties/fast_io/include/fast_io_dsal/impl/bitvec.h:268-276 | `push_back(v)` appends `v` after all earlier bits; storage is replaced (doubled) only when `curr_pos == end_pos`, and otherwise stays the same |
| Bitvec.BitVec.PopBackUnchecked | third-parties/fast_io/include/fast_io_dsal/impl/bitvec.h:415-432 | returns the last bit, clears it in storage and drops it from the logical bits |
| Bitvec.BitVec.PopBack | third-parties/fast_io/include/fast_io_dsal/impl/bitvec.h:433-440 | fails exactly on an empty vector and then changes nothing; otherwise returns the last bit and removes it |
| Bitvec.BitVec.Capacity | third-parties/fast_io/include/fast_io_dsal/impl/bitvec.h:682-685 | the capacity is 8 times the allocated bytes and bounds the size |
| Bitvec.BitVec.Reserve | third-parties/fast_io/include/fast_io_dsal/impl/bitvec.h:716-722 | with `n <= end_pos` nothing changes; otherwise the storage grows to `ceil(n/8)` bytes (capped) and is zero-extended; the bits are unchanged; the byte count is the corrected one of the `bits_to_blocks` finding (bitvec.h:703-714), see "Left out" |
| Bitvec.BitVec.Clear | third-parties/fast_io/include/fast_io_dsal/impl/bitvec.h:692-695 | clear makes the vector empty and keeps the storage and capacity |
| Bitvec.BitVec.FlipAll | third-parties/fast_io/include/fast_io_dsal/impl/bitvec.h:755-782 | every logical bit is inverted and the bits past `size()` keep their storage value; bytes past `size_bytes()` are untouched |
| Bitvec.BitVec.SetAll | third-parties/fast_io/include/fast_io_dsal/impl/bitvec.h:783-806 | every logical bit becomes true; bytes past `size_bytes()` are untouched |
| Bitvec.BitVec.Assign | third-parties/fast_io/include/fast_io_dsal/impl/bitvec.h:807-912 | `&=`, `\|=` and `^=` fail exactly when the sizes differ, changing nothing; otherwise each bit becomes the operator applied to the two bits |
| Bitvec.BitVec.CountrZero | third-parties/fast_io/include/fast_io_dsal/impl/bitvec.h:1520-1580 | the result is the number of zero bits below the first set bit, and equals the size when no bit is set |
| Bitvec.BitVec.CountlZero | third-parties/fast_io/include/fast_io_dsal/impl/bitvec.h:1386-1453 | the result is the number of zero bits above the highest set bit, and equals the size when no bit is set |
| Bitvec.BitVec.Popcount | third-parties/fast_io/include/fast_io_dsal/impl/bitvec.h:1640-1686 | the result is the number of true logical bits; the bits past `size()` in the partial byte are not counted |
| Bitvec.BitVec.ResizeAsWritten | third-parties/fast_io/include/fast_io_dsal/impl/bitvec.h:1687-1767 | the resize written in the source: it only masks the old partial byte and zeroes whole bytes when it grows, and the buffer pointer it captured goes stale when `reserve` reallocates |
| Bitvec.BitVec.Resize | third-parties/fast_io/include/fast_io_dsal/impl/bitvec.h:1687-1767 | resize to `n` keeps the first `min(n, size)` bits and appends `n - size` false bits when it grows |
| Bitvec.MaskPartial | third-parties/fast_io/include/fast_io_dsal/impl/bitvec.h:1713-1719 | masking the partial byte keeps the bits below the cut and clears the rest of that byte |
| Bitvec.ZeroRange | third-parties/fast_io/include/fast_io_dsal/impl/bitvec.h:1724-1732 | the bytes in `[from, to)` become zero and no other byte changes |
| Bitvec.GrowInPlace | third-parties/fast_io/include/fast_io_dsal/impl/bitvec.h:1701-1745 | the corrected in-place growth: the storage afterwards is the growth function, whose new bits read false |
| Bitvec.GrowInPlaceAsWritten | third-parties/fast_io/include/fast_io_dsal/impl/bitvec.h:1701-1745 | the source's three masking steps produce the as-written growth function |
| Bitvec.FlipStorage | third-parties/fast_io/include/fast_io_dsal/impl/bitvec.h:755-782 | the full bytes are XORed with 0xFF and the partial byte with the low-bit mask; later bytes are untouched |
| Bitvec.XorFullBytes | third-parties/fast_io/include/fast_io_dsal/impl/bitvec.h:766-774 | each full byte is inverted and nothing past them changes |
| Bitvec.XorPartial | third-parties/fast_io/include/fast_io_dsal/impl/bitvec.h:776-780 | only the partial byte changes, XORed with the mask of its used bits |
| Bitvec.CombineStorage | third-parties/fast_io/include/fast_io_dsal/impl/bitvec.h:807-912 | full bytes become the bytewise operator result, and the partial byte is that result masked to its used bits |
| Bitvec.CombineFullBytes | third-parties/fast_io/include/fast_io_dsal/impl/bitvec.h:818-830 | each full byte is combined with the other vector's byte; later bytes of both vectors are untouched |
| Bitvec.CombinePartial | third-parties/fast_io/include/fast_io_dsal/impl/bitvec.h:832-840 | only the partial byte changes, to the masked operator result |
| Bitvec.ScanUp | third-parties/fast_io/include/fast_io_dsal/impl/bitvec.h:1539-1556 | scanning the full bytes upward finds the lowest set bit, or reports the full-byte bit count when all of them are zero |
| Bitvec.ScanDown | third-parties/fast_io/include/fast_io_dsal/impl/bitvec.h:1429-1450 | scanning the full bytes downward counts the zero bits above the highest set bit |
| Bitvec.PartialTrailingZeros | third-parties/fast_io/include/fast_io_dsal/impl/bitvec.h:1559-1576 | in the masked partial byte, the count is the trailing zeros below the used width |
| Bitvec.PartialLeadingZeros | third-parties/fast_io/include/fast_io_dsal/impl/bitvec.h:1405-1427 | in the masked partial byte, the count is the leading zeros inside the used width, and `found` says a set bit exists |
| Bitvec.TrailingZeros | third-parties/fast_io/include/fast_io_dsal/impl/bitvec.h:1548-1555 | `countr_zero` of a non-zero byte is the index of its lowest set bit |
| Bitvec.TrailingZerosBelow | third-parties/fast_io/include/fast_io_dsal/impl/bitvec.h:1570-1575 | the lowest set bit of a non-zero masked byte lies below the mask width |
| Bitvec.LeadingZeros | third-parties/fast_io/include/fast_io_dsal/impl/bitvec.h:1413-1423 | the count from bit `top` down to the highest set bit |
| Bitvec.PopcountFull | third-parties/fast_io/include/fast_io_dsal/impl/bitvec.h:1655-1668 | the sum of the full bytes' popcounts is the number of set bits among them |
| Bitvec.PopcountByte | third-parties/fast_io/include/fast_io_dsal/impl/bitvec.h:1661-1667 | the clear-lowest-set-bit loop counts the set bits of the byte |
| Bitvec.Equal | third-parties/fast_io/include/fast_io_dsal/impl/bitvec.h:2319-2368 | `==` holds iff the sizes are equal and every bit below size is equal; the bits past size in the last byte are ignored |
| BitLayout.Unpack | third-parties/fast_io/include/fast_io_dsal/impl/bitvec.h:311-337 | bit `i` of the packed storage is bit `i%8` of byte `i/8` (LSB first), for every `i` below the size |
| BitLayout.UnpackSetBit | third-parties/fast_io/include/fast_io_dsal/impl/bitvec.h:346-372 | writing the set-bit byte at `pos/8` changes logical bit `pos` to `v` and no other logical bit |
| BitLayout.UnpackClearBit | third-parties/fast_io/include/fast_io_dsal/impl/bitvec.h:382-405 | writing the cleared byte at `pos/8` makes logical bit `pos` false and changes no other logical bit |
| BitLayout.UnpackFlipBit | third-parties/fast_io/include/fast_io_dsal/impl/bitvec.h:576-585 | writing the flipped byte at `pos/8` inverts logical bit `pos` and changes no other logical bit |
| BitLayout.SplitBits | third-parties/fast_io/include/fast_io_dsal/impl/bitvec.h:15-32 | `bitvec_split_bits(b)` is `(b/8, b%8)`: `8*full + rem == b` with `rem < 8` |
| BitLayout.SizeBytes | third-parties/fast_io/include/fast_io_dsal/impl/bitvec.h:676-681 | the byte count is the least `r` with `8*r >= bits` |
| BitLayout.BitsToBlocksAsWritten | third-parties/fast_io/include/fast_io_dsal/impl/bitvec.h:703-714 | `(bits + 7) >> 3` on a 64-bit `size_t` agrees with the ceiling whenever `bits + 7` does not wrap |
| BitLayout.BitsToBlocksWrapsAtSizeMax | third-parties/fast_io/include/fast_io_dsal/impl/bitvec.h:703-714 | at `bits == SIZE_MAX` the sum wraps and the byte count is 0, while the true ceiling is one more than the largest byte count |
| BitLayout.BitsToBlocks | third-parties/fast_io/include/fast_io_dsal/impl/bitvec.h:703-714 | the corrected block count is exactly the ceiling of bits/8 |
| BitLayout.Fill | third-parties/fast_io/include/fast_io_dsal/impl/bitvec.h:783-806 | `n` copies of one bit value |
| BitLayout.Negated | third-parties/fast_io/include/fast_io_dsal/impl/bitvec.h:755-782 | each bit inverted, same length |
| BitLayout.Zip | third-parties/fast_io/include/fast_io_dsal/impl/bitvec.h:807-912 | the bitwise combination of two equal-length bit sequences, position by position |
| BitLayout.CountSnoc | third-parties/fast_io/include/fast_io_dsal/impl/bitvec.h:1640-1686 | appending one bit adds one to the count exactly when that bit is true |
| BitLayout.FlippedBits | third-parties/fast_io/include/fast_io_dsal/impl/bitvec.h:755-782 | storage flipped as `flip_all` does it unpacks to the negated bits |
| BitLayout.FilledBits | third-parties/fast_io/include/fast_io_dsal/impl/bitvec.h:783-806 | storage filled as `set_all` does it unpacks to all-true bits |
| BitLayout.CombinedBits | third-parties/fast_io/include/fast_io_dsal/impl/bitvec.h:807-912 | storage combined as `&=`/`\|=`/`^=` do it unpacks to the zipped bits |
| BitLayout.ZeroStorageBits | third-parties/fast_io/include/fast_io_dsal/impl/bitvec.h:180-217 | all-zero storage (a fresh allocation) unpacks to false bits |
| BitLayout.UnpackExtend | third-parties/fast_io/include/fast_io_dsal/impl/bitvec.h:128-156 | copying the bytes into larger storage keeps every logical bit |
| BitLayout.UnpackPrefix | third-parties/fast_io/include/fast_io_dsal/impl/bitvec.h:415-432 | the first `n` bits of a longer unpacking are the unpacking of `n` bits (shrinking keeps a prefix) |
| BitLayout.GrowStorageBits | third-parties/fast_io/include/fast_io_dsal/impl/bitvec.h:1701-1745 | corrected growth from `prev` to `n` bits keeps the old bits and appends `n - prev` false bits |
| BitLayout.GrowStorageAsWrittenKeeps | third-parties/fast_io/include/fast_io_dsal/impl/bitvec.h:1701-1745 | the as-written growth does keep the old bits |
| BitLayout.GrowStorageAsWrittenKeepsStaleBits | third-parties/fast_io/include/fast_io_dsal/impl/bitvec.h:1712-1744 | on storage `[0xFF, 0xFF]` grown from 0 to 12 bits, the as-written growth leaves bit 8 true while the corrected growth makes it false |
| BitLayout.ReallocatedStorageKeepsStaleBits | third-parties/fast_io/include/fast_io_dsal/impl/bitvec.h:1696-1703 | storage whose first byte is a stale `0xFF`, followed by any bytes, reads bit 0 as set however far it is unpacked |
| Bitvec.ResizeAsWrittenKeepsStaleBit | third-parties/fast_io/include/fast_io_dsal/impl/bitvec.h:1696-1703 | an empty vector over a one-byte block holding `0xFF`, resized to 9 bits: by the reallocation ensures of `ResizeAsWritten` bit 0 reads set, while `Resize` reads it clear |
| BitLayout.CountUnpack | third-parties/fast_io/include/fast_io_dsal/impl/bitvec.h:1640-1686 | the bytewise popcount of the storage up to `n` bits equals the number of true logical bits |
| BitLayout.CountByte | third-parties/fast_io/include/fast_io_dsal/impl/bitvec.h:1670-1682 | adding the masked partial byte's popcount extends the count by exactly its used bits |
| BitLayout.CountNegated | third-parties/fast_io/include/fast_io_dsal/impl/bitvec.h:755-782 | after `flip_all` the popcount is the size minus the old popcount |
| BitLayout.CountFill | third-parties/fast_io/include/fast_io_dsal/impl/bitvec.h:783-806 | after `set_all` the popcount is the size |
| BitLayout.SameUsedBits | third-parties/fast_io/include/fast_io_dsal/impl/bitvec.h:2319-2368 | two storages that agree on the full bytes and on the used bits of the partial byte hold the same bits |
| BitLayout.FullByteDiffers | third-parties/fast_io/include/fast_io_dsal/impl/bitvec.h:2334-2353 | a difference in a full byte is a difference in the bits (the early `false` of `==`) |
| BitLayout.PartialByteDiffers | third-parties/fast_io/include/fast_io_dsal/impl/bitvec.h:2355-2365 | a difference in the masked partial byte is a difference in the bits |
| BitLayout.UnpackMaskTail | third-parties/fast_io/include/fast_io_dsal/impl/bitvec.h:1751-1765 | masking the tail byte during a shrink does not change the remaining bits |
| BlockDeque.BlockSize | third-parties/fast_io/include/fast_io_dsal/impl/deque.h:27-32 | `deque_block_size<sz>` is `4096/sz` when `sz <= 256` (so a block fills at most one 4096-byte page and at least 16 elements) and 16 otherwise |
| BlockDeque.SizeFormula | third-parties/fast_io/include/fast_io_dsal/impl/deque.h:1544-1547 | `block_size*(back.ctrl - front.ctrl) + back.curr - front.curr` is exactly the number of elements between the two cursors |
| BlockDeque.Between | third-parties/fast_io/include/fast_io_dsal/impl/deque.h:1544-1547 | the elements stored from the front cursor to the back cursor; their count is the offset difference |
| BlockDeque.TightBetween | third-parties/fast_io/include/fast_io_dsal/impl/deque.h:1647-1655 | for normalised cursors, `empty()` (front curr equals back curr) holds iff there are no elements |
| BlockDeque.BetweenFirst | third-parties/fast_io/include/fast_io_dsal/impl/deque.h:1464-1492 | the first element is the slot under the front cursor |
| BlockDeque.BetweenLast | third-parties/fast_io/include/fast_io_dsal/impl/deque.h:1352-1380 | the last element is the slot just before the back cursor (`curr_ptr[-1]`) |
| BlockDeque.BetweenAt | third-parties/fast_io/include/fast_io_dsal/impl/deque.h:1494-1530 | element `i` sits in block `front.block + (off+i)/bs` at slot `(off+i)%bs`, where `off` is the front cursor's slot |
| BlockDeque.WriteBack | third-parties/fast_io/include/fast_io_dsal/impl/deque.h:1314-1317 | constructing at the back cursor and advancing it appends the element |
| BlockDeque.WriteFront | third-parties/fast_io/include/fast_io_dsal/impl/deque.h:1417-1427 | constructing before the front cursor and moving it back prepends the element |
| BlockDeque.AppendBetween | third-parties/fast_io/include/fast_io_dsal/impl/deque.h:499-622 | adding a spare block after the reserved blocks changes no element |
| BlockDeque.PrependBetween | third-parties/fast_io/include/fast_io_dsal/impl/deque.h:625-706 | adding a spare block before the reserved blocks changes no element once the cursors move one block on |
| BlockDeque.RotateBetween | third-parties/fast_io/include/fast_io_dsal/impl/deque.h:563-574 | borrowing the unused front block for the back changes no element once the cursors move one block back |
| BlockDeque.UnrotateBetween | third-parties/fast_io/include/fast_io_dsal/impl/deque.h:674-681 | borrowing the unused back block for the front changes no element once the cursors move one block on |
| BlockDeque.BackToNextBlock | third-parties/fast_io/include/fast_io_dsal/impl/deque.h:594-617 | moving a full back cursor to the start of the next block changes no element |
| BlockDeque.FrontToPrevBlock | third-parties/fast_io/include/fast_io_dsal/impl/deque.h:693-705 | moving an exhausted front cursor to the end of the previous block changes no element |
| BlockDeque.BackAfterPop | third-parties/fast_io/include/fast_io_dsal/impl/deque.h:1340-1350 | the corrected back cursor after a pop: one slot earlier, stepping back a block only when the front is in a different block, so it never passes the front |
| BlockDeque.BackAfterPopAsWritten | third-parties/fast_io/include/fast_io_dsal/impl/deque.h:1285-1288 | `back_backspace` as written: the back cursor always moves to the end of the previous block |
| BlockDeque.BackAfterPopAsWrittenPassesFront | third-parties/fast_io/include/fast_io_dsal/impl/deque.h:1285-1288 | popping the only element of a block that also holds the front moves the back cursor one block before the front, where the corrected cursor stays equal to the front |
| BlockDeque.FrontAfterPop | third-parties/fast_io/include/fast_io_dsal/impl/deque.h:1275-1284 | after `pop_front`, the front cursor is one slot later and steps to the next block only when the back is in a different block |
| BlockDeque.PopBackBetween | third-parties/fast_io/include/fast_io_dsal/impl/deque.h:1340-1350 | popping at the back (with the corrected cursor step) removes exactly the last element |
| BlockDeque.PopFrontBetween | third-parties/fast_io/include/fast_io_dsal/impl/deque.h:1451-1462 | popping at the front removes exactly the first element |
| BlockDeque.IterDifference | third-parties/fast_io/include/fast_io_dsal/impl/deque.h:264-269 | the corrected iterator difference is the difference of the two element offsets, each measured from its own block begin |
| BlockDeque.IterDifferenceAsWritten | third-parties/fast_io/include/fast_io_dsal/impl/deque.h:264-269 | the difference as written subtracts `b.begin_ptr` from `a.curr_ptr`, which is off by the distance between the two block addresses |
| BlockDeque.IterDifferenceAsWrittenCountsBlockGap | third-parties/fast_io/include/fast_io_dsal/impl/deque.h:264-269 | for iterators in two blocks whose addresses are 1000 apart, the written difference is 1032 instead of 32 |
| BlockDeque.IterDifferenceSameBlock | third-parties/fast_io/include/fast_io_dsal/impl/deque.h:264-269 | when both iterators are in the same block, the written difference is correct |
| BlockDeque.MidBytesAsWritten | third-parties/fast_io/include/fast_io_dsal/impl/deque.h:489-495 | the runtime midpoint is `(sz*bs) >> 1` bytes into the block |
| BlockDeque.MidBytes | third-parties/fast_io/include/fast_io_dsal/impl/deque.h:489-495 | the corrected midpoint is element-aligned: `sz*(bs/2)` bytes, leaving `bs - bs/2` whole slots after it |
| BlockDeque.MidBytesAsWrittenMisaligned | third-parties/fast_io/include/fast_io_dsal/impl/deque.h:489-495 | for 12-byte elements (`bs == 341`) the runtime midpoint is 2046 bytes, 6 bytes off an element boundary, so no number of pushes reaches the block end exactly |
| BlockDeque.MidBytesAgreeOnEvenBlocks | third-parties/fast_io/include/fast_io_dsal/impl/deque.h:489-495 | with an even block size both midpoints agree |
| BlockDeque.Deque.constructor | third-parties/fast_io/include/fast_io_dsal/impl/deque.h:953-956 | a new deque is valid, empty and has no blocks |
| BlockDeque.Deque.Size | third-parties/fast_io/include/fast_io_dsal/impl/deque.h:1544-1547 | `size()` is the number of elements |
| BlockDeque.Deque.IsEmpty | third-parties/fast_io/include/fast_io_dsal/impl/deque.h:1647-1655 | `empty()` holds exactly when the deque holds no element |
| BlockDeque.Deque.Front | third-parties/fast_io/include/fast_io_dsal/impl/deque.h:1474-1492 | `front()` fails exactly on an empty deque and otherwise returns the first element |
| BlockDeque.Deque.FrontUnchecked | third-parties/fast_io/include/fast_io_dsal/impl/deque.h:1464-1472 | `front_unchecked()` returns the first element |
| BlockDeque.Deque.Back | third-parties/fast_io/include/fast_io_dsal/impl/deque.h:1362-1380 | `back()` fails exactly on an empty deque and otherwise returns the last element |
| BlockDeque.Deque.BackUnchecked | third-parties/fast_io/include/fast_io_dsal/impl/deque.h:1352-1360 | `back_unchecked()` returns the last element |
| BlockDeque.Deque.At | third-parties/fast_io/include/fast_io_dsal/impl/deque.h:1494-1516 | `operator[](i)` fails exactly when `i >= size()` and otherwise returns element `i` |
| BlockDeque.Deque.IndexUnchecked | third-parties/fast_io/include/fast_io_dsal/impl/deque.h:1518-1530 | `index_unchecked(i)` returns element `i` |
| BlockDeque.Deque.AllocateOnEmpty | third-parties/fast_io/include/fast_io_dsal/impl/deque.h:466-496 | the first allocation gives one block holding both cursors at its midpoint, and the deque stays empty; the midpoint is the corrected element-aligned `MidBytes` of the deque.h:489-495 finding, see "Left out" |
| BlockDeque.Deque.GrowBack | third-parties/fast_io/include/fast_io_dsal/impl/deque.h:499-622 | growing at the back keeps every element and leaves room at the back cursor; it allocates on empty, reuses a spare block when there is one, and adds at most one block |
| BlockDeque.Deque.SpareBlockAtBack | third-parties/fast_io/include/fast_io_dsal/impl/deque.h:529-591 | a spare block appears after the back block, borrowed from the front when the front block is not the first one, otherwise newly allocated |
| BlockDeque.Deque.GrowFront | third-parties/fast_io/include/fast_io_dsal/impl/deque.h:625-706 | growing at the front keeps every element and leaves room before the front cursor, adding at most one block; on an empty deque it also moves the back cursor with the front, which the source's `grow_front` never does: this is part of the correction of the deque.h:1285-1288 finding, see "Left out" |
| BlockDeque.Deque.SpareBlockAtFront | third-parties/fast_io/include/fast_io_dsal/impl/deque.h:646-691 | a spare block appears before the front block, borrowed from the back or newly allocated |
| BlockDeque.Deque.EmplaceBack | third-parties/fast_io/include/fast_io_dsal/impl/deque.h:1306-1318 | `emplace_back(x)` appends `x` after all existing elements; with room in the back block only the back cursor moves |
| BlockDeque.Deque.StoreBack | third-parties/fast_io/include/fast_io_dsal/impl/deque.h:1314-1317 | with room, the element is written at the back cursor, which advances by one |
| BlockDeque.Deque.EmplaceFront | third-parties/fast_io/include/fast_io_dsal/impl/deque.h:1409-1429 | `emplace_front(x)` puts `x` before all existing elements, which keep their order; with room only the front cursor moves |
| BlockDeque.Deque.StoreFront | third-parties/fast_io/include/fast_io_dsal/impl/deque.h:1417-1427 | with room, the element is written just before the front cursor, which moves back by one |
| BlockDeque.Deque.PopBackUnchecked | third-parties/fast_io/include/fast_io_dsal/impl/deque.h:1340-1350 | the last element is removed; the blocks and the front cursor are unchanged; the back cursor takes the corrected guarded step `BackAfterPop` of the deque.h:1285-1288 finding, see "Left out" |
| BlockDeque.Deque.PopBack | third-parties/fast_io/include/fast_io_dsal/impl/deque.h:1330-1338 | `pop_back()` fails exactly on an empty deque, changing nothing; otherwise it removes only the last element, with the corrected back-cursor step of `PopBackUnchecked`, see "Left out" |
| BlockDeque.Deque.PopFrontUnchecked | third-parties/fast_io/include/fast_io_dsal/impl/deque.h:1451-1462 | the first element is removed; the blocks and the back cursor are unchanged |
| BlockDeque.Deque.PopFront | third-parties/fast_io/include/fast_io_dsal/impl/deque.h:1441-1449 | `pop_front()` fails exactly on an empty deque, changing nothing; otherwise it removes only the first element |
| BlockDeque.Deque.Clear | third-parties/fast_io/include/fast_io_dsal/impl/deque.h:724-746 | after `clear()` the deque is empty and keeps its blocks; both cursors sit in the middle reserved block at the corrected element-aligned `MidBytes` of the deque.h:489-495 finding, see "Left out" |
| StackTop.RangeSize | src/uwvm2/runtime/compiler/uwvm_int/optable/define.h:576-578 | `range_size` is `end - begin` for an enabled range and 0 for a disabled one |
| StackTop.NextPrevInverse | src/uwvm2/runtime/compiler/uwvm_int/optable/register_ring.h:262-282 | within `[begin, end)`, `ring_next_pos` and `ring_prev_pos` stay in range and undo each other (and `next_pos` wraps `end-1` to `begin`, src/uwvm2/runtime/compiler/uwvm_int/optable/define.h:579-586) |
| StackTop.LayoutConsequences | src/uwvm2/runtime/compiler/uwvm_int/optable/define.h:589-827 | a layout accepted by `check_uwvm_interpreter_stacktop_layout` has any two enabled ranges identical or disjoint, merged types at the same `currpos`, each enabled `currpos` inside its range, and `currpos == SIZE_MAX` for a disabled range |
| StackTop.InitialState | src/uwvm2/runtime/compiler/uwvm_int/optable/define.h:830-846 | the initial state has `remain[t] == range_size(t)` for every type and `currpos` as configured |
| StackTop.PopGroup | src/uwvm2/runtime/compiler/uwvm_int/optable/define.h:912-1106 | the types a pop updates include the popped type itself |
| StackTop.PopState | src/uwvm2/runtime/compiler/uwvm_int/optable/define.h:912-1106 | popping type `t` when the cache can serve it decrements `remain[t]` and moves `currpos[t]` to `next_pos`; types in other ranges keep their state; an unusable cache leaves the state unchanged |
| StackTop.PopMovesMergedGroup | src/uwvm2/runtime/compiler/uwvm_int/optable/define.h:912-1106 | every type merged with `t` (same range) receives the same update as `t`; every other type is untouched |
| StackTop.InitialStateConsistent | src/uwvm2/runtime/compiler/uwvm_int/optable/define.h:830-846 | the initial state of a valid layout is consistent: merged types share `currpos` and `remain`, and `remain` never exceeds the range size |
| StackTop.PopKeepsConsistent | src/uwvm2/runtime/compiler/uwvm_int/optable/define.h:912-1106 | popping preserves that consistency |
| StackTop.ExhaustedStaysExhausted | src/uwvm2/runtime/compiler/uwvm_int/optable/define.h:859-892 | once the cache cannot serve a type, no later pop makes it usable again |
| StackTop.Sources | src/uwvm2/runtime/compiler/uwvm_int/optable/define.h:1114-1173 | the read plan of `get_vals_from_operand_stack` has one source per tuple element |
| StackTop.SourcesElement | src/uwvm2/runtime/compiler/uwvm_int/optable/define.h:1114-1137 | element `i` is read from the slot at the current `currpos` when the cache still serves its type after the earlier elements, and from the operand stack otherwise |
| StackTop.SourcesStayOnStack | src/uwvm2/runtime/compiler/uwvm_int/optable/define.h:1114-1137 | once an element of a type comes from memory, every later element of that type does too |
| StackTop.PrefixStaysExhausted | src/uwvm2/runtime/compiler/uwvm_int/optable/define.h:1141-1163 | exhaustion persists through any longer prefix of the tuple |
| StackTop.AfterAppend | src/uwvm2/runtime/compiler/uwvm_int/optable/define.h:1141-1163 | the state after `a + b` is the state after `b` started from the state after `a` |
| StackTop.AfterConsistent | src/uwvm2/runtime/compiler/uwvm_int/optable/define.h:1141-1163 | the state after any sequence of pops stays consistent |
| StackTop.SourcesWithin | src/uwvm2/runtime/compiler/uwvm_int/optable/define.h:1114-1137 | every cache slot the plan reads lies inside the argument pack |
| StackTop.PlanWithin | src/uwvm2/runtime/compiler/uwvm_int/optable/define.h:1165-1173 | the plan started from the initial state of a valid layout reads only existing slots |
| StackTop.Read | src/uwvm2/runtime/compiler/uwvm_int/optable/define.h:1114-1137 | reading the plan gives one value per element |
| StackTop.ReadElement | src/uwvm2/runtime/compiler/uwvm_int/optable/define.h:1114-1137 | element `i` is the slot's bytes, or the bytes just below the memory consumed by the elements before it (LIFO order) |
| StackTop.ReadHead | src/uwvm2/runtime/compiler/uwvm_int/optable/define.h:1114-1137 | reading the first element consumes exactly its memory cost, and the rest is the read of the remaining plan |
| StackTop.SourcesCons | src/uwvm2/runtime/compiler/uwvm_int/optable/define.h:1141-1163 | the first source follows `can_get_val_from_stacktop_cache` and the rest is planned from the popped state |
| StackTop.ReadSource | src/uwvm2/runtime/compiler/uwvm_int/optable/define.h:1114-1137 | one step of `fill_uwvm_interpreter_vals_from_operand_stack`: `sp` drops by the element's memory cost and the value read is the head of the plan's read |
| StackTop.ReadPlan | src/uwvm2/runtime/compiler/uwvm_int/optable/define.h:1114-1137 | reading a whole plan returns the plan's read and lowers `sp` by the plan's memory bytes, leaving the slots unchanged |
| StackTop.GetVals | src/uwvm2/runtime/compiler/uwvm_int/optable/define.h:1165-1173 | `get_vals_from_operand_stack` returns the elements in order, from the cache while the type still has slots and from memory afterwards, and lowers `sp` by the bytes read from memory |
| Interp.Regs.Pop | src/uwvm2/runtime/compiler/uwvm_int/optable/define.h:536-558 | `get_curr_val_from_operand_stack_cache` lowers `sp` by the value size and returns the bytes at the new `sp` |
| RegisterRing.NextClosed | src/uwvm2/runtime/compiler/uwvm_int/optable/register_ring.h:262-271 | `ring_next_pos` is `begin + (pos - begin + 1) mod size` |
| RegisterRing.Advance | src/uwvm2/runtime/compiler/uwvm_int/optable/register_ring.h:284-295 | `ring_advance_next_pos<Pos, Steps>` applies `ring_next_pos` `Steps` times and stays in the ring |
| RegisterRing.AdvanceClosed | src/uwvm2/runtime/compiler/uwvm_int/optable/register_ring.h:284-295 | advancing `k` steps is `begin + (pos - begin + k) mod size` |
| RegisterRing.AdvanceStep | src/uwvm2/runtime/compiler/uwvm_int/optable/register_ring.h:284-295 | one more step is one more `ring_next_pos`, and `ring_prev_pos` undoes it |
| RegisterRing.AdvancePeriod | src/uwvm2/runtime/compiler/uwvm_int/optable/register_ring.h:284-295 | advancing by a full ring size returns to the same slot |
| RegisterRing.AdvanceInjective | src/uwvm2/runtime/compiler/uwvm_int/optable/register_ring.h:593-596 | fewer than ring-size steps never revisit a slot, so a segment of `Count <= size` slots names distinct slots |
| RegisterRing.RepeatSize | src/uwvm2/runtime/compiler/uwvm_int/optable/register_ring.h:602 | `n` values of one type take `sizeof(T)*n` bytes |
| RegisterRing.ImageLength | src/uwvm2/runtime/compiler/uwvm_int/optable/register_ring.h:567-582 | the spilled image of `n` typed slots has the summed byte size |
| RegisterRing.ImageSuffix | src/uwvm2/runtime/compiler/uwvm_int/optable/register_ring.h:567-582 | the image of the first `j` slots is the top end of the image of `n` slots: `StartPos` lands highest, deeper slots lower |
| RegisterRing.ImageChunk | src/uwvm2/runtime/compiler/uwvm_int/optable/register_ring.h:567-582 | chunk `k` of the spilled image (counted from the top) is the slot `next^k(StartPos)` |
| RegisterRing.FillSpecElsewhere | src/uwvm2/runtime/compiler/uwvm_int/optable/register_ring.h:641-657 | filling leaves every slot outside the segment unchanged |
| RegisterRing.FillSpecAt | src/uwvm2/runtime/compiler/uwvm_int/optable/register_ring.h:641-685 | filling puts chunk `k` of the memory bytes into slot `next^k(StartPos)`: the deepest memory value at `next^(Count-1)(StartPos)` and the top value at `StartPos` |
| RegisterRing.ImageOfChunks | src/uwvm2/runtime/compiler/uwvm_int/optable/register_ring.h:566-608 | when every segment slot holds its chunk of some bytes, the spilled image is exactly those bytes |
| RegisterRing.SpillFillRoundTrip | src/uwvm2/runtime/compiler/uwvm_int/optable/register_ring.h:584-685 | spilling a segment and filling it back with the same `StartPos` and types restores the slots |
| RegisterRing.FillSpecChunked | src/uwvm2/runtime/compiler/uwvm_int/optable/register_ring.h:641-685 | after a fill, every segment slot holds its chunk of the bytes read |
| RegisterRing.FillSpillRoundTrip | src/uwvm2/runtime/compiler/uwvm_int/optable/register_ring.h:584-685 | filling from memory and spilling again reproduces the same memory bytes, with the slots typed |
| RegisterRing.Spill | src/uwvm2/runtime/compiler/uwvm_int/optable/register_ring.h:591-608 | `spill_stacktop_range_to_operand_stack` raises `sp` by the segment's byte size and writes the image at the old `sp`, the top slot highest; slots and `ip` are unchanged |
| RegisterRing.StoreSegment | src/uwvm2/runtime/compiler/uwvm_int/optable/register_ring.h:567-582 | the descending write loop stores the image just below `write_ptr` |
| RegisterRing.StoreSlot | src/uwvm2/runtime/compiler/uwvm_int/optable/register_ring.h:571-580 | one step writes slot `next^k(StartPos)` below the previous values and moves to the next ring slot |
| RegisterRing.SpillStep | src/uwvm2/runtime/compiler/uwvm_int/optable/register_ring.h:571-573 | the slot spilled at step `k` has its type's size and fits below `write_ptr` |
| RegisterRing.StoreBelow | src/uwvm2/runtime/compiler/uwvm_int/optable/register_ring.h:572-573 | `write_ptr -= sizeof(T)` then `memcpy` places the value directly below what was written before |
| RegisterRing.Fill | src/uwvm2/runtime/compiler/uwvm_int/optable/register_ring.h:666-685 | `operand_stack_to_stacktop_range` lowers `sp` by the segment's byte size and loads the popped bytes into the segment slots |
| RegisterRing.SpillThenFill | src/uwvm2/runtime/compiler/uwvm_int/optable/register_ring.h:584-685 | a spill followed by a fill of the same segment restores `sp` and the slot values |
| RegisterRing.HitType | src/uwvm2/runtime/compiler/uwvm_int/optable/register_ring.h:757-783 | when `StartPos` lies in exactly one enabled range, that range's type is the only one that contains it |
| RegisterRing.SpillUntyped | src/uwvm2/runtime/compiler/uwvm_int/optable/register_ring.h:757-834 | the untyped spill needs `StartPos` in exactly one range; `Count == 0` changes nothing; otherwise it spills `Count` values of the hit type |
| RegisterRing.SpillTyped | src/uwvm2/runtime/compiler/uwvm_int/optable/register_ring.h:836-854 | the typed spill needs an enabled range for the type and spills `Count` values of it |
| RegisterRing.SpillMixed | src/uwvm2/runtime/compiler/uwvm_int/optable/register_ring.h:856-897 | the mixed spill needs all types to share one range and writes the per-type image, `sp` rising by the summed sizes |
| RegisterRing.FillUntyped | src/uwvm2/runtime/compiler/uwvm_int/optable/register_ring.h:913-993 | the untyped fill needs `StartPos` in exactly one range; `Count == 0` changes nothing; otherwise `sp` drops by `sizeof(T)*Count` and the popped bytes fill the segment |
| RegisterRing.FillTyped | src/uwvm2/runtime/compiler/uwvm_int/optable/register_ring.h:995-1008 | the typed fill needs the type's range enabled; `sp` drops by `sizeof(T)*Count` |
| RegisterRing.FillMixed | src/uwvm2/runtime/compiler/uwvm_int/optable/register_ring.h:1010-1059 | the mixed fill loads the per-type chunks into a shared range, `sp` dropping by the summed sizes |
| RegisterRing.StackTopToOperandStack | src/uwvm2/runtime/compiler/uwvm_int/optable/register_ring.h:1061-1089 | the `uwvmint_stacktop_to_operand_stack` opfunc spills and then moves `ip` past its own opfunc pointer |
| RegisterRing.OperandStackToStackTop | src/uwvm2/runtime/compiler/uwvm_int/optable/register_ring.h:1098-1124 | the `uwvmint_operand_stack_to_stacktop` opfunc fills and then moves `ip` past its own opfunc pointer |
| RegisterRing.ScanCount | src/uwvm2/runtime/compiler/uwvm_int/optable/register_ring.h:1184-1209 | the count recursion finds an opfunc exactly when `count` lies in `[CountCurr, CountEnd)` |
| RegisterRing.ScanStart | src/uwvm2/runtime/compiler/uwvm_int/optable/register_ring.h:1211-1245 | the start-position recursion finds an opfunc exactly when `start_pos` lies in the range and `1 <= count <= ring size` |
| RegisterRing.Select | src/uwvm2/runtime/compiler/uwvm_int/optable/register_ring.h:1307-1345 | the runtime selector yields a segment exactly when the range is enabled, `remain != 0`, `start_pos` is in `[range_begin, range_end)` and the count fits the ring; otherwise it terminates |
| RegisterRing.SelectedSegmentOk | src/uwvm2/runtime/compiler/uwvm_int/optable/register_ring.h:1307-1345 | a selected segment of a valid layout is a well-formed spill/fill segment |
| IntBits.ToBits | src/uwvm2/runtime/compiler/uwvm_int/optable/convert.h:150-163 | the unsigned view of a value lies in `[0, 2^N)` and leaves an already unsigned value unchanged (`to_u32_bits`, `to_u64_bits`, and `to_unsigned_bits` at src/uwvm2/runtime/compiler/uwvm_int/optable/numeric.h:73-78) |
| IntBits.FromBits | src/uwvm2/runtime/compiler/uwvm_int/optable/convert.h:165-179 | the signed view of an N-bit pattern is in the signed range, negative exactly when the pattern is at least 2^(N-1), and equal to the pattern otherwise |
| IntBits.FromToBits | src/uwvm2/runtime/compiler/uwvm_int/optable/convert.h:149-179 | `from_u32_bits(to_u32_bits(x)) == x`, and the same for 64 bits |
| IntBits.ToFromBits | src/uwvm2/runtime/compiler/uwvm_int/optable/convert.h:149-179 | `to_u32_bits(from_u32_bits(u)) == u` for every N-bit pattern, and the same for 64 bits |
| IntBits.ToBitsInjective | src/uwvm2/runtime/compiler/uwvm_int/optable/numeric.h:73-84 | two signed values with the same bit pattern are equal, so the `bit_cast` loses nothing |
| IntBits.MinSigned | src/uwvm2/runtime/compiler/uwvm_int/optable/numeric.h:313 | `numeric_limits<SignedT>::min()` is in the signed range and below every other signed value |
| IntBits.WrapUnique | src/uwvm2/runtime/compiler/uwvm_int/optable/numeric.h:246-260 | the wrapped result of an unbounded integer is the one signed N-bit value with the same residue mod 2^N |
| IntNumeric.TruncDivDecomposes | src/uwvm2/runtime/compiler/uwvm_int/optable/numeric.h:314 | C++ `/` on signed operands truncates toward zero: the remainder is smaller than the divisor in magnitude, carries the dividend's sign, and the quotient is no larger than the dividend in magnitude |
| IntNumeric.EvalIntBinop | src/uwvm2/runtime/compiler/uwvm_int/optable/numeric.h:244-340 | `eval_int_binop` traps with "integer divide by zero" exactly for a division or remainder by 0, traps with "integer overflow" exactly for `div_s` of `MIN` by -1, and otherwise yields an N-bit signed value |
| IntNumeric.EvalIntUnop | src/uwvm2/runtime/compiler/uwvm_int/optable/numeric.h:219-241 | `clz`, `ctz` and `popcnt` yield a count between 0 and N |
| IntNumeric.WrappingArithmetic | src/uwvm2/runtime/compiler/uwvm_int/optable/numeric.h:246-260 | `add`, `sub` and `mul` on the unsigned view are the exact sum, difference and product reduced mod 2^N |
| IntNumeric.ShiftCountModN | src/uwvm2/runtime/compiler/uwvm_int/optable/numeric.h:276-309 | every shift and rotate depends on `rhs` only through `rhs mod N` of its unsigned view |
| IntNumeric.ShlIsWrappedMultiplication | src/uwvm2/runtime/compiler/uwvm_int/optable/numeric.h:276-282 | `shl` is multiplication by 2^(rhs mod N), wrapped mod 2^N |
| IntNumeric.ArithmeticShiftRight | src/uwvm2/runtime/compiler/uwvm_int/optable/numeric.h:290-295 | `shr_s` by k is the floor of `lhs / 2^k` (the result times 2^k is at most `lhs`, the next multiple exceeds it) |
| IntNumeric.ShrAgreeOnNonNegative | src/uwvm2/runtime/compiler/uwvm_int/optable/numeric.h:283-295 | for a non-negative `lhs`, `shr_s` and `shr_u` agree |
| IntNumeric.ShrSOfMinusOne | src/uwvm2/runtime/compiler/uwvm_int/optable/numeric.h:290-295 | `shr_s` of -1 is -1 for every shift count (the sign fills in) |
| IntNumeric.RotrUndoesRotl | src/uwvm2/runtime/compiler/uwvm_int/optable/numeric.h:296-309 | on bit patterns, rotating right by k undoes rotating left by k |
| IntNumeric.RotateRoundTrip | src/uwvm2/runtime/compiler/uwvm_int/optable/numeric.h:296-309 | `rotr(rotl(a, b), b) == a` for the opcode-level rotates |
| IntNumeric.BitwiseBit | src/uwvm2/runtime/compiler/uwvm_int/optable/numeric.h:261-275 | bit i of the bitwise and/or/xor of two N-bit patterns is the and/or/xor of their bits i |
| IntNumeric.BitwiseOpsPerBit | src/uwvm2/runtime/compiler/uwvm_int/optable/numeric.h:261-275 | bit i of the result of the `and`, `or` and `xor` opcodes is the conjunction, disjunction and exclusive-or of the operands' bits i |
| IntNumeric.DivSRemSDecompose | src/uwvm2/runtime/compiler/uwvm_int/optable/numeric.h:310-328 | off the overflow case, `lhs == div_s * rhs + rem_s`; `rem_s` is smaller than `rhs` in magnitude and has `lhs`'s sign; `rem_s(MIN, -1) == 0` |
| IntNumeric.DivURemUDecompose | src/uwvm2/runtime/compiler/uwvm_int/optable/numeric.h:316-335 | for a non-zero divisor, on the unsigned views `lhs == div_u * rhs + rem_u` with `rem_u < rhs` |
| IntNumeric.UnsignedDivision | src/uwvm2/runtime/compiler/uwvm_int/optable/numeric.h:316-335 | the unsigned quotient and remainder decompose the dividend |
| IntNumeric.CountsOfZero | src/uwvm2/runtime/compiler/uwvm_int/optable/numeric.h:219-241 | `clz(0) == ctz(0) == N` and `popcnt(0) == 0` |
| IntNumeric.CountsOfNonZero | src/uwvm2/runtime/compiler/uwvm_int/optable/numeric.h:219-241 | for a non-zero operand, `clz` locates the highest set bit (`2^(N-clz-1) <= u < 2^(N-clz)`), `ctz` is the lowest set bit (`u` divisible by `2^ctz` and bit `ctz` set), and `popcnt` is positive |
| IntNumeric.CountTrailingZerosFindsLowestBit | src/uwvm2/runtime/compiler/uwvm_int/optable/numeric.h:227-231 | for `0 < u < 2^n`, the trailing-zero count c is below n, `2^c` divides `u` and bit c of `u` is set |
| IntNumeric.CountLeadingZerosBounds | src/uwvm2/runtime/compiler/uwvm_int/optable/numeric.h:222-226 | for `0 < u < 2^n`, the leading-zero count c places `u` in `[2^(n-c-1), 2^(n-c))` |
| IntNumeric.ZeroCounts | src/uwvm2/runtime/compiler/uwvm_int/optable/numeric.h:219-241 | on n bits, 0 has n leading zeros, n trailing zeros and no set bit |
| IntNumeric.PopCountZeroOnlyForZero | src/uwvm2/runtime/compiler/uwvm_int/optable/numeric.h:232-236 | the population count of an n-bit pattern is 0 if and only if the pattern is 0 |
| IntNumeric.PopCountAllOnes | src/uwvm2/runtime/compiler/uwvm_int/optable/numeric.h:232-236 | the all-ones pattern of n bits has n set bits |
| IntNumeric.PopcntOfMinusOne | src/uwvm2/runtime/compiler/uwvm_int/optable/numeric.h:232-236 | `popcnt(-1) == N` |
| IntNumeric.AllOnesBits | src/uwvm2/runtime/compiler/uwvm_int/optable/numeric.h:73-78 | the unsigned view of -1 is `2^N - 1` |
| IntNumeric.SwapPartsInverse | src/uwvm2/runtime/compiler/uwvm_int/optable/numeric.h:296-309 | exchanging the high and low parts of a pattern twice restores it (the building block of both rotates) |
| IntCompare.EvalIntCmp | src/uwvm2/runtime/compiler/uwvm_int/optable/compare.h:86-103 | `eq/ne/lt_s/gt_s/le_s/ge_s` decide on the order of the signed values; the `_u` variants decide on the order of the unsigned reinterpretations |
| IntCompare.CmpResult | src/uwvm2/runtime/compiler/uwvm_int/optable/compare.h:80-82 | a comparison's result is an i32 that is exactly 0 or 1, and 1 if and only if the comparison holds (also src/uwvm2/runtime/compiler/uwvm_int/optable/compare.h:208) |
| IntCompare.BoolToI32 | src/uwvm2/runtime/compiler/uwvm_int/optable/compare.h:80-82 | the Wasm i32 boolean is 0 or 1, and 1 exactly for `true` |
| IntCompare.Eqz | src/uwvm2/runtime/compiler/uwvm_int/optable/compare.h:320-322 | `eqz(v)` is the i32 1 if and only if `v == 0`, else 0, for both widths (also src/uwvm2/runtime/compiler/uwvm_int/optable/compare.h:554 and 1015-1016) |
| IntCompare.EqualityIsBitEquality | src/uwvm2/runtime/compiler/uwvm_int/optable/compare.h:88 | `eq` on the signed view holds if and only if the two bit patterns are equal |
| IntCompare.NegatedComparisons | src/uwvm2/runtime/compiler/uwvm_int/optable/compare.h:86-103 | `ne`, `ge_s`, `le_s`, `ge_u` and `le_u` are the negations of `eq`, `lt_s`, `gt_s`, `lt_u` and `gt_u` |
| IntCompare.ConverseComparisons | src/uwvm2/runtime/compiler/uwvm_int/optable/compare.h:86-103 | `gt` is `lt` with the operands swapped, signed and unsigned |
| IntCompare.SignedAndUnsignedOrder | src/uwvm2/runtime/compiler/uwvm_int/optable/compare.h:86-103 | signed and unsigned `lt` agree when both operands have the same sign; a negative value is below a non-negative one signed but above it unsigned |
| IntCompare.ToBitsOfSigned | src/uwvm2/runtime/compiler/uwvm_int/optable/compare.h:91 | the unsigned reinterpretation `static_cast<UnsignedT>` of a negative value adds 2^N and leaves a non-negative one alone |
| IntConvert.WrapI64 | src/uwvm2/runtime/compiler/uwvm_int/optable/convert.h:246-248 | `i32.wrap_i64` yields the i32 whose bit pattern is the low 32 bits of the operand's pattern (also src/uwvm2/runtime/compiler/uwvm_int/optable/convert.h:1375-1377) |
| IntConvert.WrapIsModular | src/uwvm2/runtime/compiler/uwvm_int/optable/convert.h:246-248 | wrapping an i64 is reduction of its value mod 2^32 into the signed i32 range |
| IntConvert.ExtendSBits | src/uwvm2/runtime/compiler/uwvm_int/optable/convert.h:291-293 | `i64.extend_i32_s` keeps the operand's 32 bits low and fills the high 32 bits with its sign bit |
| IntConvert.ExtendUBits | src/uwvm2/runtime/compiler/uwvm_int/optable/convert.h:336-338 | `i64.extend_i32_u` keeps the operand's 32 bits low and sets the high 32 bits to zero |
| IntConvert.ExtendU | src/uwvm2/runtime/compiler/uwvm_int/optable/convert.h:336-338 | the zero-extended result is a non-negative i64 |
| IntConvert.WrapUndoesExtend | src/uwvm2/runtime/compiler/uwvm_int/optable/convert.h:246-338 | `wrap(extend_s(x)) == x` and `wrap(extend_u(x)) == x` |
| IntConvert.ExtensionsAgreeOnNonNegative | src/uwvm2/runtime/compiler/uwvm_int/optable/convert.h:291-338 | for a non-negative i32 the signed and unsigned extensions give the same i64 |
| IntOps.TopIntOfPush | src/uwvm2/runtime/compiler/uwvm_int/optable/numeric.h:649-650 | the integer read from the top of the stack after pushing `v`'s bytes is `v` |
| IntOps.Unop | src/uwvm2/runtime/compiler/uwvm_int/optable/numeric.h:765-784 | by-reference `i32/i64` `clz/ctz/popcnt`: `ip` moves to the next opfunc, `sp` is unchanged, and the top operand's bytes are replaced by those of `eval_int_unop` of it; nothing else changes (also src/uwvm2/runtime/compiler/uwvm_int/optable/numeric.h:992-1011) |
| IntOps.Binop | src/uwvm2/runtime/compiler/uwvm_int/optable/numeric.h:788-808 | by-reference binary opfunc: the outcome is `eval_int_binop(lhs, rhs)` of the two top operands; on a value `sp` drops by one operand and the result replaces `lhs`; on a trap both operands have been popped and memory is unchanged (also src/uwvm2/runtime/compiler/uwvm_int/optable/numeric.h:1015-1035) |
| IntOps.Cmp | src/uwvm2/runtime/compiler/uwvm_int/optable/compare.h:902-923 | by-reference `i32_cmp` / `i64_cmp`: two operands of width N are popped and the 4-byte i32 result of the comparison is pushed, so `sp` moves by `4 - 2*N/8` (also src/uwvm2/runtime/compiler/uwvm_int/optable/compare.h:1028-1050) |
| IntOps.EqzOp | src/uwvm2/runtime/compiler/uwvm_int/optable/compare.h:1001-1020 | by-reference `eqz`: the operand is popped and the i32 `eqz` result pushed in its place (also src/uwvm2/runtime/compiler/uwvm_int/optable/compare.h:1128-1148) |
| IntOps.Wrap | src/uwvm2/runtime/compiler/uwvm_int/optable/convert.h:1360-1381 | by-reference `i32.wrap_i64`: the 8-byte operand is replaced by the 4-byte wrapped result and `sp` drops by 4 |
| IntOps.Extend | src/uwvm2/runtime/compiler/uwvm_int/optable/convert.h:1491-1538 | by-reference `i64.extend_i32_s/u`: the 4-byte operand is replaced by the 8-byte extended result and `sp` rises by 4 |
| IntOps.UnaryCached | src/uwvm2/runtime/compiler/uwvm_int/optable/numeric.h:553-591 | tail-call `int_unary` on a cached operand: the result replaces the operand in the same ring slot; memory and `sp` are untouched |
| IntOps.BinaryCached | src/uwvm2/runtime/compiler/uwvm_int/optable/numeric.h:599-652 | tail-call `int_binary`: on a ring of two or more slots `lhs` is the slot `next_pos` and the result replaces it; on a one-slot ring `lhs` is peeked from memory and the result overwrites it there; a trap changes nothing (also the ordered trap checks of src/uwvm2/runtime/compiler/uwvm_int/optable/numeric.h:842-899) |
| IntOps.DivSTrapsFirst | src/uwvm2/runtime/compiler/uwvm_int/optable/numeric.h:865-869 | tail-call `div_s` traps exactly for `rhs == 0` or `MIN / -1`, and a zero divisor reports "divide by zero" (also src/uwvm2/runtime/compiler/uwvm_int/optable/numeric.h:1092-1096) |
| IntOps.CmpBytesDecode | src/uwvm2/runtime/compiler/uwvm_int/optable/compare.h:205-208 | the four bytes an i32 comparison stores decode to its 0/1 result |
| IntOps.CmpCachedAsWritten | src/uwvm2/runtime/compiler/uwvm_int/optable/compare.h:195-211 | tail-call `i32_cmp` as written: `lhs` is always read from ring slot `next_pos` and the result written there, whatever the ring size |
| IntOps.CmpCachedOneSlotComparesTopWithItself | src/uwvm2/runtime/compiler/uwvm_int/optable/compare.h:203-208 | on a one-slot i32 ring `next_pos == curr`, so the as-written opfunc compares the top with itself: `lt_s` gives 0 and `eq` gives 1 whatever the operands |
| IntOps.CmpCached | src/uwvm2/runtime/compiler/uwvm_int/optable/numeric.h:613-635 | corrected tail-call `i32_cmp`: as `int_binary` does, a ring of two or more slots compares slot `next_pos` with `curr` and writes `next_pos`; a one-slot ring compares the memory top with the cached value and overwrites the memory top |
| IntOps.CmpIntoTop | src/uwvm2/runtime/compiler/uwvm_int/optable/numeric.h:619-633 | peeks the 4 bytes on top of the operand stack as `lhs` and overwrites them with the comparison result |
| IntOps.CmpCachedUsesBothOperands | src/uwvm2/runtime/compiler/uwvm_int/optable/compare.h:203-208 | with operands -1 below 0, `lt_s` of the two gives 1 while comparing the top with itself gives 0, so the two readings differ |
| IntOps.EqzCached | src/uwvm2/runtime/compiler/uwvm_int/optable/compare.h:314-322 | tail-call `i32_eqz` on a cached operand: the i32 result replaces it in the same slot |
| Interp.Regs.ReadImm | src/uwvm2/runtime/compiler/uwvm_int/optable/memory.h:102-108 | `read_imm<T>` returns the `sizeof(T)` bytes at `ip` and advances `ip` by exactly that many; the stack pointer and cache slots are untouched (also src/uwvm2/runtime/compiler/uwvm_int/optable/variable.h:64-70) |
| Interp.Regs.Push | src/uwvm2/runtime/compiler/uwvm_int/optable/numeric.h:649-650 | the `memcpy` to `type...[1u]` followed by `+= sizeof`: the bytes land at the old `sp`, `sp` rises by their count, and every other byte of the stack buffer is kept |
| Interp.Regs.Peek | src/uwvm2/runtime/compiler/uwvm_int/optable/numeric.h:620 | `peek_curr_val_from_operand_stack_cache` returns the top n bytes without moving `sp` |
| Interp.Regs.Poke | src/uwvm2/runtime/compiler/uwvm_int/optable/numeric.h:634 | `set_curr_val_to_operand_stack_cache_top` overwrites the top n bytes in place |
| Interp.Regs.SetSlot | src/uwvm2/runtime/compiler/uwvm_int/optable/numeric.h:630 | `set_curr_val_to_stacktop_cache` replaces one cache slot and nothing else |
| Interp.Regs.SkipOpfunc | src/uwvm2/runtime/compiler/uwvm_int/optable/compare.h:225 | `type...[0] += sizeof(opfunc)`: `ip` moves past the opfunc pointer, stack and slots unchanged |
| Interp.IntBytesRoundTrip | src/uwvm2/runtime/compiler/uwvm_int/optable/memory.h:117-131 | the `memcpy` image of an i32/i64 read back gives the same value, and every 4/8-byte image is the image of the value it decodes to |
| Interp.WriteBytes | src/uwvm2/runtime/compiler/uwvm_int/optable/memory.h:151-173 | a `memcpy` of a byte sequence into a buffer: the buffer becomes the old contents with those bytes at `at` |
| Interp.Overwrite | src/uwvm2/runtime/compiler/uwvm_int/optable/memory.h:151-173 | the written window holds exactly the given bytes and the length is kept |
| Interp.OverwriteKeeps | src/uwvm2/runtime/compiler/uwvm_int/optable/memory.h:151-173 | a `memcpy` leaves every byte outside its window as it was |
| Interp.OverwriteElsewhere | src/uwvm2/runtime/compiler/uwvm_int/optable/memory.h:151-173 | any range disjoint from the written window reads the same after the write |
| Interp.OverwriteSame | src/uwvm2/runtime/compiler/uwvm_int/optable/memory.h:151-173 | writing back the bytes already there changes nothing |
| Interp.OverwriteAdjacent | src/uwvm2/runtime/compiler/uwvm_int/optable/numeric.h:649-650 | two writes into adjacent windows are one write of the concatenation |
| LeBytes.DecodeEncode | src/uwvm2/runtime/compiler/uwvm_int/optable/memory.h:151-173 | decoding the n-byte little-endian image of `v` gives `v mod 2^(8n)` |
| LeBytes.EncodeDecode | src/uwvm2/runtime/compiler/uwvm_int/optable/memory.h:117-131 | re-encoding the value of n little-endian bytes gives back the same bytes |
| LeBytes.EncodeMod | src/uwvm2/runtime/compiler/uwvm_int/optable/memory.h:151-173 | the n-byte image depends only on `v mod 2^(8n)`, so truncating the value first changes nothing |
| LeBytes.EncodePrefix | src/uwvm2/runtime/compiler/uwvm_int/optable/memory.h:2196-2203 | the first k bytes of the n-byte little-endian image are the k-byte image (the low bytes come first) |
| LeBytes.DecodePrefix | src/uwvm2/runtime/compiler/uwvm_int/optable/memory.h:2196-2203 | the first k bytes of the image decode to the value mod 2^(8k) |
| LeBytes.DecodeSigned | src/uwvm2/runtime/compiler/uwvm_int/optable/memory.h:839-846 | the two's-complement reading of a byte sequence is in the signed range, negative exactly when the top bit is set, and differs from the unsigned reading by 0 or 2^(8n) |
| MemoryOps.EffectiveOffset | src/uwvm2/runtime/compiler/uwvm_int/optable/memory.h:444-451 | `wasm32_effective_offset` as written yields a 32-bit value |
| MemoryOps.EffectiveOffsetWraps | src/uwvm2/runtime/compiler/uwvm_int/optable/memory.h:444-451 | `wasm32_effective_offset(addr, off) == (addr + off) mod 2^32`: the exact sum, minus 2^32 when it reaches 2^32 |
| MemoryOps.StandardAddress | src/uwvm2/runtime/compiler/uwvm_int/optable/memory.h:444-451 | the corrected effective address is the unsigned address plus the offset, without wrap-around (at most `2 * (2^32 - 1)`) |
| MemoryOps.WrappedAccessPassesBoundsCheck | src/uwvm2/runtime/compiler/uwvm_int/optable/memory.h:444-451 | when `addr + off` reaches 2^32 and the wrapped address fits in memory, the as-written offset passes the bounds check that the unwrapped address fails |
| MemoryOps.WrappedAccessExample | src/uwvm2/runtime/compiler/uwvm_int/optable/memory.h:444-451 | `addr = -1`, `offset = 4`: the as-written offset is 3 and a one-byte access passes the bounds check of a one-page memory, while the standard address 2^32 + 3 is out of bounds |
| MemoryOps.InBoundsIff | src/uwvm2/runtime/compiler/uwvm_int/optable/memory.h:278-283 | the overflow-free test `bytes > len \|\| eff > len - bytes` fails exactly when `eff + bytes > len` |
| MemoryOps.StandardAddressBoundsCheck | src/uwvm2/runtime/compiler/uwvm_int/optable/memory.h:272-285 | with the standard address the access is in bounds iff `addr + off + bytes <= len`, and for an in-bounds access the as-written and standard addresses agree |
| MemoryOps.OffsetInPow2BoundIff | src/uwvm2/runtime/compiler/uwvm_int/optable/memory.h:181-190 | `offset_in_pow2_bound<S>(o)` holds iff `o < 2^S` (i.e. `o >> S == 0`), and always when `S` is at least the bit width |
| MemoryOps.Loaded | src/uwvm2/runtime/compiler/uwvm_int/optable/memory.h:839-846 | a load of n bytes yields a value in the result's signed range |
| MemoryOps.LoadExtension | src/uwvm2/runtime/compiler/uwvm_int/optable/memory.h:839-846 | `load8/16/32_s` sign-extend (the result's pattern is the loaded bytes plus `2^N - 2^(8n)` when their top bit is set) and `_u` zero-extend (the result is the unsigned value of the bytes) (also src/uwvm2/runtime/compiler/uwvm_int/optable/memory.h:897-901 and 1080-1084) |
| MemoryOps.StoreImage | src/uwvm2/runtime/compiler/uwvm_int/optable/memory.h:2196-2203 | `storeN` writes the low n bytes of the value's little-endian image, which decode to the value mod 2^(8n) (also src/uwvm2/runtime/compiler/uwvm_int/optable/memory.h:2233-2239) |
| MemoryOps.StoreLoadRoundTrip | src/uwvm2/runtime/compiler/uwvm_int/optable/memory.h:117-173 | after a store of n bytes at `ea`, a load of the full width returns the value, a narrower unsigned load returns its low bits, and every byte outside `[ea, ea+n)` is unchanged |
| MemoryOps.GrowResult | src/uwvm2/runtime/compiler/uwvm_int/optable/memory.h:2285-2298 | a failed strict grow returns -1; otherwise (success, or silent grow) the result carries the old page count |
| MemoryOps.GrowResultSignalsFailure | src/uwvm2/runtime/compiler/uwvm_int/optable/memory.h:2285-2298 | for at most 65536 pages the result is -1 if and only if a strict grow failed, and the old page count otherwise |
| MemoryOps.Memory.constructor | src/uwvm2/runtime/compiler/uwvm_int/optable/memory.h:2244-2259 | a fresh linear memory of `pages` pages is all zero bytes |
| MemoryOps.Memory.GrowBy | src/uwvm2/runtime/compiler/uwvm_int/optable/memory.h:2285-2298 | a successful grow appends `delta` pages of zero bytes and keeps the old contents |
| MemoryOps.U32Imm | src/uwvm2/runtime/compiler/uwvm_int/optable/memory.h:1742-1767 | the static-offset immediate is the unsigned little-endian value of its 4 bytes |
| MemoryOps.Load | src/uwvm2/runtime/compiler/uwvm_int/optable/memory.h:1742-1767 | by-reference load: the address is popped; if `[ea, ea+n)` is within memory the loaded (extended) value is pushed in its place, otherwise the run halts with "memory out of bounds" and memory is unchanged; `ip` skips the opfunc and the memarg immediates (also src/uwvm2/runtime/compiler/uwvm_int/optable/memory.h:1772-1798, 1865-1897 and 2021-2057); the address is the corrected unwrapped `addr + offset` of the memory.h:444-451 finding, see "Left out" |
| MemoryOps.Store | src/uwvm2/runtime/compiler/uwvm_int/optable/memory.h:2172-2204 | by-reference store / `storeN`: the value and address are popped; in bounds memory becomes the old memory with the low n bytes of the value at `ea`, out of bounds it halts with memory unchanged (also src/uwvm2/runtime/compiler/uwvm_int/optable/memory.h:2061-2112 and 2208-2240); the address is the corrected unwrapped `addr + offset` of the memory.h:444-451 finding, see "Left out" |
| MemoryOps.MemorySize | src/uwvm2/runtime/compiler/uwvm_int/optable/memory.h:2244-2259 | `memory.size` pushes the current page count as an i32 |
| MemoryOps.MemoryGrow | src/uwvm2/runtime/compiler/uwvm_int/optable/memory.h:2263-2302 | `memory.grow` pops the page delta, appends that many zero pages when the allocator grows, and pushes the grow result in the delta's place |
| StackOps.Chosen | src/uwvm2/runtime/compiler/uwvm_int/optable/stack.h:322-328 | `cond != 0 ? v1 : v2` on byte images |
| StackOps.IsTrueZero | src/uwvm2/runtime/compiler/uwvm_int/optable/stack.h:322-328 | the condition is false exactly when its four bytes are the image of i32 0 |
| StackOps.Drop | src/uwvm2/runtime/compiler/uwvm_int/optable/stack.h:87-104 | tail-call `drop`, valid only when the operand is not cached (`curr_stack_top == SIZE_MAX`): `sp` drops by `sizeof(T)` and `ip` moves to the next opfunc |
| StackOps.DropByref | src/uwvm2/runtime/compiler/uwvm_int/optable/stack.h:112-125 | by-reference `drop`: `sp` drops by exactly `sizeof(T)`, `ip` moves to the next opfunc, nothing else changes |
| StackOps.SelectByref | src/uwvm2/runtime/compiler/uwvm_int/optable/stack.h:307-329 | by-reference `select` pops `cond`, `v2`, `v1` and pushes `cond != 0 ? v1 : v2`; `sp` changes by `-(4 + sizeof(T))` |
| StackOps.ChooseIntoTop | src/uwvm2/runtime/compiler/uwvm_int/optable/stack.h:199-206 | with `v1` on top of memory and `v2` cached, the choice overwrites `v1` in memory |
| StackOps.ChooseOnStack | src/uwvm2/runtime/compiler/uwvm_int/optable/stack.h:207-215 | with both values in memory, `v2` is consumed, the choice overwrites `v1`, and `sp` drops by `sizeof(T)` |
| StackOps.Select | src/uwvm2/runtime/compiler/uwvm_int/optable/stack.h:162-299 | tail-call `select` on each of the nine layouts: a merged ring of at least 3 slots reads `v2 = next(curr)`, `v1 = next(v2)` and writes the result at `v1`; on a ring of 1 both values come from memory and `sp` drops by `sizeof(T)`; in every layout the result `cond != 0 ? v1 : v2` is left where `v1` was |
| StackOps.SelectCachedCond | src/uwvm2/runtime/compiler/uwvm_int/optable/stack.h:169-255 | the layouts with a cached condition give the `select` effect of their path |
| StackOps.SelectStackedCond | src/uwvm2/runtime/compiler/uwvm_int/optable/stack.h:256-293 | the layouts with the condition in memory pop it first and then give the `select` effect of their path |
| VariableOps.GetLocalEffect | src/uwvm2/runtime/compiler/uwvm_int/optable/variable.h:313-319 | `local.get` copies the bytes at `local_base + off` to the top, raises `sp` by `sizeof(T)`, and changes no other byte |
| VariableOps.StoreLocalEffect | src/uwvm2/runtime/compiler/uwvm_int/optable/variable.h:338-341 | `local.set` writes the top value's bytes at `local_base + off` and changes no other byte; `local.tee` writes the same memory (also src/uwvm2/runtime/compiler/uwvm_int/optable/variable.h:360-364) |
| VariableOps.SetLocal | src/uwvm2/runtime/compiler/uwvm_int/optable/variable.h:338-341 | `local.set` lowers `sp` by the value's size |
| VariableOps.TeeLocal | src/uwvm2/runtime/compiler/uwvm_int/optable/variable.h:360-364 | `local.tee` leaves `sp` where it was |
| VariableOps.SetThenGet | src/uwvm2/runtime/compiler/uwvm_int/optable/variable.h:313-341 | `local.set` then `local.get` of the same local pushes back the value that was set, at the same height |
| VariableOps.SetThenGetIsTee | src/uwvm2/runtime/compiler/uwvm_int/optable/variable.h:313-364 | for a local below the stack top, `local.set` then `local.get` is `local.tee` |
| VariableOps.GetKeepsLocals | src/uwvm2/runtime/compiler/uwvm_int/optable/variable.h:313-319 | `local.get` leaves every byte below the stack top, locals included, unchanged |
| VariableOps.LocalAddress | src/uwvm2/runtime/compiler/uwvm_int/optable/variable.h:311-313 | reads the `local_offset_t` immediate, advances `ip` past it, and addresses `local_base + off` |
| VariableOps.LocalGet | src/uwvm2/runtime/compiler/uwvm_int/optable/variable.h:299-320 | by-reference `local.get`: `ip` skips the opfunc and offset and the frame becomes the `local.get` frame |
| VariableOps.PushLocal | src/uwvm2/runtime/compiler/uwvm_int/optable/variable.h:315-319 | the two `memcpy`s of `local.get` give the `local.get` frame |
| VariableOps.LocalSet | src/uwvm2/runtime/compiler/uwvm_int/optable/variable.h:324-342 | by-reference `local.set`: the frame becomes the `local.set` frame |
| VariableOps.PopToLocal | src/uwvm2/runtime/compiler/uwvm_int/optable/variable.h:338-341 | popping into a local gives the `local.set` frame |
| VariableOps.CopyTop | src/uwvm2/runtime/compiler/uwvm_int/optable/variable.h:360-364 | copying the top to a local gives the `local.tee` frame |
| VariableOps.LocalTee | src/uwvm2/runtime/compiler/uwvm_int/optable/variable.h:346-365 | by-reference `local.tee`: the frame becomes the `local.tee` frame |
| VariableOps.Global.constructor | src/uwvm2/runtime/compiler/uwvm_int/optable/variable.h:563-588 | a global's storage holds the given bytes |
| VariableOps.GlobalGet | src/uwvm2/runtime/compiler/uwvm_int/optable/variable.h:563-588 | `global.get` pushes the global's stored bytes and skips the pointer immediate |
| VariableOps.GlobalSet | src/uwvm2/runtime/compiler/uwvm_int/optable/variable.h:592-615 | `global.set` pops the top value into the global's storage |
| VariableOps.SetThenGetGlobal | src/uwvm2/runtime/compiler/uwvm_int/optable/variable.h:561-615 | `global.set` followed by `global.get` on the same global leaves the stored value on top at the original height, and the global holds it |
| Wasm1Validator.NumericSig | src/uwvm2/runtime/compiler/uwvm_int/compile_all_from_uwvm/wasm1.h:2929-3550 | exactly the opcodes 0x45-0xBF are numeric; the tests and comparisons 0x45-0x66 produce an i32, the arithmetic 0x67-0xA6 produces its operand type, and no numeric opcode involves v128 |
| Wasm1Validator.LoadAlignIsWidth | src/uwvm2/runtime/compiler/uwvm_int/compile_all_from_uwvm/wasm1.h:2490-2559 | each load's maximum alignment is the log2 of its access width (1, 2, 4 or 8 bytes), never wider than its result type |
| Wasm1Validator.StoreAlignIsWidth | src/uwvm2/runtime/compiler/uwvm_int/compile_all_from_uwvm/wasm1.h:2560-2604 | each store's maximum alignment is the log2 of its access width, never wider than its operand type |
| Wasm1Validator.BlockResult | src/uwvm2/runtime/compiler/uwvm_int/compile_all_from_uwvm/wasm1.h:692-736 | a block type byte is legal iff it is 0x40 (no result) or one of the four value-type codes, which give a one-value result of that type |
| Wasm1Validator.ExpandLength | src/uwvm2/runtime/compiler/uwvm_int/compile_all_from_uwvm/wasm1.h:160-164 | the expanded local declarations have as many entries as the sum of the group counts, as `all_local_count` adds them |
| Wasm1Validator.FindInGroupsIsExpand | src/uwvm2/runtime/compiler/uwvm_int/compile_all_from_uwvm/wasm1.h:2055-2072 | looking a local index up group by group finds the same type as indexing the expanded declaration list, and nothing past its end |
| Wasm1Validator.LocalTypeIsIndex | src/uwvm2/runtime/compiler/uwvm_int/compile_all_from_uwvm/wasm1.h:2040-2072 | the type of local i is parameter i, or else the declared local at `i - param_count`; it exists iff `i < all_local_count` |
| Wasm1Validator.AllLocals | src/uwvm2/runtime/compiler/uwvm_int/compile_all_from_uwvm/wasm1.h:150-164 | the list of all locals has `param_count + sum of group counts` entries |
| Wasm1Validator.LabelTypes | src/uwvm2/runtime/compiler/uwvm_int/compile_all_from_uwvm/wasm1.h:1211-1212 | corrected label type: a branch to a `loop` carries no values (its parameters, empty in this version), a branch to any other frame carries its results |
| Wasm1Validator.LabelTypesAsWritten | src/uwvm2/runtime/compiler/uwvm_int/compile_all_from_uwvm/wasm1.h:1211-1212 | as written: every branch target's arity and types are taken from the frame's `result`, loops included |
| Wasm1Validator.LabelRulesAgreeOffLoops | src/uwvm2/runtime/compiler/uwvm_int/compile_all_from_uwvm/wasm1.h:1211-1212 | the two label rules agree on every frame that is not a loop and differ on every loop that has a result |
| Wasm1Validator.StepUnary | src/uwvm2/runtime/compiler/uwvm_int/compile_all_from_uwvm/wasm1.h:207-258 | off the polymorphic state a unary numeric op succeeds iff the top is its operand type, replacing it by the result type; underflow and type mismatch are told apart |
| Wasm1Validator.StepBinary | src/uwvm2/runtime/compiler/uwvm_int/compile_all_from_uwvm/wasm1.h:260-332 | off the polymorphic state a binary numeric op succeeds iff the two top entries have its operand type, replacing them by the result type; underflow and type mismatch are told apart |
| Wasm1Validator.MemArgError | src/uwvm2/runtime/compiler/uwvm_int/compile_all_from_uwvm/wasm1.h:343-361 | a memory access is rejected iff the module has no memory or `align` exceeds the maximum alignment |
| Wasm1Validator.StepLoad | src/uwvm2/runtime/compiler/uwvm_int/compile_all_from_uwvm/wasm1.h:334-450 | off the polymorphic state a load succeeds iff a memory exists, the alignment is legal and the top is i32, replacing the address by the loaded type |
| Wasm1Validator.StepStore | src/uwvm2/runtime/compiler/uwvm_int/compile_all_from_uwvm/wasm1.h:452-580 | off the polymorphic state a store succeeds iff a memory exists, the alignment is legal and the stack ends with i32 then the stored type, popping both |
| Wasm1Validator.StepBlock | src/uwvm2/runtime/compiler/uwvm_int/compile_all_from_uwvm/wasm1.h:653-826 | `block` and `loop` fail exactly on an illegal block type, otherwise push a frame with the block's result, the current height as base and the current polymorphic flag |
| Wasm1Validator.StepIf | src/uwvm2/runtime/compiler/uwvm_int/compile_all_from_uwvm/wasm1.h:827-935 | `if` fails on an illegal block type; off the polymorphic state it needs an i32 condition, pops it and opens an `if` frame based at the new height |
| Wasm1Validator.StepElse | src/uwvm2/runtime/compiler/uwvm_int/compile_all_from_uwvm/wasm1.h:936-1000 | `else` outside an `if` frame is illegal; it needs the then-arm to leave exactly the results, then resets the stack to the base, marks the frame `else` and restores the frame's polymorphic flag |
| Wasm1Validator.StepEnd | src/uwvm2/runtime/compiler/uwvm_int/compile_all_from_uwvm/wasm1.h:1001-1158 | `end` of an `if` with results and no `else` fails with "if missing else"; otherwise it fails iff the stack above the base does not match the results; closing the function frame finishes, any other frame is popped and its results pushed |
| Wasm1Validator.BranchTo | src/uwvm2/runtime/compiler/uwvm_int/compile_all_from_uwvm/wasm1.h:1214-1246 | off the polymorphic state a branch succeeds iff the stack holds the target's arity and its top has the target's first type; the stack is then cut to the current base and becomes polymorphic |
| Wasm1Validator.StepBr | src/uwvm2/runtime/compiler/uwvm_int/compile_all_from_uwvm/wasm1.h:1159-1249 | corrected `br`: a label beyond the frame stack is illegal; off the polymorphic state a legal `br` succeeds iff the stack holds at least the label's arity with its first type on top, where a `loop`'s label carries nothing (the wasm1.h:1211-1212 finding, see "Left out"); on the polymorphic state a legal `br` succeeds; success pops the carried values and unwinds to a polymorphic state no higher than the current base |
| Wasm1Validator.StepBrAsWritten | src/uwvm2/runtime/compiler/uwvm_int/compile_all_from_uwvm/wasm1.h:1159-1249 | as-written `br`: a label beyond the frame stack is illegal; off the polymorphic state a legal `br` succeeds iff the stack holds at least the target frame's result count with its first result on top, loops included; success pops those values and unwinds |
| Wasm1Validator.CondBranchTo | src/uwvm2/runtime/compiler/uwvm_int/compile_all_from_uwvm/wasm1.h:1302-1342 | off the polymorphic state `br_if` succeeds iff an i32 condition sits above the target's arity of values of the right type; only the condition is popped |
| Wasm1Validator.StepBrIf | src/uwvm2/runtime/compiler/uwvm_int/compile_all_from_uwvm/wasm1.h:1250-1344 | corrected `br_if`: an out-of-range label is illegal; off the polymorphic state a legal `br_if` succeeds iff the stack holds the label's arity plus an i32 condition on top, with the label's first type beneath it; for a `loop` that is the condition alone; on the polymorphic state it succeeds; success pops only the condition |
| Wasm1Validator.StepBrIfAsWritten | src/uwvm2/runtime/compiler/uwvm_int/compile_all_from_uwvm/wasm1.h:1250-1344 | as-written `br_if`: an out-of-range label is illegal; off the polymorphic state a legal `br_if` succeeds iff the stack holds the target frame's result count plus an i32 condition on top, with the first result beneath it, loops included; success pops only the condition |
| Wasm1Validator.BrIfToLoopAsWrittenUnderflows | src/uwvm2/runtime/compiler/uwvm_int/compile_all_from_uwvm/wasm1.h:1300-1310 | with an i32 condition alone on the stack inside `loop (result i32)`, the as-written `br_if 0` reports operand-stack underflow while the corrected rule accepts it and pops the condition |
| Wasm1Validator.BrToLoopAsWrittenUnderflows | src/uwvm2/runtime/compiler/uwvm_int/compile_all_from_uwvm/wasm1.h:1211-1219 | on an empty stack inside `loop (result i32)`, the as-written `br 0` reports operand-stack underflow while the corrected rule accepts it and makes the stack polymorphic |
| Wasm1Validator.BrTableOverLoopAndBlock | src/uwvm2/runtime/compiler/uwvm_int/compile_all_from_uwvm/wasm1.h:1405-1460 | a `br_table` over a `block (result i32)` and a `loop (result i32)`: the as-written signatures agree, and under the corrected loop rule the table is rejected with a target type mismatch |
| Wasm1Validator.TableTargets | src/uwvm2/runtime/compiler/uwvm_int/compile_all_from_uwvm/wasm1.h:1387-1430 | the label list is accepted iff every label is in range and has the same label signature as the expected one, with the corrected loop label rule of the wasm1.h:1211-1212 finding, see "Left out" |
| Wasm1Validator.StepBrTable | src/uwvm2/runtime/compiler/uwvm_int/compile_all_from_uwvm/wasm1.h:1345-1566 | `br_table` succeeds iff every target (default included) is in range with the same signature as the first and, off the polymorphic state, the stack holds the first label's arity plus an i32 selector on top, with the label's first type beneath it; success leaves a polymorphic state no higher than the current base; labels follow the corrected loop rule, see "Left out" |
| Wasm1Validator.StepReturn | src/uwvm2/runtime/compiler/uwvm_int/compile_all_from_uwvm/wasm1.h:1567-1628 | off the polymorphic state `return` succeeds iff the stack ends with the function's results; it then unwinds and becomes polymorphic |
| Wasm1Validator.Invoke | src/uwvm2/runtime/compiler/uwvm_int/compile_all_from_uwvm/wasm1.h:1700-1742 | a call succeeds off the polymorphic state iff the stack ends with the callee's parameters, which are replaced by its results |
| Wasm1Validator.StepCall | src/uwvm2/runtime/compiler/uwvm_int/compile_all_from_uwvm/wasm1.h:1629-1744 | `call` of an index past all functions is an invalid function index; otherwise it is the callee type's stack effect |
| Wasm1Validator.StepCallIndirect | src/uwvm2/runtime/compiler/uwvm_int/compile_all_from_uwvm/wasm1.h:1745-1888 | `call_indirect` needs a table and a type index in range (checked in that order); off the polymorphic state it succeeds iff the stack ends with the type's parameters then an i32 |
| Wasm1Validator.StepDrop | src/uwvm2/runtime/compiler/uwvm_int/compile_all_from_uwvm/wasm1.h:1889-1925 | off the polymorphic state `drop` succeeds iff the stack is non-empty, and pops one entry |
| Wasm1Validator.StepSelect | src/uwvm2/runtime/compiler/uwvm_int/compile_all_from_uwvm/wasm1.h:1926-2003 | off the polymorphic state `select` succeeds iff the top is i32 and the two values under it have the same type; it leaves one value of that type (the deeper slot) |
| Wasm1Validator.StepLocalGet | src/uwvm2/runtime/compiler/uwvm_int/compile_all_from_uwvm/wasm1.h:2004-2085 | `local.get i` succeeds iff `i` is a local index, pushing that local's type; otherwise "illegal local index" |
| Wasm1Validator.StepLocalSet | src/uwvm2/runtime/compiler/uwvm_int/compile_all_from_uwvm/wasm1.h:2086-2194 | `local.set i` needs a legal index and, off the polymorphic state, a top of the local's type, which it pops |
| Wasm1Validator.StepLocalTee | src/uwvm2/runtime/compiler/uwvm_int/compile_all_from_uwvm/wasm1.h:2195-2305 | `local.tee i` has `local.set`'s conditions but leaves the stack as it was |
| Wasm1Validator.StepGlobalGet | src/uwvm2/runtime/compiler/uwvm_int/compile_all_from_uwvm/wasm1.h:2306-2378 | `global.get g` succeeds iff `g` is a global index, pushing its type; otherwise "illegal global index" |
| Wasm1Validator.StepGlobalSet | src/uwvm2/runtime/compiler/uwvm_int/compile_all_from_uwvm/wasm1.h:2379-2489 | `global.set g` needs a legal index (else "illegal global index") and a mutable global (else "immutable global"), then pops a top of the global's type |
| Wasm1Validator.MemIndexError | src/uwvm2/runtime/compiler/uwvm_int/compile_all_from_uwvm/wasm1.h:2605-2666 | a memory index is accepted iff it is 0 and the module has a memory |
| Wasm1Validator.StepMemorySize | src/uwvm2/runtime/compiler/uwvm_int/compile_all_from_uwvm/wasm1.h:2605-2666 | `memory.size` succeeds iff memory 0 exists and pushes an i32 |
| Wasm1Validator.StepMemoryGrow | src/uwvm2/runtime/compiler/uwvm_int/compile_all_from_uwvm/wasm1.h:2667-2756 | off the polymorphic state `memory.grow` succeeds iff memory 0 exists and the top is i32, and leaves an i32 |
| Wasm1Validator.StepNumeric | src/uwvm2/runtime/compiler/uwvm_int/compile_all_from_uwvm/wasm1.h:3540-3550 | an opcode outside the numeric table is an illegal opbase; a numeric op that succeeds leaves its signature's result type on top |
| Wasm1Validator.Record | src/uwvm2/runtime/compiler/uwvm_int/compile_all_from_uwvm/wasm1.h:3553 | after every step the recorded maximum becomes the larger of it and the current height, unless the state is polymorphic |
| Wasm1Validator.Initial | src/uwvm2/runtime/compiler/uwvm_int/compile_all_from_uwvm/wasm1.h:195-201 | validation starts with an empty stack and one function frame (base 0, the function's results) |
| Wasm1Validator.StepKeepsFrames | src/uwvm2/runtime/compiler/uwvm_int/compile_all_from_uwvm/wasm1.h:591-3554 | a step from a well-framed state finishes only at `end` of the function frame, keeps the function frame (and only it) at the bottom of the frame stack, and never changes the recorded maximum itself |
| Wasm1Validator.StepKeepsMaximum | src/uwvm2/runtime/compiler/uwvm_int/compile_all_from_uwvm/wasm1.h:591-3554 | no instruction changes the recorded maximum itself; only the per-step update does |
| Wasm1Validator.StepFinishesOnlyAtEnd | src/uwvm2/runtime/compiler/uwvm_int/compile_all_from_uwvm/wasm1.h:1140-1155 | validation finishes only at an `end` that closes the function frame |
| Wasm1Validator.StepKeepsFunctionFrame | src/uwvm2/runtime/compiler/uwvm_int/compile_all_from_uwvm/wasm1.h:591-3554 | every step keeps the state well framed: exactly one function frame, at the bottom of the frame stack |
| Wasm1Validator.StructuredKeepsFunctionFrame | src/uwvm2/runtime/compiler/uwvm_int/compile_all_from_uwvm/wasm1.h:653-1158 | `block`, `loop`, `if`, `else` and `end` keep the state well framed |
| Wasm1Validator.ValidateFunction | src/uwvm2/runtime/compiler/uwvm_int/compile_all_from_uwvm/wasm1.h:589-3555 | the validation loop over the body returns the verdict of the recursive instruction-by-instruction definition, whose branches use the corrected loop label rule of the wasm1.h:1211-1212 finding, see "Left out" |
| Wasm1Validator.RunValidEndsWithEnd | src/uwvm2/runtime/compiler/uwvm_int/compile_all_from_uwvm/wasm1.h:593-604 | a run accepted from any position ends at a final `end` of the body |
| Wasm1Validator.ValidEndsWithEnd | src/uwvm2/runtime/compiler/uwvm_int/compile_all_from_uwvm/wasm1.h:1140-1155 | an accepted function's body is non-empty and its last instruction is `end` (nothing trails the final `end`) |
| Wasm1Validator.RunWithoutEnd | src/uwvm2/runtime/compiler/uwvm_int/compile_all_from_uwvm/wasm1.h:593-604 | a body without `end` from the current position is rejected, and one of only `nop`s and constants is rejected with "missing end" |
| Wasm1Validator.RunRecordsChain | src/uwvm2/runtime/compiler/uwvm_int/compile_all_from_uwvm/wasm1.h:3553 | the states a run passes through form a chain of recorded maxima, and an accepted run reports the last of them |
| Wasm1Validator.ChainMax | src/uwvm2/runtime/compiler/uwvm_int/compile_all_from_uwvm/wasm1.h:3553 | the last recorded maximum bounds every non-polymorphic height on the chain and is reached by one of them (or is the initial value) |
| Wasm1Validator.MaxHeight | src/uwvm2/runtime/compiler/uwvm_int/compile_all_from_uwvm/wasm1.h:3553 | the `operand_stack_max` of an accepted function bounds the stack height of every non-polymorphic step and equals one of them (or is 0) |
| Wasm1Validator.StackPolymorphicAfterJump | src/uwvm2/runtime/compiler/uwvm_int/compile_all_from_uwvm/wasm1.h:629-635 | `unreachable`, `br`, `br_table` and `return` make the stack polymorphic and cut it to at most the current frame's base, keeping the frames (also src/uwvm2/runtime/compiler/uwvm_int/compile_all_from_uwvm/wasm1.h:1239-1246 and 1623-1625) |
| Wasm1Validator.BlockOpensFrame | src/uwvm2/runtime/compiler/uwvm_int/compile_all_from_uwvm/wasm1.h:692-736 | `block`/`loop`/`if` push exactly one frame on top of the old ones, based at the new height, with the block type's results and the old polymorphic flag (also src/uwvm2/runtime/compiler/uwvm_int/compile_all_from_uwvm/wasm1.h:906-933) |
| Wasm1Validator.EndLeavesResults | src/uwvm2/runtime/compiler/uwvm_int/compile_all_from_uwvm/wasm1.h:1065-1138 | when the stack above the base is exactly the frame's results, `end` leaves the stack as it was |
| Wasm1Validator.CompileAll | src/uwvm2/runtime/compiler/uwvm_int/compile_all_from_uwvm/wasm1.h:117-1155 | corrected compile loop: either every local function validates and its `operand_stack_max` is recorded in order, or the first invalid function is reported with its error and all before it validate |
| Wasm1Validator.CompileAllAsWritten | src/uwvm2/runtime/compiler/uwvm_int/compile_all_from_uwvm/wasm1.h:1140-1155 | as written, the `return storage` in the function-frame `end` leaves the loop over local functions after the first one, so at most one result is recorded |
| Wasm1Validator.CompileAllAsWrittenSkipsLaterFunctions | src/uwvm2/runtime/compiler/uwvm_int/compile_all_from_uwvm/wasm1.h:117-1155 | a module whose second function lacks `end` compiles as written with one recorded result, although that function is invalid |
| InitModel.U32 | src/uwvm2/uwvm/runtime/initializer/init.h:122-126 | an `i32.const` value is reinterpreted as an unsigned 32-bit offset: non-negative values are kept, negative ones are offset by 2^32 |
| InitModel.U64 | src/uwvm2/uwvm/runtime/initializer/init.h:596-600 | an `i64.const` value is stored as its unsigned 64-bit pattern: non-negative values are kept, negative ones are offset by 2^64 |
| InitModel.Write32 | src/uwvm2/uwvm/runtime/initializer/init.h:590-594 | writing the i32 member of a global's storage makes the i32 view read back the value's 32-bit pattern and leaves the upper bytes of the storage alone |
| InitModel.StoreConst | src/uwvm2/uwvm/runtime/initializer/init.h:588-615 | a constant initializer stores its constant in the member of the global's storage that the constant's type selects |
| InitModel.CopyMember | src/uwvm2/uwvm/runtime/initializer/init.h:867-890 | copying a resolved global's value into a global copies exactly the member that the global's type selects |
| InitModel.ConstOffset | src/uwvm2/uwvm/runtime/initializer/init.h:101-147 | a segment offset expression must hold exactly one opcode (else the count is reported); `i32.const` gives its unsigned 32-bit value, `global.get` the placeholder 0, anything else is an invalid opcode |
| InitModel.UnlinkedSlots | src/uwvm2/uwvm/runtime/initializer/init.h:460-500 | every import declaration starts as one slot, in order, linked to nothing |
| InitModel.InitialGlobal | src/uwvm2/uwvm/runtime/initializer/init.h:564-640 | a defined global is accepted iff its type is not v128 and its initializer is one constant or `global.get`; a constant makes it initialized with that constant, `global.get` leaves it uninitialized (also src/uwvm2/uwvm/runtime/initializer/init.h:62-99) |
| InitModel.FindModule | src/uwvm2/uwvm/runtime/initializer/init.h:987-993 | the module lookup by name finds the first module of that name, or reports that none has it |
| InitModel.LinkFor | src/uwvm2/uwvm/runtime/initializer/init.h:1103-1133 | an import is linked only when an export of its kind exists in a known module; an index below the exporter's import count links to that import, one within its defined items links to the defined item, anything else leaves the slot as it was (the same for the four kinds, also src/uwvm2/uwvm/runtime/initializer/init.h:1007-1037) |
| InitModel.LinkForValid | src/uwvm2/uwvm/runtime/initializer/init.h:1103-1133 | linking never produces a link to an index that the target module does not have |
| InitModel.LinkForIdempotent | src/uwvm2/uwvm/runtime/initializer/init.h:980-1135 | linking a slot a second time against the same modules changes nothing |
| InitModel.LinkForSameCounts | src/uwvm2/uwvm/runtime/initializer/init.h:1117-1130 | the link chosen depends only on the modules' import and definition counts, so linking one module does not change how another links |
| InitModel.LinkSlots | src/uwvm2/uwvm/runtime/initializer/init.h:1103-1133 | linking a list of slots keeps each declaration and replaces each link by the one chosen for it |
| InitModel.WithImports | src/uwvm2/uwvm/runtime/initializer/init.h:1005-1133 | replacing the slots of one kind changes only that kind's slots, and keeps the counts when the slot count is kept |
| InitModel.LinkModule | src/uwvm2/uwvm/runtime/initializer/init.h:980-1135 | linking a module keeps every count and every part of the module other than its import slots |
| InitModel.ImportsOfLinked | src/uwvm2/uwvm/runtime/initializer/init.h:980-1135 | the slots of each kind in a linked module are the linked versions of its original slots |
| InitModel.LinkedSlot | src/uwvm2/uwvm/runtime/initializer/init.h:980-1135 | after every module has been linked against the original ones, each slot links as linking it again against the linked modules would, has the right kind, and its link is valid |
| InitModel.LinkingLinks | src/uwvm2/uwvm/runtime/initializer/init.h:980-1135 | linking every module leaves a fully linked runtime in which every global link is valid, with each kind's slots still sorted by kind |
| InitModel.Follow | src/uwvm2/uwvm/runtime/initializer/init.h:151-277 | following an imported global's links ends at a defined global of a valid module, or reports a circular import (a slot visited twice) or an unresolved import |
| InitModel.FollowIsWalk | src/uwvm2/uwvm/runtime/initializer/init.h:159-272 | whenever the visited-set walk does not report a cycle, a walk with enough steps along the same links gives the same answer |
| InitModel.WalkIsFollow | src/uwvm2/uwvm/runtime/initializer/init.h:159-272 | a walk that answers within its step budget agrees with the visited-set walk, unless that one reports a cycle |
| InitModel.SelfLinkIsCycle | src/uwvm2/uwvm/runtime/initializer/init.h:179-200 | an imported global linked to itself is reported as a circular dependency |
| InitModel.FollowSameLinks | src/uwvm2/uwvm/runtime/initializer/init.h:151-277 | the global an import resolves to depends only on the modules' global links and global counts |
| InitModel.MarkShrinksPending | src/uwvm2/uwvm/runtime/initializer/init.h:709-731 | marking an uninitialized global as initializing shrinks the set of globals still to initialize, so the recursive initialization terminates |
| InitModel.OffsetAfterLinking | src/uwvm2/uwvm/runtime/initializer/init.h:364-433 | after linking, an `i32.const` offset is as before; a `global.get` offset needs an immutable imported global that resolves to an i32 global and is that global's unsigned 32-bit value (also src/uwvm2/uwvm/runtime/initializer/init.h:279-362) |
| InitModel.OffsetThroughChain | src/uwvm2/uwvm/runtime/initializer/init.h:279-433 | an offset `global.get i` whose import chain ends in a global initialized by `i32.const c` evaluates to c as an unsigned 32-bit value |
| InitModel.RelocatedFinal | src/uwvm2/uwvm/runtime/initializer/init.h:935-954 | replacing every segment offset by its value after linking keeps the initialization invariant and leaves every offset final |
| InitRuntime.CheckFuncs | src/uwvm2/uwvm/runtime/initializer/init.h:504-526 | the function and code sections are accepted iff they have the same length and every function's type index is in range; the first bad index is the one reported |
| InitRuntime.InitialGlobals | src/uwvm2/uwvm/runtime/initializer/init.h:564-640 | the globals' initial cells are those of each declaration in order, or the error of the first declaration that is rejected |
| InitRuntime.InitialSegments | src/uwvm2/uwvm/runtime/initializer/init.h:643-684 | each segment keeps its expression and gets its placeholder offset, or the error of an offending expression is reported |
| InitRuntime.BuildModule | src/uwvm2/uwvm/runtime/initializer/init.h:436-685 | a module's runtime record holds its unlinked import slots, functions, tables, memories, globals with their initial cells and segments with their offsets; a function/code mismatch rejects it |
| InitRuntime.BuildAll | src/uwvm2/uwvm/runtime/initializer/init.h:1161-1189 | every wasm module gets its record in order, any other module an empty one; nothing is linked yet and the cells hold each global's initial state |
| InitRuntime.Runtime.constructor | src/uwvm2/uwvm/runtime/initializer/init.h:1158-1159 | initialization starts with no module records and no global cells |
| InitRuntime.Runtime.LinkKind | src/uwvm2/uwvm/runtime/initializer/init.h:1007-1037 | linking one kind of one module replaces its slots by their links against the starting modules |
| InitRuntime.Runtime.ResolveImports | src/uwvm2/uwvm/runtime/initializer/init.h:980-1135 | every module is linked against the modules as they were before linking, keeping every count |
| InitRuntime.Runtime.EnsureInitialized | src/uwvm2/uwvm/runtime/initializer/init.h:687-918 | an initialized global is left as it is, an initializing one is a circular dependency, a bad initializer is reported, and success leaves the global initialized with the invariant kept (nothing initialized before is changed) |
| InitRuntime.Runtime.ImportedValue | src/uwvm2/uwvm/runtime/initializer/init.h:771-896 | a `global.get` initializer needs an import index in range and an immutable import; on success the resolved value is copied so that the global's initialization holds |
| InitRuntime.Runtime.ResolveImportedGlobal | src/uwvm2/uwvm/runtime/initializer/init.h:151-277 | resolving an imported global returns what following its links returns, initializing the global it ends at if needed |
| InitRuntime.Runtime.FinalizeModule | src/uwvm2/uwvm/runtime/initializer/init.h:920-933 | finalizing one module's globals leaves all of them initialized, keeps the invariant and changes no global initialized before |
| InitRuntime.Runtime.FinalizeGlobals | src/uwvm2/uwvm/runtime/initializer/init.h:920-933 | finalizing every module leaves every global initialized with the invariant kept |
| InitRuntime.Runtime.OffsetOf | src/uwvm2/uwvm/runtime/initializer/init.h:364-433 | a segment offset is evaluated after linking without changing any global |
| InitRuntime.Runtime.RelocateSegments | src/uwvm2/uwvm/runtime/initializer/init.h:935-954 | every segment's offset is replaced by its value after linking, or the error of an offending segment is reported |
| InitRuntime.Runtime.FinalizeOffsets | src/uwvm2/uwvm/runtime/initializer/init.h:935-954 | finalizing the offsets changes only the segments, leaving every offset final, or changes nothing on an error |
| InitRuntime.Runtime.Initialize | src/uwvm2/uwvm/runtime/initializer/init.h:1138-1196 | a successful initialization builds one record per module, links them, initializes every global and finalizes every offset |
| RuntimeDispatch.ValtypeSize | src/uwvm2/runtime/lib/uwvm_runtime.default.cpp:518-544 | a value-type code has the byte size of its type (4, 8 or 16 for v128); an unknown code has size 0 |
| RuntimeDispatch.TotalAbiBytes | src/uwvm2/runtime/lib/uwvm_runtime.default.cpp:560-570 | the byte size of a type list is the sum of its types' sizes, or 0 as soon as one code is unknown |
| RuntimeDispatch.SumSizesAppend | src/uwvm2/runtime/lib/uwvm_runtime.default.cpp:560-570 | the byte size of two concatenated type lists is the sum of their byte sizes |
| RuntimeDispatch.SumSizesBounds | src/uwvm2/runtime/lib/uwvm_runtime.default.cpp:518-570 | a list of known types takes between 4 and 16 bytes per entry |
| RuntimeDispatch.FuncSigEqual | src/uwvm2/runtime/lib/uwvm_runtime.default.cpp:546-558 | two signatures compare equal iff they have the same parameter and the same result types |
| RuntimeDispatch.UpperBound | src/uwvm2/runtime/lib/uwvm_runtime.default.cpp:133-136 | the upper-bound search over ranges sorted by start returns the number of ranges that start at or before the address |
| RuntimeDispatch.FindDefinedFunc | src/uwvm2/runtime/lib/uwvm_runtime.default.cpp:128-157 | a defined function is found only for a non-null address that lies in a range, on an element boundary, with a cached entry whose function is that address; over disjoint ranges every such address is found |
| RuntimeDispatch.Leaf | src/uwvm2/runtime/lib/uwvm_runtime.default.cpp:623-661 | following import aliases ends only at a slot that is neither an alias nor unresolved, within the step budget |
| RuntimeDispatch.ResolveImportLeaf | src/uwvm2/runtime/lib/uwvm_runtime.default.cpp:623-661 | the alias loop with its 8192-step guard returns the leaf that the step-bounded definition gives |
| RuntimeDispatch.LeafMonotone | src/uwvm2/runtime/lib/uwvm_runtime.default.cpp:627-629 | once the alias chain ends within some number of steps, a larger step budget gives the same leaf |
| RuntimeDispatch.SelfAliasUnresolved | src/uwvm2/runtime/lib/uwvm_runtime.default.cpp:632-637 | an import aliased to itself never resolves, whatever the step budget |
| RuntimeDispatch.LeafOfLeaf | src/uwvm2/runtime/lib/uwvm_runtime.default.cpp:638-648 | a slot that is already defined or locally imported is its own leaf |
| RuntimeDispatch.Pushed | src/uwvm2/runtime/lib/uwvm_runtime.default.cpp:165 | entering a call appends exactly its frame to the call stack |
| RuntimeDispatch.Popped | src/uwvm2/runtime/lib/uwvm_runtime.default.cpp:174 | leaving a call removes exactly the top frame, and nothing when the stack is empty |
| RuntimeDispatch.PushPop | src/uwvm2/runtime/lib/uwvm_runtime.default.cpp:159-176 | leaving undoes entering: the call stack is restored |
| RuntimeDispatch.CallStack.constructor | src/uwvm2/runtime/lib/uwvm_runtime.default.cpp:126 | the call stack starts empty |
| RuntimeDispatch.CallStack.Enter | src/uwvm2/runtime/lib/uwvm_runtime.default.cpp:163-167 | the guard's constructor pushes the callee's module and function index |
| RuntimeDispatch.CallStack.Leave | src/uwvm2/runtime/lib/uwvm_runtime.default.cpp:172-175 | the guard's destructor pops the top frame if there is one |
| RuntimeDispatch.CallStack.Guarded | src/uwvm2/runtime/lib/uwvm_runtime.default.cpp:1275-1276 | during a guarded call the callee's frame is on top of the caller's stack, and afterwards the call stack is as before |
| RuntimeDispatch.Locals | src/uwvm2/runtime/lib/uwvm_runtime.default.cpp:1002-1013 | a callee's locals are its arguments copied to the front of a zeroed buffer of the compiled local size |
| RuntimeDispatch.ExecuteDefined | src/uwvm2/runtime/lib/uwvm_runtime.default.cpp:989-1055 | a call terminates if the parameters do not fit the locals or the operand stack cannot hold the results, or if the body leaves a different number of result bytes; otherwise the parameters are replaced on the caller's stack by the results and nothing else changes |
| RuntimeDispatch.CallIndirect | src/uwvm2/runtime/lib/uwvm_runtime.default.cpp:1284-1404 | `call_indirect` pops an i32 selector; a selector past the table, a null element and a signature mismatch trap, in that order; otherwise the element's function is called with the selector popped |

## Left out

- Floating point: the float operators, comparisons and conversions, and `nearest`. The model carries float values only as bit patterns.
- Concurrency: memory locks, atomics and the mmap memory variants. They do not change what a single access computes.
- `poll_oneoff` and the WASI layer: operating-system event plumbing.
- Diagnostics: printing, verbose timing, trap hooks and `fast_terminate`. A termination becomes an error result, or, where the source treats it as an internal bug, a precondition.
- Tail-call dispatch (`UWVM_MUSTTAIL`, loading the next opfunc pointer) and the `translate::` template recursion that picks function pointers. Each opfunc is one method on the register file; the pointer choice is modelled by `RegisterRing.Select`.
- Allocation back-ends. Allocation, reallocation and alignment in the bitvec and the deque are modelled as a fresh block of the requested size. The deque's controller-array reallocation and rebalancing are modelled only through their effect on the reserved blocks.
- Bitvec.BitVec.OfSize, Bitvec.BitVec.PushBack: an allocation that would exceed `max_size_bytes()` terminates in the source. The model makes this a precondition instead.
- bitvec `insert_index`, the cross-byte loop of `erase_index_unchecked`, the shifts and the binary printing helpers. They are not part of the modelled core.
- LEB128 decoding of the function bodies. The validator works on decoded instructions, so errors about malformed immediates are not modelled.
- Validator opcodes beyond WebAssembly 1.0 and its `v128` paths. `v128` appears only as a value type.
- Union views of the interpreter's stack slots and of global storage. A slot or a global holds the bytes of its latest value, and reading it back at the same width gives those bytes.
- VariableOps.GlobalGet, VariableOps.GlobalSet: the global is reached through its pointer immediate. The immediate is read but not resolved to an address; the model passes the global object.
- The import-linking of tables and memories shares the function and global rule. It is modelled once for all four kinds through `InitModel.LinkFor`.
- InitRuntime.Runtime.ImportedValue: does not separately name the value-kind mismatch error. Its success case states that the copied value satisfies the global's initialization invariant, which includes matching kinds.
- Build options: the link kinds `dl` and `weak_symbol` exist only in some builds. The model always has them, as leaves.
- The ABI register layout per target, `alloca` and the heap buffers, host C-API calls and call-stack dumping. These are platform details.
- `control.h` is not part of this model.
- Bitvec.BitVec.Reserve: asks for the corrected `ceil(n/8)` bytes (`BitLayout.BitsToBlocks`). For `n` within 7 of 2^64 - 1 the source's `(n + 7) >> 3` wraps and asks for 0 bytes (bitvec.h:703-714, shown by `BitLayout.BitsToBlocksWrapsAtSizeMax`).
- MemoryOps.Load, MemoryOps.Store: check and access the unwrapped address `addr + offset` (`MemoryOps.StandardAddress`). The source wraps it mod 2^32 (memory.h:444-451): with addr = 0xFFFFFFFF and offset 4 it accesses byte 3, where the model traps (`MemoryOps.WrappedAccessExample`).
- BlockDeque.Deque.AllocateOnEmpty, BlockDeque.Deque.Clear: put the cursors at the element-aligned midpoint `sz * (bs / 2)` (`BlockDeque.MidBytes`). The source uses `(sz * bs) >> 1` bytes (deque.h:489-495), which differs for an odd `bs`: 2040 against 2046 bytes for 12-byte elements (`BlockDeque.MidBytesAsWrittenMisaligned`).
- BlockDeque.Deque.PopBackUnchecked, BlockDeque.Deque.PopBack: step the back cursor with the guarded `BlockDeque.BackAfterPop`. The source's `back_backspace` (deque.h:1285-1288) always moves to the end of the previous block, so after popping the only element of the front's block its `empty()` answers false (`BlockDeque.BackAfterPopAsWrittenPassesFront`).
- BlockDeque.Deque.GrowFront: on an empty deque also moves the back cursor with the front. The source's `grow_front` (deque.h:680-706) sets only the front; the extra move is needed only because the corrected pop can leave the back cursor at a block's begin.
- Wasm1Validator.StepBr, Wasm1Validator.StepBrIf, Wasm1Validator.TableTargets, Wasm1Validator.StepBrTable, Wasm1Validator.ValidateFunction: use the corrected label rule `Wasm1Validator.LabelTypes`, under which a loop's label carries nothing. The source takes every label's types from the frame's results (wasm1.h:819, 1211-1212, 1300-1301, 1405-1412). So `br 0` in `loop (result i32)` on an empty stack is accepted here and reported as an operand-stack underflow by the source (`Wasm1Validator.BrToLoopAsWrittenUnderflows`), and a `br_table` over a `block (result i32)` and a `loop (result i32)` is accepted by the source and rejected here (`Wasm1Validator.BrTableOverLoopAndBlock`). The as-written `br` and `br_if` are `Wasm1Validator.StepBrAsWritten` and `Wasm1Validator.StepBrIfAsWritten`.

## Findings

| source | as written | input that shows it | evidently intended | confidence | as-written member | corrected member |
|---|---|---|---|---|---|---|
| third-parties/fast_io/include/fast_io_dsal/impl/bitvec.h:1696-1703 | `resize` captures `begin_ptr` before `reserve`, then masks the old partial byte through that stale pointer | a vector whose storage is reallocated by the resize, with stale 1 bits in its last partial byte | mask the partial byte of the buffer that `reserve` returned | not executed | Bitvec.ResizeAsWrittenKeepsStaleBit | Bitvec.BitVec.Resize |
| third-parties/fast_io/include/fast_io_dsal/impl/deque.h:264-269 | the iterator difference uses `a.curr_ptr - b.begin_ptr` | two iterators in blocks whose addresses are 1000 apart yield 1032 instead of 32 | measure each iterator from its own block begin | not executed | BlockDeque.IterDifferenceAsWrittenCountsBlockGap | BlockDeque.IterDifference |
| third-parties/fast_io/include/fast_io_dsal/impl/deque.h:1285-1288 | `back_backspace` always steps the back cursor to the previous block, with no same-block guard like `front_backspace`'s; the correction also makes `grow_front` move an empty deque's back cursor with the front (`BlockDeque.Deque.GrowFront`), since the guarded step can leave it at the front's begin | pop the only element of a block that also holds the front | stay in the block when the front is in it | not executed | BlockDeque.BackAfterPopAsWrittenPassesFront | BlockDeque.BackAfterPop |
| src/uwvm2/runtime/compiler/uwvm_int/optable/memory.h:444-451 | the effective address is `(addr + offset) mod 2^32` | addr = 0xFFFFFFFF, offset = 4: the access goes to address 3 and passes the bounds check | WebAssembly 1.0 section 4.4.4 adds the two without wrapping and traps past the end | not executed | MemoryOps.WrappedAccessExample | MemoryOps.StandardAddressBoundsCheck |
| src/uwvm2/runtime/compiler/uwvm_int/optable/compare.h:203-208 | the tail-call i32 comparison reads the left operand from slot `next_pos` | a one-slot i32 ring, where `next_pos == curr`: `lt_s` gives 0 and `eq` gives 1 for any operands | take the left operand from memory, as `int_binary` does for a one-slot ring | not executed | IntOps.CmpCachedOneSlotComparesTopWithItself | IntOps.CmpCachedUsesBothOperands |
| third-parties/fast_io/include/fast_io_dsal/impl/bitvec.h:1712-1744 | growing clears only the whole new bytes and the old partial byte's tail below the new size, leaving stale bits | storage `[0xFF, 0xFF]` grown from 0 to 12 bits keeps bit 8 true | new bits are false | not executed | BitLayout.GrowStorageAsWrittenKeepsStaleBits | BitLayout.GrowStorageBits |
| third-parties/fast_io/include/fast_io_dsal/impl/bitvec.h:703-714 | the byte count `(bits + 7) >> 3` wraps on a 64-bit `size_t` | bits = 2^64 - 1 gives 0 bytes | the ceiling of bits/8 | not executed | BitLayout.BitsToBlocksWrapsAtSizeMax | BitLayout.BitsToBlocks |
| third-parties/fast_io/include/fast_io_dsal/impl/deque.h:489-495 | the first block's midpoint is `(sz * bs) >> 1` bytes | 12-byte elements (bs = 341): 2046 bytes, 6 bytes off an element boundary | an element-aligned midpoint, `sz * (bs / 2)` bytes | not executed | BlockDeque.MidBytesAsWrittenMisaligned | BlockDeque.MidBytes |
| src/uwvm2/runtime/compiler/uwvm_int/compile_all_from_uwvm/wasm1.h:1211-1212 | `br` takes a target's label types from the frame's results, loops included | `loop (result i32)` on an empty stack: `br 0` reports an operand-stack underflow | a loop's label carries its parameters, none in WebAssembly 1.0 (sections 3.3.5 and 7.3) | not executed | Wasm1Validator.BrToLoopAsWrittenUnderflows | Wasm1Validator.StepBr |
| src/uwvm2/runtime/compiler/uwvm_int/compile_all_from_uwvm/wasm1.h:1300-1301 | `br_if` takes a target's label types from the frame's results, loops included | `loop (result i32)` with only an i32 condition on the stack: `br_if 0` reports an operand-stack underflow | a loop's label carries its parameters, none in WebAssembly 1.0 (sections 3.3.5 and 7.3) | not executed | Wasm1Validator.BrIfToLoopAsWrittenUnderflows | Wasm1Validator.StepBrIf |
| src/uwvm2/runtime/compiler/uwvm_int/compile_all_from_uwvm/wasm1.h:1140-1155 | the function frame's `end` handler returns from the whole compile routine inside the loop over local functions (loop at 117) | a module whose second function has no `end` compiles, with one result | finish this function and continue with the next | not executed | Wasm1Validator.CompileAllAsWrittenSkipsLaterFunctions | Wasm1Validator.CompileAll |
