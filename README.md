# Best-fit allocator with boundary tags, in Dafny

This project models the core of `allocator.c`, a heap allocator. It works inside
one region that it maps from `/dev/zero`. The region is a list of blocks. Each
block starts with a 4-byte header word holding the block size, a multiple of 8.
The two low bits of the header hold two tags: the block is allocated, and the
block before it is allocated. A free block also ends in a footer word that
holds its size. A word equal to 1 marks the end of the region.

The model covers:

- the header codec;
- `initRegion`, which pads the region to whole pages and lays out one free block;
- `alloc_bf`, a best-fit search that may split the block it finds;
- `free_block`, which checks the pointer and frees its block;
- `coalesce`, one pass that merges neighbouring free blocks.

The model has two levels:

- **Words.** The mapped region is an `array<int>` of 4-byte words in the class
  `Allocator.Allocator`. The globals and the `done` flag of `initRegion` are its
  fields. Each method performs the source's reads and writes on these words.
- **Block list.** The words hold a list of `Blk(size, used)` values
  (`Heap.ViewOf`). Each operation is stated on this list (`Placement.Placed`,
  `Blocks.Freed`, `Coalescing.Coalesced`), and its properties are proved there.

The invariant `Heap.Layout` ties the two levels together. It says that:

- the blocks tile the words from word 1 up to the end mark;
- every header decodes to a size of at least 8;
- every free block has its footer;
- every previous-allocated bit agrees with the block before it.

The methods that take a valid heap to a valid heap (`InitRegion`, `AllocBf`,
`Carve`, `FreeBlock` on a block, `Coalesce` and its steps) keep `Layout` and
state their new block list in terms of the list-level function. The one
exception is `FreeBlock` on a pointer to the end mark, which the source lets
through: it states the words written and that no block list fits them any
more. The word-level methods (`Format`, `Place`, `Release`, `FreeWord`,
`Absorb`) state only their words, each equal to a word-level function
(`Heap.InitialWords`, `Heap.PlaceAt`, `Heap.FreeAt`, `Heap.AbsorbAt`).
Allocation, freeing and each single merge state their new words exactly. The coalescing pass and its loop steps
state a frame instead (`Heap.ChangesOnlyFree`): only words inside blocks that
were free may change, every word that changes becomes non-negative and even
(a free header or a footer size), every allocated header stays in the block
list with its word, and every free block afterwards lies inside blocks that
were free. So an allocated block keeps every word (`Heap.AllocatedWordsKept`),
and a header that free_block's bit test refuses stays refused
(`Heap.RefusedStaysRefused`).

Modules:

- `Tags` (`tags.dfy`): the header codec, and the padding arithmetic of
  `alloc_bf` and `initRegion`.
- `Blocks` (`blocks.dfy`): the block list, byte totals, and the list after
  freeing or merging.
- `Placement` (`placement.dfy`): the best-fit choice and the list after a
  placement.
- `Coalescing` (`coalescing.dfy`): the coalescing pass as a fold over the list.
- `Heap` (`heap.dfy`): the word layout, and lemmas that carry it through each
  kind of write.
- `Allocator` (`allocator.dfy`): the allocator object and its methods.

Addresses:

- Word `i` sits at address `firstBlock - 4 + 4*i`, so word 1 is the first header.
- Pointers that `alloc_bf` returns and `free_block` takes are byte addresses.
  The payload of the block whose header is word `h` is at `firstBlock + 4*h`.
  Only the cursors inside a method are word indices.
- NULL is 0.
- The mapping address, the page size, and whether `open`/`mmap` succeed are
  parameters of `InitRegion`.

## Model

| member | source | states |
|---|---|---|
| Tags.IsAllocated | allocator.c:22-25 | the allocated tag is bit 0 of the header word, `v % 2 == 1` |
| Tags.PrevAllocated | allocator.c:26-29 | the previous-allocated tag is bit 1 of the header word, `v & 2` |
| Tags.IsHeader | allocator.c:17-29 | a word the allocator writes as a header is non-negative with bit 2 clear, so only the two tags sit below the size |
| Tags.CRem | allocator.c:195 | C's `%` on a possibly negative word: equal to Dafny's `%` for a non-negative word, and zero or negative, with the same residue, for a negative one |
| Tags.CRemOdd | allocator.c:195 | the bit test of free_block lets a word through exactly when it is positive and odd |
| Tags.Size | allocator.c:17-20 | the size field `(v/8)*8` of a non-negative word is a multiple of 8 within 8 below the word |
| Tags.TagBits | allocator.c:22-29 | the allocated and previous-allocated tags of a header are the two low bits of `v % 8` |
| Tags.Encode | allocator.c:17-29 | the header built from a size and two tags decodes back to that size and those tags, with bit 2 clear |
| Tags.Decoded | allocator.c:17-29 | every header word is the encoding of its own decoded fields (decode then encode is the identity), and `v % 8` is exactly its tag bits |
| Tags.AddSize | allocator.c:238 | adding a multiple of 8 to a header grows the size by that amount and keeps both tags |
| Tags.ClearAllocated | allocator.c:200 | `block_info -= 1` on an allocated header makes it free and keeps its size and previous-allocated tag |
| Tags.SetPrevAllocated | allocator.c:154 | `block_info += 2` on a header whose previous-allocated bit is clear sets that bit and keeps its size and allocated tag |
| Tags.ClearPrevAllocated | allocator.c:210 | `block_info -= 2` on a header whose previous-allocated bit is set clears it and keeps its size and allocated tag |
| Tags.EndMarkIsNoBlock | allocator.c:31-32 | no header of a block of 8 or more bytes equals the end mark 1 |
| Tags.HeaderExamples | allocator.c:34-46 | the worked examples: a 24-byte block is 25/27 when allocated and 24/26 when free, depending on the previous block, and the footer word 24 of a free 24-byte block reads as size 24 |
| Tags.RoundUp8 | allocator.c:102-103 | `total_size` is the least multiple of 8 not below `size+4` (a multiple of 8, within 8 above) |
| Tags.FitsIffFitsRounded | allocator.c:109 | a block whose size is a multiple of 8 holds `size+4` bytes if and only if it holds `total_size` bytes |
| Tags.PadToPage | allocator.c:297-303 | the padded region size is a multiple of the page size, at least the requested size and less than one page more, and a multiple of 8 when the page size is |
| Tags.PadToPageIsLeast | allocator.c:297-303 | no multiple of the page size at or above the requested size is smaller than the padded size |
| Tags.SplitFooter | allocator.c:137-146 | the header `s-t+2` of a split-off rest decodes to size `s-t` with bit 2 clear, and its footer is the last word of the block that was split |
| Blocks.Freed | allocator.c:198-212 | the list after free_block: block k keeps its size and becomes free, and every other block is kept |
| Blocks.Merged | allocator.c:238-242 | the list after a merge: blocks i and i+1 become one free block holding both sizes, and the blocks before and after are kept |
| Blocks.SumIsUsedPlusFree | allocator.c:342-414 | the total size of the blocks is the in-use bytes plus the free bytes, the two totals display() prints |
| Blocks.FreedBytes | allocator.c:199-212 | freeing an allocated block moves exactly its size from the in-use total to the free total and keeps the total size |
| Placement.Placed | allocator.c:131-160 | the list after alloc_bf uses block k for `t` bytes: the blocks before k are kept, block k becomes an allocated block of `t` bytes, a free block of the rest follows it exactly when at least 8 bytes are left, and the blocks after k follow unchanged |
| Placement.BestIn | allocator.c:105-129 | the reference best-fit scan returns -1 or the index of a free block holding the requested bytes |
| Placement.BestInIsBestFit | allocator.c:105-129 | the scan returns NULL if and only if no free block fits; otherwise its block fits, no fitting block is smaller, and every earlier fitting block is strictly larger (the first of the smallest) |
| Placement.BestInSettles | allocator.c:120-124 | once the best block found among a prefix is no larger than any fitting block, the rest of the scan keeps it |
| Placement.ExactFitIsSmallest | allocator.c:102-109 | with sizes multiples of 8, every fitting block holds at least `total_size` bytes |
| Placement.BestInStep | allocator.c:109-118 | one more block replaces the best so far only if it fits and is strictly smaller |
| Placement.ExactFitSettles | allocator.c:121-124 | the early break on a block of exactly `total_size` bytes picks the same block as the full scan |
| Placement.PlacedIsExact | allocator.c:148-157 | when a block is used whole, the list just marks it allocated with its full size |
| Placement.PlacedBytes | allocator.c:131-160 | placing `t` bytes moves exactly `t` bytes from the free total to the in-use total and keeps the total size |
| Coalescing.NoAdjacentFree | allocator.c:222-265 | the goal of coalescing: no two neighbouring blocks are both free |
| Coalescing.Push | allocator.c:233-257 | one fold step of the pass: the list grows by one block, or by none when a free block is merged into a free last block; the last block is free exactly when the pushed block is |
| Coalescing.Coalesced | allocator.c:222-265 | the list after one pass, a left fold of Push; it is never longer than the input and empty only for an empty input |
| Coalescing.CoalescedHasNoAdjacentFree | allocator.c:222-265 | after a coalescing pass no two neighbouring blocks are both free |
| Coalescing.CoalescedKeeps | allocator.c:222-265 | a pass leaves alone a list that has no free neighbours |
| Coalescing.CoalescedIdempotent | allocator.c:222-265 | a second pass does not change the list |
| Coalescing.CoalescedBytes | allocator.c:222-265 | a pass keeps the total size, the in-use bytes and the free bytes |
| Coalescing.AllFreeCollapses | allocator.c:222-265 | when every block is free, a pass leaves one free block holding all their bytes |
| Coalescing.CoalescedStep | allocator.c:228-262 | the pass over one more block is one step of the fold |
| Coalescing.PushIsMerge | allocator.c:245-257 | pushing a free block after a free block is the backward merge of those two blocks |
| Coalescing.PushPair | allocator.c:233-257 | a forward merge followed by a backward merge gives the same list as pushing the two blocks one at a time |
| Coalescing.ForwardMerge | allocator.c:233-243 | the forward merge at the cursor joins the two free blocks there and keeps the blocks before and after |
| Coalescing.BackwardMerge | allocator.c:245-257 | the backward merge at the cursor is one fold step, and the rest of the list is kept |
| Coalescing.FoldForward | allocator.c:233-243 | after the forward half of a visit, the fold holds the visited block, merged with the next block when that one is free |
| Heap.Layout | allocator.c:17-46 | the invariant between calls: the blocks tile the words from word 1 to the end mark, every header is a size of at least 8 with bit 2 clear, every free block has its footer, and every previous-allocated bit agrees with the block before it |
| Heap.StartsIncrease | allocator.c:127 | each step to the next header moves forward at least 8 bytes |
| Heap.StartsUnique | allocator.c:189-196 | distinct blocks have distinct headers, so the block a payload pointer names is unique |
| Heap.StartOdd | allocator.c:320-324 | every header is 4 bytes past an 8-byte boundary of the page-aligned mapping |
| Heap.StartIsSum | allocator.c:127 | the header of block k is 4 bytes plus the sizes of the blocks before it from the start of the mapping |
| Heap.ArenaIsFull | allocator.c:320-334 | the blocks fill the mapping except its first word and the end mark |
| Heap.HeaderIsNotEndMark | allocator.c:105 | the walk meets the end mark exactly after the last block |
| Heap.FreeAt | allocator.c:198-212 | the words after free_block's writes on word h: the same length, and only h, the last word of the block and the word after it may differ |
| Heap.FreeAtWords | allocator.c:198-212 | on a header of at least 8 bytes, free_block's writes clear bit 0 of the header, write the size into the block's last word, and clear bit 1 of the next word unless it is the end mark; every other word is kept |
| Heap.FreeListed | allocator.c:194-212 | the bit test on a block's header passes exactly when the block is used, and then the writes keep the layout and free exactly that block in the list |
| Heap.FreeEndMark | allocator.c:194-212 | a pointer to the end mark passes the bit test; the writes set the word before it to 0 and the end mark to -2; no block list at all fits the words afterwards, and the last word has C size 0 but is not the end mark, so a later walk never advances past it |
| Heap.FreeWordsChange | allocator.c:199-212 | free_block's writes change only the header, the new footer, and the next header unless that is the end mark |
| Heap.FreeLayout | allocator.c:199-212 | freeing an allocated block keeps the layout invariant and frees exactly that block in the list |
| Heap.PlaceAt | allocator.c:131-160 | the words after alloc_bf's writes on header h for `t` bytes: the same length, the header becomes `1 + v%8 + t`, and only the header, the rest's header, the block's last word and the next header may differ |
| Heap.SplitWordsChange | allocator.c:134-160 | a split writes the allocated header, the header and footer of the free rest, and nothing else |
| Heap.ExactWordsChange | allocator.c:148-160 | using a block whole writes its header and sets the previous-allocated bit of the next header unless that is the end mark, and nothing else |
| Heap.PlaceLayout | allocator.c:131-160 | giving a free block to `t` bytes keeps the layout invariant, and the list becomes Placed(list, k, t) |
| Heap.AbsorbAt | allocator.c:238-242 | the words after one block absorbs the next: the same length, and the header grows by the next block's size |
| Heap.AbsorbAtChange | allocator.c:238-242 | absorbing the next block changes only the header, whose size becomes the sum and whose tags stay, and the new footer |
| Heap.MergeWordsChange | allocator.c:238-242 | merging blocks i and i+1 changes only block i's header and the footer at the end of block i+1 |
| Heap.MergeKeepsNext | allocator.c:245-261 | a merge leaves the absorbed header word as it was, and the next block starts where the absorbed block's successor did |
| Heap.MergeLayout | allocator.c:233-257 | merging two neighbouring free blocks keeps the layout invariant, and the list becomes Merged(list, i) |
| Heap.MergeSites | allocator.c:235-239 | the headers a merge reads are consecutive headers, and the merge's words are AbsorbAt on the first |
| Heap.PrevBit | allocator.c:245-246 | a header's previous-allocated bit is the allocated bit of the block before it, so `block_info % 8 == 0` holds exactly for a free block whose predecessor is free |
| Heap.PrevFooter | allocator.c:248-250 | the word before a header whose predecessor is free is that block's footer, and `this - prev_size` is its header |
| Heap.ChangesOnlyFree | allocator.c:222-265 | the frame of coalescing: only words inside blocks that were free change; each changed word becomes non-negative and even, as the merge writes only free headers and footer sizes; every allocated header stays in the block list with its word; every free block afterwards lies inside blocks that were free |
| Heap.ChangesOnlyFreeRefl | allocator.c:222-265 | a step that changes nothing respects the coalescing frame |
| Heap.ChangesOnlyFreeTrans | allocator.c:222-265 | two steps that each keep the coalescing frame together keep it: only words free at the start change, changed words are non-negative and even, allocated headers stay |
| Heap.MergeChangesOnlyFree | allocator.c:238-242 | merging two free neighbours keeps the coalescing frame: only words inside them change, and the merged block lies inside them |
| Heap.MergeWritesFree | allocator.c:238-256 | the merge writes only non-negative even words: the surviving free header and the footer size |
| Heap.AbsorbAtWritesFree | allocator.c:238-256 | a free header absorbing its neighbour writes a free header and a size, both non-negative and even |
| Heap.MergeKeepsAllocated | allocator.c:238-256 | every allocated header is still in the block list after the merge and keeps its word |
| Heap.FreeHeaderRefused | allocator.c:195 | the header of a free block fails free_block's bit test, so freeing it again is refused |
| Heap.RefusedStaysRefused | allocator.c:195 | a word that fails free_block's bit test still fails it after any change that keeps the coalescing frame: the old header of a block freed and then merged away by coalescing is refused by a second free |
| Heap.MergeKeepsOutside | allocator.c:238-242 | the words a merge writes lie inside the two free blocks, so every word outside free blocks is kept |
| Heap.MergeStaysInside | allocator.c:238-242 | every free block after a merge lies inside blocks that were free before it |
| Heap.MergeCovered | allocator.c:238-242 | one block after a merge, when free, lies inside blocks that were free before it |
| Heap.NotInFreeBlock | allocator.c:222-265 | no word of an allocated block lies inside a free block |
| Heap.NoBlockAtWordZero | allocator.c:320-324 | word 0, before the first header, is in no free block |
| Heap.AllocatedWordsKept | allocator.c:222-265 | after any sequence of coalescing steps every word of an allocated block, and word 0, keeps its value |
| Heap.InitialWords | allocator.c:320-334 | the words initRegion writes into a zero-filled mapping: the end mark last, and for a region of 16 bytes or more the header `padded-8+2` at word 1 and the footer `padded-8` before the end mark, with every other word 0 |
| Heap.InitialLayout | allocator.c:318-334 | the fresh region satisfies the layout invariant and holds one free block of `padded-8` bytes, or no block when only 8 bytes are mapped |
| Allocator.PayloadAligned | allocator.c:163 | a payload address, 4 bytes past a header, is 8-byte aligned |
| Allocator.PayloadWord | allocator.c:188-198 | an 8-aligned pointer at or above `first_block` names an odd word `(ptr - first_block)/4`, never word 0, whose address is `ptr - 4` |
| Allocator.ScanStep | allocator.c:109-118 | the C candidate test on the header word is the reference scan's test, and the next header is the block size further on |
| Allocator.ScanExit | allocator.c:121-124 | breaking at an exact fit returns the reference scan's choice |
| Allocator.ScanBestFit | allocator.c:96-129 | the search loop returns NULL exactly when the reference best fit finds nothing, and otherwise the header of the block it picks |
| Allocator.Allocator.constructor | allocator.c:51-55 | before initRegion, `first_block` is NULL and the region is empty |
| Allocator.Allocator.InitRegion | allocator.c:275-337 | returns -1 with nothing changed on a second call, a non-positive size or a failed mapping; otherwise it sets `done`, sets `first_block` 4 bytes into the mapping, and lays out one free block of `padded-8` bytes with the layout invariant |
| Allocator.Allocator.Format | allocator.c:320-334 | the words written into the zero-filled mapping are the initial header, the footer and the end mark |
| Allocator.Allocator.AllocBf | allocator.c:88-168 | returns NULL with nothing changed for a non-positive size, an oversized size, or no fitting block; otherwise returns the 8-aligned payload of the best-fit block, which is split or used whole as Placed says, and keeps the layout |
| Allocator.Allocator.Carve | allocator.c:131-163 | the found block is placed and its payload address returned, and the layout is kept |
| Allocator.Allocator.Place | allocator.c:131-160 | the header, split-off rest, footer and next-header writes are exactly PlaceAt |
| Allocator.Allocator.FreeBlock | allocator.c:182-216 | returns -1 with nothing changed for NULL, a misaligned or out-of-range pointer, or an in-range pointer whose word fails the bit test (a free block, or the old header of a block merged away by coalescing); otherwise frees exactly the pointer's block, returns 0, and keeps the layout; a pointer to the end mark within range returns 0, overwrites the end mark and the word before it, and leaves words no block list fits |
| Allocator.Allocator.FreeHeader | allocator.c:194-215 | past the range checks: a word failing the bit test is refused with nothing changed, a used block is freed; the end mark is overwritten and no block list fits the words afterwards |
| Allocator.Allocator.FreeWord | allocator.c:194-215 | a word that C's `v % 2` does not read as 1 gives -1 and no change; a positive odd word gives 0 and exactly the FreeAt writes |
| Allocator.Allocator.Release | allocator.c:198-212 | the allocated-bit, footer and next-header writes are exactly FreeAt |
| Allocator.Allocator.Coalesce | allocator.c:222-265 | one pass turns the block list into Coalesced(list), which has no free neighbours and keeps every byte; it keeps the layout and the coalescing frame, so every allocated header stays in the list with its word and every word it writes is non-negative and even; it returns 0 |
| Allocator.Allocator.Visit | allocator.c:228-262 | one loop iteration advances the fold over one or two blocks, moves the cursor to the next unvisited header, and keeps the coalescing frame |
| Allocator.Allocator.VisitFree | allocator.c:231-258 | the visit of a free block: the forward then the backward merge, keeping the coalescing frame |
| Allocator.Allocator.MergeForward | allocator.c:233-243 | a free block absorbs the next block when that one is free, and the list then holds the merged block at the cursor; the coalescing frame is kept |
| Allocator.Allocator.MergeForwardStep | allocator.c:235-243 | the merge case of the forward merge: the list holds the two blocks joined at the cursor, and the coalescing frame is kept |
| Allocator.Allocator.MergeBackward | allocator.c:245-257 | a free block whose predecessor is free is absorbed by it, which is one step of the fold; the cursor then moves past it; the coalescing frame is kept |
| Allocator.Allocator.MergeNext | allocator.c:235-243 | the forward merge of two free neighbours writes exactly MergeWords(words, c), keeps the layout, and the list becomes Merged(list, c) |
| Allocator.Allocator.MergePrev | allocator.c:246-257 | the backward merge through the footer writes exactly MergeWords(words, c-1), keeps the layout, and the list becomes Merged(list, c-1) |
| Allocator.Allocator.Absorb | allocator.c:238-242 | the header grows by the next block's size and the footer is written, exactly as AbsorbAt says |

## Left out

- The operating-system calls (`getpagesize`, `open` of `/dev/zero`, `mmap`) are not modelled. The page size and the mapping are parameters of `InitRegion`. The mapping is assumed page-aligned and zero-filled, as `mmap` of `/dev/zero` guarantees.
- The `fprintf` error messages are not modelled. Only the return values are.
- `display` is not modelled as output. Its totals of used and free bytes are `Blocks.Bytes`, and `Blocks.SumIsUsedPlusFree` relates them.
- `allocator.h` is not part of this model.
- `int` is modelled as an unbounded integer. Two C overflows are therefore not modelled: `size + 4 + padding` in `alloc_bf` for a `size` near `INT_MAX`, and `regionSize + mem_padding` in `initRegion` (allocator.c:303) for a `regionSize` within one page of `INT_MAX`.
- Allocator.Allocator.AllocBf: requires the region to be initialised (`Valid()`). Before `initRegion`, the source returns NULL for a non-positive or too large size (allocator.c:90-94) and otherwise reads through a NULL `first_block`; neither case is modelled.
- Allocator.Allocator.FreeBlock: requires the region to be initialised (`Valid()`). Before `initRegion`, the source returns -1 from its NULL, alignment and range checks (allocator.c:184-192) and otherwise reads through the pointer; neither case is modelled.
- Allocator.Allocator.InitRegion: requires the page size to be a positive multiple of 8. `getpagesize()` is not constrained in C, but a page size that is not a multiple of 8 would not keep the headers 8-byte aligned.
- Concurrency is not modelled. The source has no locking.
- `totalallocation` is never assigned in `allocator.c`; `initRegion` does not set it. The model therefore takes its value as a constructor parameter and keeps it unchanged, so `alloc_bf` and `free_block` test against whatever value the program gives it.
- Allocator.Allocator.FreeBlock: the source cannot tell whether a pointer that passes its NULL, alignment and range checks points at a block it handed out. It reads the word before it as a header anyway. The model follows a pointer to a block header, to the end mark, or to any word inside the mapping that fails the bit test (refused with -1, nothing written). Two kinds of pointer remain excluded by a precondition: one past the end of the mapping, whose read is outside the region, and one whose word inside a block is positive and odd, which the source would treat as a header and write through at offsets taken from that word.
- Allocator.Allocator.Coalesce: requires the region to be initialised (`Valid()`). Before `initRegion` the source's `first_block` is NULL and the pass reads through it (allocator.c:224-228); that case is not modelled.
- Allocator.Allocator.Coalesce: idempotence is proved on the block list (`Coalescing.CoalescedIdempotent`), not as a statement that a second pass writes no word.
- The per-block proof steps in `Heap` (the `...BlockOk...` and `...View...` lemmas), the block-index forms of the word writes (`FreeWords`, `PlaceWords`, `MergeWords` and their characterising predicates), and small list steps (`Placement.PlacedWholeBytes`, `Coalescing.CoalescedStepUsed`, `Coalescing.ForwardMergeAt`, `Heap.TwoWritesEven`, `Heap.EvenSize`) have no rows of their own. They are helpers of the rows above.
