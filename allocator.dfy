/** The allocator of allocator.c: the globals `first_block` and
    `totalallocation` and the `static done` flag of initRegion become fields of
    one object, and the mapped region becomes an array of 4-byte words.

    Word i of `mem` sits at address `firstBlock - 4 + 4*i`: word 0 is the
    alignment word at the start of the mapping and word 1 is the first header.
    Pointers handed to and returned from the allocator are addresses; NULL is 0.

    `totalallocation` is read by alloc_bf and free_block but is never assigned
    in allocator.c, so its value is whatever the rest of the program puts
    there (0 for a program that does not touch it). It is a constructor
    parameter here, and InitRegion leaves it alone, as initRegion does. */
module Allocator {
  import opened Tags
  import opened Blocks
  import opened Placement
  import opened Coalescing
  import opened Heap

  datatype Option<T> = None | Some(value: T)

  /** Payload addresses are 8-byte aligned: the first header is 4 bytes past
      an 8-byte boundary and every header sits at an odd word. */
  lemma PayloadAligned(firstBlock: int, h: int)
    requires firstBlock % 8 == 4 && h % 2 == 1
    ensures (firstBlock + 4 * h) % 8 == 0
  {
    var a, q := firstBlock / 8, h / 2;
    assert firstBlock + 4 * h == 8 * (a + q + 1);
  }

  /** The converse: an 8-aligned pointer at or above the first header names
      an odd word, the word just below it, so never word 0. */
  lemma PayloadWord(firstBlock: int, ptr: int)
    requires firstBlock % 8 == 4 && ptr % 8 == 0 && ptr >= firstBlock
    ensures (ptr - firstBlock) / 4 % 2 == 1 && (ptr - firstBlock) / 4 >= 1
    ensures firstBlock + 4 * ((ptr - firstBlock) / 4) == ptr
  {
    var q := (ptr - firstBlock) / 8;
    DivModUnique(ptr - firstBlock, 8, q, 4);
    DivModUnique(ptr - firstBlock, 4, 2 * q + 1, 0);
    DivModUnique(2 * q + 1, 2, q, 1);
  }

  /** One step of the search loop of alloc_bf, read off the header words: the
      block at the cursor is a candidate exactly when the C test says so, and
      the best block after it is the one the C code keeps. */
  lemma ScanStep(m: seq<int>, bs: seq<int>, c: int, need: int)
    requires Layout(m, bs) && 0 <= c < |bs|
    ensures 0 <= bs[c] < |m| && IsHeader(m[bs[c]]) && Size(m[bs[c]]) >= 8
    ensures Start(m, bs, c + 1) == bs[c] + Size(m[bs[c]]) / 4
    ensures ViewOf(m, bs)[c].size == Size(m[bs[c]])
    ensures var v, bi := ViewOf(m, bs), BestIn(ViewOf(m, bs)[..c], need);
      BestIn(v[..c + 1], need) ==
        if m[bs[c]] % 2 == 0 && Size(m[bs[c]]) >= need && (bi == -1 || Size(m[bs[c]]) < v[bi].size)
        then c else bi
  {
    ViewAt(m, bs, c);
    BestInStep(ViewOf(m, bs), need, c);
  }

  /** The early exit of the search loop, read off the header words. */
  lemma ScanExit(m: seq<int>, bs: seq<int>, c: int, need: int)
    requires Layout(m, bs) && 0 <= c <= |bs| && need > 0
    requires var bi := BestIn(ViewOf(m, bs)[..c], need);
      bi >= 0 && ViewOf(m, bs)[bi].size == RoundUp8(need)
    ensures BestIn(ViewOf(m, bs), need) == BestIn(ViewOf(m, bs)[..c], need)
  {
    ViewSizes(m, bs);
    ExactFitSettles(ViewOf(m, bs), need, c);
  }

  /** The search loop of alloc_bf (allocator.c:96-129) over the arena words
      `mem`, whose blocks start at the words `blocks`: walk the blocks up to
      the end mark, keep the first candidate and replace it only by a
      strictly smaller one, and stop at a candidate of exactly `totalSize`
      bytes. The result is the header word of the block found, or -1 for
      NULL; it is the block that the full reference scan BestIn picks. */
  method ScanBestFit(mem: array<int>, ghost blocks: seq<int>, size: int, totalSize: int) returns (best: int)
    requires Layout(mem[..], blocks) && size > 0 && totalSize == RoundUp8(size + 4)
    ensures var i := BestIn(ViewOf(mem[..], blocks), size + 4);
      && (i < 0 ==> best == -1)
      && (i >= 0 ==> 0 <= best == blocks[i])
  {
    ghost var m := mem[..];
    ghost var v := ViewOf(m, blocks);
    var cur := 1;
    best := -1;
    ghost var c, bi, exact := 0, -1, false;
    HeaderIsNotEndMark(m, blocks, 0);
    while mem[cur] != EndMark
      invariant 0 <= c <= |blocks| && cur == Start(m, blocks, c) && 0 <= cur < mem.Length
      invariant bi == BestIn(v[..c], size + 4)
      invariant bi < 0 ==> best == -1
      invariant bi >= 0 ==> best == blocks[bi] && 0 <= best < |m| && m[best] >= 0 && Size(m[best]) == v[bi].size
      decreases mem.Length - cur
    {
      HeaderIsNotEndMark(m, blocks, c);
      ScanStep(m, blocks, c, size + 4);
      var info := mem[cur];
      assert info == m[blocks[c]];
      if info % 2 == 0 && Size(info) >= size + 4 {
        if best == -1 {
          best, bi := cur, c;
        } else if Size(info) < Size(mem[best]) {
          best, bi := cur, c;
        }
      }
      c := c + 1;
      if best != -1 && Size(mem[best]) == totalSize {
        ScanExit(m, blocks, c, size + 4);
        exact := true;
        break;
      }
      cur := cur + Size(info) / 4;
      HeaderIsNotEndMark(m, blocks, c);
    }
    if !exact {
      HeaderIsNotEndMark(m, blocks, c);
      assert v[..c] == v;
    }
  }

  class Allocator {
    /** The mapped region, one entry per 4-byte word. */
    var mem: array<int>
    /** `first_block`: the address of the first header, or NULL (0). */
    var firstBlock: int
    /** `totalallocation`: the bound alloc_bf and free_block test against. */
    var totalallocation: int
    /** The `static done` flag of initRegion. */
    var done: bool
    /** The header words of the blocks, in address order. */
    ghost var blocks: seq<int>

    ghost predicate Valid()
      reads this, mem
    {
      done && firstBlock >= 8 && firstBlock % 8 == 4 && Layout(mem[..], blocks)
    }

    /** The block list of the arena. */
    ghost function View(): seq<Blk>
      reads this, mem
      requires Valid()
    {
      ViewOf(mem[..], blocks)
    }

    /** The allocator before initRegion: no region, `first_block` NULL. */
    constructor (totalAllocation: int)
      ensures !done && firstBlock == 0 && totalallocation == totalAllocation
      ensures mem.Length == 0 && blocks == []
    {
      mem := new int[0];
      firstBlock := 0;
      totalallocation := totalAllocation;
      done := false;
      blocks := [];
    }

    /** initRegion (allocator.c:275-337). The page size and the outcome of
        opening /dev/zero and mapping it are parameters: `mapping` is the
        page-aligned address of a fresh zero-filled mapping of the padded
        size, or None when open or mmap fails. */
    method InitRegion(regionSize: int, pageSize: int, mapping: Option<int>) returns (r: int)
      requires pageSize > 0 && pageSize % 8 == 0
      requires mapping.Some? ==> mapping.value > 0 && mapping.value % pageSize == 0
      modifies this
      ensures old(done) || regionSize <= 0 || mapping.None? ==>
        r == -1 && unchanged(this)
      ensures !old(done) && regionSize > 0 && mapping.Some? ==>
        var padded := PadToPage(regionSize, pageSize);
        && r == 0 && Valid() && fresh(mem)
        && firstBlock == mapping.value + 4
        && totalallocation == old(totalallocation)
        && mem.Length * 4 == padded && mem[..] == InitialWords(padded)
        && blocks == InitialStarts(padded)
        && View() == if padded >= 16 then [Blk(padded - 8, false)] else []
    {
      if done {
        return -1;
      }
      if regionSize <= 0 {
        return -1;
      }
      var padded := PadToPage(regionSize, pageSize);
      if mapping.None? {
        return -1;
      }
      EightDividesMultiple(mapping.value, pageSize);
      done := true;
      var a := Format(padded);
      firstBlock := mapping.value + 4;
      mem := a;
      blocks := InitialStarts(padded);
      InitialLayout(padded);
      assert mem[..] == InitialWords(padded);
      r := 0;
    }

    /** The words initRegion writes into the fresh zero-filled mapping of
        `padded` bytes: the header of the single free block, with the
        previous-allocated bit set, the end mark in the last word, and the
        footer just before it. */
    static method Format(padded: int) returns (a: array<int>)
      requires padded >= 8 && padded % 8 == 0
      ensures fresh(a) && a[..] == InitialWords(padded)
    {
      a := new int[padded / 4](i => 0);
      var size := padded - 8;
      ghost var q := padded / 8;
      DivModUnique(padded, 4, 2 * q, 0);
      DivModUnique(size, 4, 2 * q - 2, 0);
      a[1] := size;
      a[1] := a[1] + 2;
      a[1 + size / 4] := EndMark;
      a[1 + size / 4 - 1] := size;
    }

    /** alloc_bf (allocator.c:88-168): NULL (0) for a size that is not
        positive or exceeds `totalallocation - 4`, or when no free block
        holds `size + 4` bytes; otherwise the best-fit block is used for
        `total_size = RoundUp8(size + 4)` bytes (Place) and the payload
        address, 4 bytes past the header, is returned. */
    method AllocBf(size: int) returns (r: int)
      requires Valid()
      modifies mem, this`blocks
      ensures Valid()
      ensures size <= 0 || size > totalallocation - 4 ==>
        r == 0 && mem[..] == old(mem[..]) && blocks == old(blocks)
      ensures size > 0 && size <= totalallocation - 4 && BestIn(old(View()), size + 4) < 0 ==>
        r == 0 && mem[..] == old(mem[..]) && blocks == old(blocks)
      ensures size > 0 && size <= totalallocation - 4 && BestIn(old(View()), size + 4) >= 0 ==>
        var k, t := BestIn(old(View()), size + 4), RoundUp8(size + 4);
        && r == firstBlock + 4 * old(blocks)[k] && r % 8 == 0
        && mem[..] == PlaceWords(old(mem[..]), old(blocks), k, t)
        && blocks == PlacedStarts(old(blocks), k, t, old(View())[k].size)
        && View() == Placed(old(View()), k, t)
    {
      if size <= 0 {
        return 0;
      }
      if size > totalallocation - 4 {
        return 0;
      }
      var totalSize := RoundUp8(size + 4);
      var best := ScanBestFit(mem, blocks, size, totalSize);
      ghost var k := BestIn(View(), size + 4);
      assert old(View()) == View() && old(blocks) == blocks && old(mem[..]) == mem[..];
      if best == -1 {
        return 0;
      }
      r := Carve(best, k, size + 4, totalSize);
    }

    /** The found block k, whose header is word h, is handed out for
        totalSize bytes, and its payload address is returned. */
    method Carve(h: int, ghost k: int, need: int, totalSize: int) returns (r: int)
      requires Valid() && 0 <= k < |blocks| && h == blocks[k] && need > 0
      requires totalSize == RoundUp8(need) && !View()[k].used && View()[k].size >= need
      modifies mem, this`blocks
      ensures Valid()
      ensures r == firstBlock + 4 * old(blocks)[k] && r % 8 == 0
      ensures mem[..] == PlaceWords(old(mem[..]), old(blocks), k, totalSize)
      ensures blocks == PlacedStarts(old(blocks), k, totalSize, old(View())[k].size)
      ensures View() == Placed(old(View()), k, totalSize)
    {
      ghost var m := mem[..];
      ghost var s := View()[k].size;
      ViewAt(m, blocks, k);
      FitsIffFitsRounded(s, need);
      StartOdd(m, blocks, k);
      PayloadAligned(firstBlock, h);
      r := firstBlock + 4 * h;
      PlaceLayout(m, blocks, k, totalSize);
      Place(h, totalSize);
      assert mem[..] == PlaceWords(m, blocks, k, totalSize);
      blocks := PlacedStarts(blocks, k, totalSize, s);
    }

    /** The update half of alloc_bf (allocator.c:131-160): the block whose
        header is word h becomes an allocated block of t bytes. When at least
        8 bytes remain they become a free block with the previous-allocated
        bit set and a footer; otherwise the next header, unless it is the end
        mark, gets its previous-allocated bit set. */
    method Place(h: int, t: int)
      requires 0 <= h < mem.Length && mem[h] >= 0 && t >= 8 && t % 8 == 0
      requires t <= Size(mem[h]) && h + Size(mem[h]) / 4 < mem.Length
      modifies mem
      ensures mem[..] == PlaceAt(old(mem[..]), h, t)
    {
      ghost var m := mem[..];
      var s := Size(mem[h]);
      if s - t >= 8 {
        var split := h + t / 4;
        SplitFooter(s, t);
        mem[split] := s - t + 2;
        var footer := split + Size(mem[split]) / 4 - 1;
        mem[footer] := mem[split] - 2;
      } else {
        var next := h + s / 4;
        if mem[next] != EndMark {
          mem[next] := mem[next] + 2;
        }
      }
      mem[h] := 1 + mem[h] % 8 + t;
    }

    /** free_block (allocator.c:182-216). The pointer checks run in the
        source's order, before any write: NULL, not 8-aligned, outside
        `[first_block, first_block + totalallocation]`, bit 0 of the word
        before it clear (as C's `%` reads it). A payload address of an
        allocated block is freed. A pointer whose word fails the bit test is
        refused, whatever that word is: a free block's header, or the old
        header of a block a coalescing pass has merged away. The end mark's
        word passes every check when `totalallocation` reaches it, and the
        writes then destroy the end mark (Heap.FreeEndMark). Any other pointer
        that passes the range check has its word written as a header, which
        the precondition rules out. */
    method FreeBlock(ptr: int) returns (r: int)
      requires Valid() && ptr >= 0
      requires ptr != 0 && ptr % 8 == 0 && firstBlock <= ptr <= firstBlock + totalallocation ==>
        var h := (ptr - firstBlock) / 4;
        h in blocks || h == mem.Length - 1 || (h < mem.Length && CRem(mem[h], 2) != 1)
      modifies mem
      ensures ptr == 0 || ptr % 8 != 0 || ptr < firstBlock || ptr > firstBlock + totalallocation ==>
        r == -1 && mem[..] == old(mem[..]) && Valid()
      ensures forall k :: (0 <= k < |blocks| && blocks[k] == (ptr - firstBlock) / 4 &&
          ptr != 0 && ptr % 8 == 0 && firstBlock <= ptr <= firstBlock + totalallocation) ==>
        Valid() &&
        if old(View())[k].used then
          r == 0 && mem[..] == FreeWords(old(mem[..]), blocks, k) && View() == Freed(old(View()), k)
        else
          r == -1 && mem[..] == old(mem[..])
      ensures (&& ptr != 0 && ptr % 8 == 0 && firstBlock <= ptr <= firstBlock + totalallocation
               && (ptr - firstBlock) / 4 < mem.Length && CRem(old(mem[(ptr - firstBlock) / 4]), 2) != 1) ==>
        r == -1 && mem[..] == old(mem[..]) && Valid()
      ensures ptr == firstBlock + 4 * (mem.Length - 1) && ptr <= firstBlock + totalallocation ==>
        r == 0 && mem[..] == old(mem[..])[mem.Length - 2 := 0][mem.Length - 1 := -2]
        && forall bs :: !Layout(mem[..], bs)
    {
      StartOdd(mem[..], blocks, |blocks|);
      PayloadAligned(firstBlock, mem.Length - 1);
      if ptr == 0 {
        return -1;
      }
      if ptr % 8 != 0 {
        return -1;
      }
      if ptr < firstBlock || ptr > firstBlock + totalallocation {
        return -1;
      }
      var h := (ptr - firstBlock) / 4;
      PayloadWord(firstBlock, ptr);
      if h in blocks {
        ghost var k :| 0 <= k < |blocks| && blocks[k] == h;
        ViewAt(mem[..], blocks, k);
      }
      r := FreeHeader(h);
    }

    /** free_block past its range checks (allocator.c:194-215), on the word h
        that ptr names: a header of the layout, the end mark, or a word that
        fails the bit test. */
    method FreeHeader(h: int) returns (r: int)
      requires Valid() && 1 <= h < mem.Length
      requires h in blocks || h == mem.Length - 1 || CRem(mem[h], 2) != 1
      modifies mem
      ensures forall k :: 0 <= k < |blocks| && blocks[k] == h ==>
        Valid() &&
        if old(View())[k].used then
          r == 0 && mem[..] == FreeWords(old(mem[..]), blocks, k) && View() == Freed(old(View()), k)
        else
          r == -1 && mem[..] == old(mem[..])
      ensures CRem(old(mem[h]), 2) != 1 ==> r == -1 && mem[..] == old(mem[..])
      ensures h == mem.Length - 1 ==>
        r == 0 && mem[..] == old(mem[..])[mem.Length - 2 := 0][mem.Length - 1 := -2]
        && forall bs :: !Layout(mem[..], bs)
    {
      ghost var m := mem[..];
      ghost var k := -1;
      if h in blocks {
        k :| 0 <= k < |blocks| && blocks[k] == h;
        forall k' | 0 <= k' < |blocks| && blocks[k'] == h
          ensures k' == k
        {
          StartsUnique(m, blocks, k, k');
        }
        FreeListed(m, blocks, k);
      } else if h == mem.Length - 1 {
        assert m[h] == EndMark;
      }
      CRemOdd(m[h]);
      r := FreeWord(h);
      if h == mem.Length - 1 {
        FreeEndMark(m, blocks);
      }
    }

    /** The bit test and the update of free_block (allocator.c:194-215) on
        word h: a word that C's `v % 2` does not read as 1 is refused, and a
        positive odd word is freed. */
    method FreeWord(h: int) returns (r: int)
      requires 1 <= h < mem.Length
      requires mem[h] >= 1 && IsAllocated(mem[h]) ==> h + Size(mem[h] - 1) / 4 < mem.Length
      modifies mem
      ensures old(mem[h]) >= 1 && IsAllocated(old(mem[h])) ==>
        r == 0 && mem[..] == FreeAt(old(mem[..]), h)
      ensures !(old(mem[h]) >= 1 && IsAllocated(old(mem[h]))) ==> r == -1 && mem[..] == old(mem[..])
    {
      CRemOdd(mem[h]);
      if CRem(mem[h], 2) != 1 {
        return -1;
      }
      Release(h);
      return 0;
    }

    /** The update half of free_block (allocator.c:198-212) on word h, whose
        bit 0 is set: clear that bit, write the size into the block's last
        word, and clear the previous-allocated bit of the word after the block
        unless it is the end mark. */
    method Release(h: int)
      requires 1 <= h < mem.Length && mem[h] >= 1 && h + Size(mem[h] - 1) / 4 < mem.Length
      modifies mem
      ensures mem[..] == FreeAt(old(mem[..]), h)
    {
      ghost var m := mem[..];
      mem[h] := mem[h] - 1;
      var thisSize := Size(mem[h]);
      mem[h + thisSize / 4 - 1] := thisSize;
      var next := h + Size(mem[h]) / 4;
      if mem[next] != EndMark {
        mem[next] := mem[next] - 2;
      }
    }

    /** coalesce (allocator.c:222-265): one pass over the blocks. A free block
        first absorbs the next block when that one is free, and is then
        absorbed by the previous block when its header shows both itself and
        its predecessor free (`block_info % 8 == 0`). The pass leaves the list
        Coalesced(old list). */
    method Coalesce() returns (r: int)
      requires Valid()
      modifies mem, this`blocks
      ensures Valid() && r == 0
      ensures View() == Coalesced(old(View()))
      ensures ChangesOnlyFree(old(mem[..]), old(blocks), mem[..], blocks)
      ensures forall x :: x in old(blocks) && 0 <= x < mem.Length && IsAllocated(old(mem[x])) ==>
        x in blocks && mem[x] == old(mem[x])
      ensures forall x :: 0 <= x < mem.Length && mem[x] != old(mem[x]) ==> mem[x] >= 0 && mem[x] % 2 == 0
    {
      ghost var v0 := View();
      ghost var m0, b0 := mem[..], blocks;
      ChangesOnlyFreeRefl(m0, b0);
      ghost var j := 0;
      ghost var c := 0;
      var cur := 1;
      HeaderIsNotEndMark(mem[..], blocks, 0);
      while mem[cur] != EndMark
        invariant Valid()
        invariant 0 <= j <= |v0| && c == |Coalesced(v0[..j])|
        invariant View() == Coalesced(v0[..j]) + v0[j..]
        invariant 0 <= c <= |blocks| && cur == Start(mem[..], blocks, c) && 0 <= cur < mem.Length
        invariant ChangesOnlyFree(m0, b0, mem[..], blocks)
        decreases |v0| - j
      {
        HeaderIsNotEndMark(mem[..], blocks, c);
        ghost var m1, b1 := mem[..], blocks;
        cur, j, c := Visit(cur, v0, j, c);
        ChangesOnlyFreeTrans(m0, b0, m1, b1, mem[..], blocks);
        HeaderIsNotEndMark(mem[..], blocks, c);
      }
      HeaderIsNotEndMark(mem[..], blocks, c);
      assert v0[..j] == v0;
      ghost var m := mem[..];
      forall x | x in old(blocks) && 0 <= x < mem.Length && IsAllocated(old(mem[x]))
        ensures x in blocks && mem[x] == old(mem[x])
      {
        assert m0[x] == old(mem[x]) && m[x] == mem[x];
      }
      forall x | 0 <= x < mem.Length && mem[x] != old(mem[x])
        ensures mem[x] >= 0 && mem[x] % 2 == 0
      {
        assert m0[x] == old(mem[x]) && m[x] == mem[x];
      }
      r := 0;
    }

    /** One iteration of the loop of coalesce (allocator.c:227-262) on block
        c, whose header is word h. The blocks before it are already merged
        into Coalesced(v0[..j]) and the list from it on is v0[j..]. After
        the visit the pass has merged v0[..j'] and the cursor is at the
        header after the blocks it merged. */
    method Visit(h: int, ghost v0: seq<Blk>, ghost j: int, ghost c: int)
      returns (next: int, ghost j': int, ghost c': int)
      requires Valid() && 0 <= j < |v0| && c == |Coalesced(v0[..j])|
      requires View() == Coalesced(v0[..j]) + v0[j..]
      requires 0 <= c < |blocks| && h == blocks[c]
      modifies mem, this`blocks
      ensures Valid() && j < j' <= |v0| && c' == |Coalesced(v0[..j'])|
      ensures View() == Coalesced(v0[..j']) + v0[j'..]
      ensures 0 <= c' <= |blocks| && next == Start(mem[..], blocks, c')
      ensures ChangesOnlyFree(old(mem[..]), old(blocks), mem[..], blocks)
    {
      ViewAt(mem[..], blocks, c);
      if mem[h] % 2 == 0 {
        j', c' := VisitFree(h, v0, j, c);
      } else {
        ChangesOnlyFreeRefl(mem[..], blocks);
        CoalescedStepUsed(v0, j);
        j', c' := j + 1, c + 1;
      }
      next := h + Size(mem[h]) / 4;
    }

    /** A visit to the free block c, whose header is word h
        (allocator.c:231-258): the forward merge, then the backward merge. */
    method VisitFree(h: int, ghost v0: seq<Blk>, ghost j: int, ghost c: int)
      returns (ghost j': int, ghost c': int)
      requires Valid() && 0 <= j < |v0| && c == |Coalesced(v0[..j])|
      requires View() == Coalesced(v0[..j]) + v0[j..]
      requires 0 <= c < |blocks| && h == blocks[c] && !v0[j].used
      modifies mem, this`blocks
      ensures Valid() && j < j' <= |v0| && c' == |Coalesced(v0[..j'])|
      ensures View() == Coalesced(v0[..j']) + v0[j'..]
      ensures 0 <= h < mem.Length && mem[h] >= 0 && 0 <= c' <= |blocks|
      ensures h + Size(mem[h]) / 4 == Start(mem[..], blocks, c')
      ensures ChangesOnlyFree(old(mem[..]), old(blocks), mem[..], blocks)
    {
      ghost var b;
      ghost var m0, b0 := mem[..], blocks;
      j', b := MergeForward(h, v0, j, c);
      FoldForward(v0, j, j', b);
      ghost var m1, b1 := mem[..], blocks;
      c' := MergeBackward(h, Coalesced(v0[..j]), b, v0[j'..], c);
      ChangesOnlyFreeTrans(m0, b0, m1, b1, mem[..], blocks);
      c' := c' + 1;
    }

    /** The second half of a visit to the free block c, whose header is
        word h (allocator.c:245-257): when its header shows the block before
        it free as well, that block absorbs it. The list before the visit is
        acc, then block c (which is b), then rest; afterwards it is
        Push(acc, b) + rest, and the header after word h's block is the
        header of block c' + 1. */
    method MergeBackward(h: int, ghost acc: seq<Blk>, ghost b: Blk, ghost rest: seq<Blk>, ghost c: int)
      returns (ghost c': int)
      requires Valid() && 0 <= c < |blocks| && blocks[c] == h && c == |acc| && !b.used
      requires View() == acc + [b] + rest
      modifies mem, this`blocks
      ensures Valid() && View() == Push(acc, b) + rest && c' + 1 == |Push(acc, b)|
      ensures 0 <= h < mem.Length && mem[h] >= 0 && c' + 1 <= |blocks|
      ensures h + Size(mem[h]) / 4 == Start(mem[..], blocks, c' + 1)
      ensures ChangesOnlyFree(old(mem[..]), old(blocks), mem[..], blocks)
    {
      PrevBit(mem[..], blocks, c);
      ViewAt(mem[..], blocks, c);
      if mem[h] % 8 == 0 {
        ghost var m0, b0 := mem[..], blocks;
        MergePrev(h, c);
        BackwardMerge(acc, b, rest);
        c' := c - 1;
        MergeChangesOnlyFree(m0, b0, c - 1);
      } else {
        ChangesOnlyFreeRefl(mem[..], blocks);
        assert Push(acc, b) == acc + [b];
        c' := c;
      }
    }

    /** The first half of a visit to the free block c, whose header is word
        h (allocator.c:233-243): when the next block is free too, block c
        absorbs it. Either way block c is then the last block of
        Coalesced(v0[..j']) that the fold has not yet merged backwards. */
    method MergeForward(h: int, ghost v0: seq<Blk>, ghost j: int, ghost c: int)
      returns (ghost j': int, ghost b: Blk)
      requires Valid() && 0 <= j < |v0| && c == |Coalesced(v0[..j])|
      requires View() == Coalesced(v0[..j]) + v0[j..]
      requires 0 <= c < |blocks| && h == blocks[c] && !v0[j].used
      modifies mem, this`blocks
      ensures Valid() && j < j' <= |v0| && c < |blocks| && blocks[c] == h
      ensures !b.used && View() == Coalesced(v0[..j]) + [b] + v0[j'..]
      ensures || (j' == j + 1 && b == v0[j])
              || (j' == j + 2 && !v0[j + 1].used && b == Blk(v0[j].size + v0[j + 1].size, false))
      ensures ChangesOnlyFree(old(mem[..]), old(blocks), mem[..], blocks)
    {
      ghost var acc := Coalesced(v0[..j]);
      ViewAt(mem[..], blocks, c);
      var n := h + Size(mem[h]) / 4;
      HeaderIsNotEndMark(mem[..], blocks, c + 1);
      if mem[n] != EndMark && mem[n] % 2 == 0 {
        ViewAt(mem[..], blocks, c + 1);
        j', b := MergeForwardStep(h, n, v0, j, c);
      } else {
        ChangesOnlyFreeRefl(mem[..], blocks);
        j', b := j + 1, v0[j];
        assert v0[j..] == [b] + v0[j'..];
      }
    }

    /** The forward merge of MergeForward on the view: block j of v0 and
        the free block after it become one. */
    method MergeForwardStep(h: int, n: int, ghost v0: seq<Blk>, ghost j: int, ghost c: int)
      returns (ghost j': int, ghost b: Blk)
      requires Valid() && 0 <= j < |v0| && c == |Coalesced(v0[..j])|
      requires View() == Coalesced(v0[..j]) + v0[j..]
      requires 0 <= c && c + 1 < |blocks| && h == blocks[c] && n == blocks[c + 1]
      requires !v0[j].used && !View()[c + 1].used
      modifies mem, this`blocks
      ensures Valid() && j' == j + 2 <= |v0| && c < |blocks| && blocks[c] == h
      ensures !v0[j + 1].used && b == Blk(v0[j].size + v0[j + 1].size, false)
      ensures View() == Coalesced(v0[..j]) + [b] + v0[j'..]
      ensures ChangesOnlyFree(old(mem[..]), old(blocks), mem[..], blocks)
    {
      ghost var acc := Coalesced(v0[..j]);
      ghost var m0, b0, w0 := mem[..], blocks, View();
      assert w0[c + 1] == v0[j + 1];
      MergeNext(h, n, c);
      b := Blk(v0[j].size + v0[j + 1].size, false);
      j' := j + 2;
      ForwardMergeAt(acc, v0, j);
      MergeChangesOnlyFree(m0, b0, c);
    }

    /** The forward merge of coalesce (allocator.c:235-243): the free block
        c, whose header is word h, absorbs the free block after it, whose
        header is word n. */
    method MergeNext(h: int, n: int, ghost c: int)
      requires Valid() && 0 <= c && c + 1 < |blocks| && blocks[c] == h && blocks[c + 1] == n
      requires !View()[c].used && !View()[c + 1].used
      modifies mem, this`blocks
      ensures Valid() && blocks == Without(old(blocks), c + 1)
      ensures mem[..] == MergeWords(old(mem[..]), old(blocks), c)
      ensures View() == Merged(old(View()), c)
    {
      ghost var m := mem[..];
      MergeSites(m, blocks, c);
      MergeLayout(m, blocks, c);
      Absorb(h, n);
      assert mem[..] == MergeWords(m, blocks, c);
      blocks := Without(blocks, c + 1);
    }

    /** The backward merge of coalesce (allocator.c:246-257): the free block
        c, whose header is word h, is absorbed by the free block before it,
        found through the footer in the word before h. The header word h is
        left as it was, so the pass moves on to the block after it. */
    method MergePrev(h: int, ghost c: int)
      requires Valid() && 0 < c < |blocks| && blocks[c] == h && 0 <= h < mem.Length
      requires !View()[c - 1].used && !View()[c].used
      modifies mem, this`blocks
      ensures Valid() && blocks == Without(old(blocks), c)
      ensures mem[..] == MergeWords(old(mem[..]), old(blocks), c - 1)
      ensures View() == Merged(old(View()), c - 1)
      ensures mem[h] == old(mem[h]) && Start(mem[..], blocks, c) == old(Start(mem[..], blocks, c + 1))
    {
      ghost var m := mem[..];
      PrevFooter(m, blocks, c);
      var prevSize := mem[h - 1];
      var prev := h - prevSize / 4;
      MergeSites(m, blocks, c - 1);
      MergeLayout(m, blocks, c - 1);
      Absorb(prev, h);
      assert mem[..] == MergeWords(m, blocks, c - 1);
      blocks := Without(blocks, c);
    }

    /** The block whose header is word h absorbs the block after it, whose
        header is word n: `block_info += size of next` and a footer holding
        the new size (allocator.c:238-242 with this and next, 252-256 with
        prev and this). */
    method Absorb(h: int, n: int)
      requires 0 <= h < mem.Length && IsHeader(mem[h]) && Size(mem[h]) >= 8
      requires n == h + Size(mem[h]) / 4 && n < mem.Length && mem[n] >= 0
      requires n + Size(mem[n]) / 4 <= mem.Length
      modifies mem
      ensures mem[..] == AbsorbAt(old(mem[..]), h)
    {
      ghost var m := mem[..];
      AddSize(mem[h], Size(mem[n]));
      QuartersAdd(Size(mem[h]), Size(mem[n]));
      ghost var f := n + Size(mem[n]) / 4 - 1;
      mem[h] := mem[h] + Size(mem[n]);
      var newSize := Size(mem[h]);
      assert h + newSize / 4 - 1 == f;
      mem[h + newSize / 4 - 1] := newSize;
      assert mem[..] == m[h := mem[h]][f := newSize];
    }
  }
}
