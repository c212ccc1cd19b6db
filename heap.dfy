/** The arena of allocator.c as a sequence of 4-byte words.

    Word 0 is alignment padding, the first header is word 1 (`first_block` is
    the mapped address plus 4 bytes, allocator.c:324) and the last word is the
    end mark. A block of `s` bytes whose header is word `h` occupies words
    `h .. h + s/4 - 1`; the next header is word `h + s/4`. The ghost sequence
    `bs` lists the header words of the blocks in address order.

    Layout states the invariants that hold between calls:
    - the blocks tile the words from word 1 up to the end mark;
    - every header is non-negative, has bit 2 clear and a size that is a
      multiple of 8 and at least 8;
    - a free block's last word (its footer) holds its size;
    - each block's previous-allocated bit is the allocated bit of the block
      before it, and the first block's is set. */
module Heap {
  import opened Tags
  import opened Blocks
  import opened Placement

  /** The header word of block k, or the end mark's word when k == |bs|. */
  function Start(m: seq<int>, bs: seq<int>, k: int): (r: int)
    requires 0 <= k <= |bs|
  {
    if k < |bs| then bs[k] else |m| - 1
  }

  /** The invariant of the block at index k. */
  ghost predicate BlockOk(m: seq<int>, bs: seq<int>, k: int)
    requires 0 <= k < |bs|
  {
    var h := bs[k];
    1 <= h < |m| - 1 && IsHeader(m[h]) && Size(m[h]) >= 8 &&
    Start(m, bs, k + 1) == h + Size(m[h]) / 4 <= |m| - 1 &&
    (!IsAllocated(m[h]) ==> m[Start(m, bs, k + 1) - 1] == Size(m[h])) &&
    (k + 1 < |bs| ==> PrevAllocated(m[bs[k + 1]]) == IsAllocated(m[h]))
  }

  /** The invariant of the whole arena. */
  ghost predicate Layout(m: seq<int>, bs: seq<int>)
  {
    |m| >= 2 && m[|m| - 1] == EndMark && Start(m, bs, 0) == 1 &&
    (|bs| > 0 ==> PrevAllocated(m[bs[0]])) &&
    forall k :: 0 <= k < |bs| ==> BlockOk(m, bs, k)
  }

  /** The block list that the words hold. */
  ghost function ViewOf(m: seq<int>, bs: seq<int>): (v: seq<Blk>)
    requires Layout(m, bs)
    ensures |v| == |bs|
  {
    FirstBlocks(m, bs, |bs|)
  }

  /** The first n blocks of the list. */
  ghost function FirstBlocks(m: seq<int>, bs: seq<int>, n: int): (v: seq<Blk>)
    requires Layout(m, bs) && 0 <= n <= |bs|
    ensures |v| == n
  {
    if n == 0 then []
    else
      assert BlockOk(m, bs, n - 1);
      FirstBlocks(m, bs, n - 1) + [Blk(Size(m[bs[n - 1]]), IsAllocated(m[bs[n - 1]]))]
  }

  lemma {:induction false} FirstBlocksAt(m: seq<int>, bs: seq<int>, n: int, k: int)
    requires Layout(m, bs) && 0 <= k < n <= |bs|
    ensures BlockOk(m, bs, k)
    ensures FirstBlocks(m, bs, n)[k] == Blk(Size(m[bs[k]]), IsAllocated(m[bs[k]]))
  {
    if k < n - 1 {
      FirstBlocksAt(m, bs, n - 1, k);
    }
  }

  lemma ViewAt(m: seq<int>, bs: seq<int>, k: int)
    requires Layout(m, bs) && 0 <= k < |bs|
    ensures BlockOk(m, bs, k)
    ensures ViewOf(m, bs)[k] == Blk(Size(m[bs[k]]), IsAllocated(m[bs[k]]))
  {
    FirstBlocksAt(m, bs, |bs|, k);
  }

  /** Every block of the list is a multiple of 8 bytes and at least 8. */
  lemma ViewSizes(m: seq<int>, bs: seq<int>)
    requires Layout(m, bs)
    ensures forall k :: 0 <= k < |bs| ==> ViewOf(m, bs)[k].size >= 8 && ViewOf(m, bs)[k].size % 8 == 0
  {
    forall k | 0 <= k < |bs|
      ensures ViewOf(m, bs)[k].size >= 8 && ViewOf(m, bs)[k].size % 8 == 0
    {
      ViewAt(m, bs, k);
    }
  }

  /** Headers move up by at least 8 bytes (2 words) per block. */
  lemma {:induction false} StartsIncrease(m: seq<int>, bs: seq<int>, i: int, j: int)
    requires Layout(m, bs) && 0 <= i <= j <= |bs|
    ensures Start(m, bs, i) + 2 * (j - i) <= Start(m, bs, j)
    decreases j - i
  {
    if i < j {
      assert BlockOk(m, bs, i);
      StartsIncrease(m, bs, i + 1, j);
    }
  }

  /** Distinct blocks have distinct headers. */
  lemma StartsUnique(m: seq<int>, bs: seq<int>, i: int, j: int)
    requires Layout(m, bs) && 0 <= i < |bs| && 0 <= j < |bs| && bs[i] == bs[j]
    ensures i == j
  {
    if i < j {
      StartsIncrease(m, bs, i, j);
    } else if j < i {
      StartsIncrease(m, bs, j, i);
    }
  }

  /** Every header sits at an odd word, 4 bytes past a multiple of 8 from the
      page-aligned start of the mapping: payloads are 8-byte aligned. */
  lemma {:induction false} StartOdd(m: seq<int>, bs: seq<int>, k: int)
    requires Layout(m, bs) && 0 <= k <= |bs|
    ensures Start(m, bs, k) % 2 == 1
  {
    if k > 0 {
      StartOdd(m, bs, k - 1);
      assert BlockOk(m, bs, k - 1);
    }
  }

  /** The header of block k is `4 + (total size of the blocks before it)`
      bytes from the start of the mapping. */
  lemma {:induction false} StartIsSum(m: seq<int>, bs: seq<int>, k: int)
    requires Layout(m, bs) && 0 <= k <= |bs|
    ensures 4 * Start(m, bs, k) == 4 + Sum(ViewOf(m, bs)[..k])
  {
    if k > 0 {
      var v := ViewOf(m, bs);
      StartIsSum(m, bs, k - 1);
      StartStep(m, bs, k - 1);
      assert v[..k][..k - 1] == v[..k - 1];
    }
  }

  /** Consecutive headers are the block's size apart, counted in bytes. */
  lemma StartStep(m: seq<int>, bs: seq<int>, k: int)
    requires Layout(m, bs) && 0 <= k < |bs|
    ensures 4 * Start(m, bs, k + 1) == 4 * Start(m, bs, k) + ViewOf(m, bs)[k].size
  {
    ViewAt(m, bs, k);
    var s := Size(m[bs[k]]);
    DivModUnique(s, 4, s / 8 * 2, 0);
  }

  /** The blocks fill the mapping except its first word and the end mark. */
  lemma ArenaIsFull(m: seq<int>, bs: seq<int>)
    requires Layout(m, bs)
    ensures Sum(ViewOf(m, bs)) == 4 * |m| - 8
  {
    StartIsSum(m, bs, |bs|);
    assert ViewOf(m, bs)[..|bs|] == ViewOf(m, bs);
  }

  /** A block header is never mistaken for the end mark. */
  lemma HeaderIsNotEndMark(m: seq<int>, bs: seq<int>, k: int)
    requires Layout(m, bs) && 0 <= k <= |bs|
    ensures 0 <= Start(m, bs, k) < |m|
    ensures (m[Start(m, bs, k)] == EndMark) == (k == |bs|)
  {
    if k < |bs| {
      assert BlockOk(m, bs, k);
    }
  }

  /** A block whose header and footer words, and the previous-allocated bit
      of the header after it, are untouched is still well formed, wherever it
      now sits in the list. */
  lemma BlockOkFrame(m: seq<int>, bs: seq<int>, k: int, m': seq<int>, bs': seq<int>, k': int)
    requires 0 <= k < |bs| && BlockOk(m, bs, k)
    requires 0 <= k' < |bs'| && |m'| == |m|
    requires bs'[k'] == bs[k] && Start(m', bs', k' + 1) == Start(m, bs, k + 1)
    requires m'[bs[k]] == m[bs[k]]
    requires m'[Start(m, bs, k + 1) - 1] == m[Start(m, bs, k + 1) - 1]
    requires k' + 1 < |bs'| ==>
      k + 1 < |bs| && PrevAllocated(m'[bs'[k' + 1]]) == PrevAllocated(m[bs[k + 1]])
    ensures BlockOk(m', bs', k')
  {
  }

  /** The words after free_block's writes on word h, whose bit 0 is set
      (allocator.c:199-212), in the order the source reads and writes them:
      clear bit 0, write the size into the last word of the block, then
      read the word after the block and clear its previous-allocated bit
      unless it is the end mark. On a block header this frees the block; on
      the end mark (size 0) it clears the end mark and the word before it. */
  ghost function FreeAt(m: seq<int>, h: int): (r: seq<int>)
    requires 1 <= h < |m| && m[h] >= 1 && h + Size(m[h] - 1) / 4 < |m|
    ensures |r| == |m|
    ensures var n := h + Size(m[h] - 1) / 4;
      forall i :: 0 <= i < |m| && i != h && i != n - 1 && i != n ==> r[i] == m[i]
  {
    var m1 := m[h := m[h] - 1];
    var s := Size(m1[h]);
    var m2 := m1[h + s / 4 - 1 := s];
    var n := h + Size(m2[h]) / 4;
    if m2[n] != EndMark then m2[n := m2[n] - 2] else m2
  }

  /** The words FreeAt writes on a header of at least 8 bytes: the header
      loses bit 0, the last word of the block holds the size, and the word n
      after the block loses bit 1 unless it is the end mark. */
  lemma FreeAtWords(m: seq<int>, h: int, s: int, n: int)
    requires 1 <= h < |m| && m[h] >= 1 && s == Size(m[h] - 1) && s >= 8
    requires n == h + s / 4 < |m|
    ensures |FreeAt(m, h)| == |m|
    ensures FreeAt(m, h)[h] == m[h] - 1 && FreeAt(m, h)[n - 1] == s
    ensures m[n] != EndMark ==> FreeAt(m, h)[n] == m[n] - 2
    ensures forall i :: 0 <= i < |m| && i != h && i != n - 1 && (i != n || m[n] == EndMark) ==>
      FreeAt(m, h)[i] == m[i]
  {
    var m1 := m[h := m[h] - 1];
    var m2 := m1[n - 1 := s];
    assert m2[h] == m[h] - 1 && m2[n] == m[n];
  }

  /** FreeAt on the header of block k, which is allocated. */
  ghost function FreeWords(m: seq<int>, bs: seq<int>, k: int): (m2: seq<int>)
    requires Layout(m, bs) && 0 <= k < |bs| && ViewOf(m, bs)[k].used
    ensures |m2| == |m|
  {
    ViewAt(m, bs, k);
    ClearAllocated(m[bs[k]]);
    FreeAt(m, bs[k])
  }

  /** free_block on the header of block k: its bit test passes exactly
      when the block is used, and then the update is FreeWords, which keeps
      the layout and frees block k in the view. */
  lemma FreeListed(m: seq<int>, bs: seq<int>, k: int)
    requires Layout(m, bs) && 0 <= k < |bs|
    ensures 1 <= bs[k] < |m|
    ensures m[bs[k]] % 2 == 1 <==> ViewOf(m, bs)[k].used
    ensures ViewOf(m, bs)[k].used ==>
      m[bs[k]] >= 1 && bs[k] + Size(m[bs[k]] - 1) / 4 < |m| &&
      FreeAt(m, bs[k]) == FreeWords(m, bs, k) &&
      Layout(FreeWords(m, bs, k), bs) && ViewOf(FreeWords(m, bs, k), bs) == Freed(ViewOf(m, bs), k)
  {
    ViewAt(m, bs, k);
    if ViewOf(m, bs)[k].used {
      ClearAllocated(m[bs[k]]);
      FreeLayout(m, bs, k);
    }
  }

  /** free_block on a pointer to the end mark, which passes every check of
      the source: the end mark becomes -2 and the word before it 0, so the
      words no longer end in an end mark and no block list fits them. The C
      size of the last word, `(v/8)*8 == v - v%8`, is then 0 and the word is
      not the end mark, so a walk over the blocks that reaches it adds 0 to
      its cursor and never stops. */
  lemma FreeEndMark(m: seq<int>, bs: seq<int>)
    requires Layout(m, bs)
    ensures FreeAt(m, |m| - 1) == m[|m| - 2 := 0][|m| - 1 := -2]
    ensures forall bs' {:trigger Layout(FreeAt(m, |m| - 1), bs')} :: !Layout(FreeAt(m, |m| - 1), bs')
    ensures var w := FreeAt(m, |m| - 1)[|m| - 1];
      w != EndMark && w - CRem(w, 8) == 0
  {
    var m1 := m[|m| - 1 := 0];
    assert Size(m1[|m| - 1]) == 0;
  }

  /** m2 differs from m as free_block on block k leaves it: the header of
      block k loses its allocated bit, its footer holds its size, and the next
      header, unless it is the end mark, loses its previous-allocated bit. */
  ghost predicate FreedWords(m: seq<int>, bs: seq<int>, k: int, m2: seq<int>)
    requires Layout(m, bs) && 0 <= k < |bs|
  {
    var h, n := bs[k], Start(m, bs, k + 1);
    assert BlockOk(m, bs, k);
    && |m2| == |m|
    && m2[h] == Encode(Size(m[h]), false, PrevAllocated(m[h]))
    && m2[n - 1] == Size(m[h])
    && (k + 1 < |bs| ==> (assert BlockOk(m, bs, k + 1);
          m2[n] == Encode(Size(m[n]), IsAllocated(m[n]), false)))
    && (forall i {:trigger m2[i]} :: 0 <= i < |m| && i != h && i != n - 1 && (i != n || n == |m| - 1) ==> m2[i] == m[i])
  }

  lemma FreeWordsChange(m: seq<int>, bs: seq<int>, k: int)
    requires Layout(m, bs) && 0 <= k < |bs| && ViewOf(m, bs)[k].used
    ensures FreedWords(m, bs, k, FreeWords(m, bs, k))
  {
    var h := bs[k];
    ViewAt(m, bs, k);
    var v := m[h];
    var s := Size(v);
    var n := Start(m, bs, k + 1);
    Decoded(v);
    assert v - 1 == Encode(s, false, PrevAllocated(v));
    FreeAtWords(m, h, s, n);
    HeaderIsNotEndMark(m, bs, k + 1);
    assert (m[n] == EndMark) == (n == |m| - 1);
    if k + 1 < |bs| {
      ViewAt(m, bs, k + 1);
      ClearPrevAllocated(m[n]);
    }
  }

  lemma FreeBlockOk(m: seq<int>, bs: seq<int>, k: int, m2: seq<int>, j: int)
    requires Layout(m, bs) && 0 <= k < |bs| && ViewOf(m, bs)[k].used && 0 <= j < |bs|
    requires FreedWords(m, bs, k, m2)
    ensures BlockOk(m2, bs, j)
  {
    if j == k || j == k + 1 {
      FreeBlockOkNear(m, bs, k, m2, j);
    } else {
      FreeBlockOkFar(m, bs, k, m2, j);
    }
  }

  /** The freed block and the block after it. */
  lemma FreeBlockOkNear(m: seq<int>, bs: seq<int>, k: int, m2: seq<int>, j: int)
    requires Layout(m, bs) && 0 <= k < |bs| && ViewOf(m, bs)[k].used && 0 <= j < |bs|
    requires FreedWords(m, bs, k, m2) && (j == k || j == k + 1)
    ensures BlockOk(m2, bs, j)
  {
    ViewAt(m, bs, j);
    ViewAt(m, bs, k);
    if j == k + 1 {
      StartsIncrease(m, bs, j + 1, |bs|);
      if j + 1 < |bs| {
        ViewAt(m, bs, j + 1);
      }
    }
  }

  /** The blocks away from the freed one keep their words. */
  lemma FreeBlockOkFar(m: seq<int>, bs: seq<int>, k: int, m2: seq<int>, j: int)
    requires Layout(m, bs) && 0 <= k < |bs| && ViewOf(m, bs)[k].used && 0 <= j < |bs|
    requires FreedWords(m, bs, k, m2) && (j < k || j > k + 1)
    ensures BlockOk(m2, bs, j)
  {
    ViewAt(m, bs, j);
    ViewAt(m, bs, k);
    if j < k {
      StartsIncrease(m, bs, j + 1, k);
    } else {
      StartsIncrease(m, bs, k + 1, j);
    }
    BlockOkFrame(m, bs, j, m2, bs, j);
  }

  lemma FreeViewAt(m: seq<int>, bs: seq<int>, k: int, m2: seq<int>, i: int)
    requires Layout(m, bs) && 0 <= k < |bs| && ViewOf(m, bs)[k].used
    requires FreedWords(m, bs, k, m2) && Layout(m2, bs) && 0 <= i < |bs|
    ensures ViewOf(m2, bs)[i] == Freed(ViewOf(m, bs), k)[i]
  {
    ViewAt(m2, bs, i);
    ViewAt(m, bs, i);
    ViewAt(m, bs, k);
    if i < k {
      StartsIncrease(m, bs, i + 1, k);
      assert bs[i] < bs[k];
      assert m2[bs[i]] == m[bs[i]];
    } else if i > k + 1 {
      StartsIncrease(m, bs, k + 1, i);
      assert bs[i] > Start(m, bs, k + 1);
      assert m2[bs[i]] == m[bs[i]];
    }
  }

  lemma FreeView(m: seq<int>, bs: seq<int>, k: int, m2: seq<int>)
    requires Layout(m, bs) && 0 <= k < |bs| && ViewOf(m, bs)[k].used
    requires FreedWords(m, bs, k, m2) && Layout(m2, bs)
    ensures ViewOf(m2, bs) == Freed(ViewOf(m, bs), k)
  {
    forall i | 0 <= i < |bs|
      ensures ViewOf(m2, bs)[i] == Freed(ViewOf(m, bs), k)[i]
    {
      FreeViewAt(m, bs, k, m2, i);
    }
  }

  /** Freeing an allocated block keeps the layout and frees exactly that block
      in the list. */
  lemma FreeLayout(m: seq<int>, bs: seq<int>, k: int)
    requires Layout(m, bs) && 0 <= k < |bs| && ViewOf(m, bs)[k].used
    ensures Layout(FreeWords(m, bs, k), bs)
    ensures ViewOf(FreeWords(m, bs, k), bs) == Freed(ViewOf(m, bs), k)
  {
    FreeWordsChange(m, bs, k);
    var m2 := FreeWords(m, bs, k);
    forall j | 0 <= j < |bs|
      ensures BlockOk(m2, bs, j)
    {
      FreeBlockOk(m, bs, k, m2, j);
    }
    ViewAt(m, bs, k);
    if k == 0 {
      assert m2[bs[0]] == Encode(Size(m[bs[0]]), false, PrevAllocated(m[bs[0]]));
    } else {
      StartsIncrease(m, bs, 1, k);
      ViewAt(m, bs, 0);
    }
    assert Layout(m2, bs);
    FreeView(m, bs, k, m2);
  }

  /** The words after alloc_bf gives the block whose header is word h to a
      request of t bytes (allocator.c:131-160). When at least 8 bytes are
      left, a free block with the previous-allocated bit set and a footer is
      made of them; otherwise the next header, unless it is the end mark, gets
      its previous-allocated bit set. The header becomes `1 + v%8 + t`. */
  ghost function PlaceAt(m: seq<int>, h: int, t: int): (r: seq<int>)
    requires 0 <= h < |m| && m[h] >= 0 && 0 <= t && h + Size(m[h]) / 4 < |m|
    ensures |r| == |m| && r[h] == 1 + m[h] % 8 + t
    ensures var n := h + Size(m[h]) / 4;
      forall i :: 0 <= i < |m| && i != h && i != h + t / 4 && i != n - 1 && i != n ==> r[i] == m[i]
  {
    var v := m[h];
    var s := Size(v);
    if s - t >= 8 then
      m[h + t / 4 := s - t + 2][h + s / 4 - 1 := s - t][h := 1 + v % 8 + t]
    else
      var n := h + s / 4;
      (if m[n] != EndMark then m[n := m[n] + 2] else m)[h := 1 + v % 8 + t]
  }

  /** PlaceAt on the header of block k. */
  ghost function PlaceWords(m: seq<int>, bs: seq<int>, k: int, t: int): (m2: seq<int>)
    requires Layout(m, bs) && 0 <= k < |bs| && 0 <= t
    ensures |m2| == |m|
  {
    assert BlockOk(m, bs, k);
    PlaceAt(m, bs[k], t)
  }

  /** The header words of the blocks after block k is given to t bytes. */
  function PlacedStarts(bs: seq<int>, k: int, t: int, s: int): (r: seq<int>)
    requires 0 <= k < |bs|
  {
    if s - t >= 8 then bs[..k + 1] + [bs[k] + t / 4] + bs[k + 1..] else bs
  }

  /** m2 differs from m as PlaceWords leaves it when the block is split. */
  ghost predicate SplitWords(m: seq<int>, bs: seq<int>, k: int, t: int, m2: seq<int>)
    requires Layout(m, bs) && 0 <= k < |bs|
  {
    var h, n := bs[k], Start(m, bs, k + 1);
    assert BlockOk(m, bs, k);
    var s := Size(m[h]);
    && 0 <= t && t % 8 == 0 && s - t >= 8 && ViewOf(m, bs)[k].size == s
    && |m2| == |m|
    && m2[h] == Encode(t, true, PrevAllocated(m[h]))
    && (Multiples8(s, t); m2[h + t / 4] == Encode(s - t, false, true))
    && m2[n - 1] == s - t
    && (forall i {:trigger m2[i]} :: 0 <= i < |m| && i != h && i != h + t / 4 && i != n - 1 ==> m2[i] == m[i])
  }

  /** m2 differs from m as PlaceWords leaves it when the block is used whole. */
  ghost predicate ExactWords(m: seq<int>, bs: seq<int>, k: int, m2: seq<int>)
    requires Layout(m, bs) && 0 <= k < |bs|
  {
    var h, n := bs[k], Start(m, bs, k + 1);
    assert BlockOk(m, bs, k);
    && |m2| == |m|
    && m2[h] == Encode(Size(m[h]), true, PrevAllocated(m[h]))
    && (k + 1 < |bs| ==> (assert BlockOk(m, bs, k + 1);
          m2[n] == Encode(Size(m[n]), IsAllocated(m[n]), true)))
    && (forall i {:trigger m2[i]} :: 0 <= i < |m| && i != h && (i != n || n == |m| - 1) ==> m2[i] == m[i])
  }

  /** The arithmetic of a split: the header of the allocated front, the
      header of the free rest, and where the rest starts. */
  lemma SplitTags(v: int, t: int)
    requires IsHeader(v) && !IsAllocated(v) && t >= 8 && t % 8 == 0 && Size(v) - t >= 8
    ensures 1 + v % 8 + t == Encode(t, true, PrevAllocated(v))
    ensures Size(v) - t + 2 == Encode(Size(v) - t, false, true)
    ensures Size(v) / 4 == t / 4 + (Size(v) - t) / 4
  {
    Decoded(v);
  }

  lemma SplitWordsChange(m: seq<int>, bs: seq<int>, k: int, t: int)
    requires Layout(m, bs) && 0 <= k < |bs| && !ViewOf(m, bs)[k].used
    requires t >= 8 && t % 8 == 0 && ViewOf(m, bs)[k].size - t >= 8
    ensures SplitWords(m, bs, k, t, PlaceWords(m, bs, k, t))
  {
    ViewAt(m, bs, k);
    SplitTags(m[bs[k]], t);
  }

  lemma ExactWordsChange(m: seq<int>, bs: seq<int>, k: int, t: int)
    requires Layout(m, bs) && 0 <= k < |bs| && !ViewOf(m, bs)[k].used
    requires t >= 8 && t % 8 == 0 && t <= ViewOf(m, bs)[k].size < t + 8
    ensures ExactWords(m, bs, k, PlaceWords(m, bs, k, t))
  {
    var h := bs[k];
    ViewAt(m, bs, k);
    var n := Start(m, bs, k + 1);
    ExactAtChange(m, h, t);
    HeaderIsNotEndMark(m, bs, k + 1);
    assert (m[n] == EndMark) == (n == |m| - 1);
    if k + 1 < |bs| {
      ViewAt(m, bs, k + 1);
      SetPrevAllocated(m[n]);
    }
  }

  /** The words PlaceAt changes when the block is handed out whole. */
  lemma ExactAtChange(m: seq<int>, h: int, t: int)
    requires 0 <= h < |m| && IsHeader(m[h]) && !IsAllocated(m[h])
    requires t >= 8 && t % 8 == 0 && t <= Size(m[h]) < t + 8 && h + Size(m[h]) / 4 < |m|
    ensures var n, m2 := h + Size(m[h]) / 4, PlaceAt(m, h, t);
      && |m2| == |m| && h < n && Size(m[h]) == t
      && m2[h] == Encode(t, true, PrevAllocated(m[h]))
      && (m[n] != EndMark ==> m2[n] == m[n] + 2)
      && forall x :: 0 <= x < |m| && x != h && (x != n || m[n] == EndMark) ==> m2[x] == m[x]
  {
    Decoded(m[h]);
    assert Size(m[h]) == t;
  }

  lemma SplitBlockOkBefore(m: seq<int>, bs: seq<int>, k: int, t: int, m2: seq<int>, j: int)
    requires Layout(m, bs) && 0 <= k < |bs| && !ViewOf(m, bs)[k].used
    requires SplitWords(m, bs, k, t, m2)
    requires 0 <= j < k
    ensures BlockOk(m2, PlacedStarts(bs, k, t, ViewOf(m, bs)[k].size), j)
  {
    var bs2 := PlacedStarts(bs, k, t, ViewOf(m, bs)[k].size);
    ViewAt(m, bs, k);
    ViewAt(m, bs, j);
    StartsIncrease(m, bs, j + 1, k);
    BlockOkFrame(m, bs, j, m2, bs2, j);
  }

  lemma SplitBlockOkFront(m: seq<int>, bs: seq<int>, k: int, t: int, m2: seq<int>)
    requires Layout(m, bs) && 0 <= k < |bs| && !ViewOf(m, bs)[k].used
    requires SplitWords(m, bs, k, t, m2)
    ensures BlockOk(m2, PlacedStarts(bs, k, t, ViewOf(m, bs)[k].size), k)
  {
    var bs2 := PlacedStarts(bs, k, t, ViewOf(m, bs)[k].size);
    ViewAt(m, bs, k);
    assert bs2[k] == bs[k] && bs2[k + 1] == bs[k] + t / 4;
  }

  lemma SplitBlockOkRest(m: seq<int>, bs: seq<int>, k: int, t: int, m2: seq<int>)
    requires Layout(m, bs) && 0 <= k < |bs| && !ViewOf(m, bs)[k].used
    requires SplitWords(m, bs, k, t, m2)
    ensures BlockOk(m2, PlacedStarts(bs, k, t, ViewOf(m, bs)[k].size), k + 1)
  {
    var bs2 := PlacedStarts(bs, k, t, ViewOf(m, bs)[k].size);
    ViewAt(m, bs, k);
    var h, n := bs[k], Start(m, bs, k + 1);
    var s := Size(m[h]);
    SplitFooter(s, t);
    assert m2[h + t / 4] == s - t + 2;
    assert bs2[k + 1] == h + t / 4;
    assert Start(m2, bs2, k + 2) == n;
    if k + 1 < |bs| {
      ViewAt(m, bs, k + 1);
      StartsIncrease(m, bs, k + 1, k + 2);
      assert bs2[k + 2] == bs[k + 1];
      assert m2[n] == m[n];
    }
  }

  lemma SplitBlockOkAfter(m: seq<int>, bs: seq<int>, k: int, t: int, m2: seq<int>, j: int)
    requires Layout(m, bs) && 0 <= k < |bs| && !ViewOf(m, bs)[k].used
    requires SplitWords(m, bs, k, t, m2)
    requires k + 1 < j <= |bs|
    ensures BlockOk(m2, PlacedStarts(bs, k, t, ViewOf(m, bs)[k].size), j)
  {
    var bs2 := PlacedStarts(bs, k, t, ViewOf(m, bs)[k].size);
    ViewAt(m, bs, k);
    ViewAt(m, bs, j - 1);
    StartsIncrease(m, bs, k + 1, j - 1);
    assert bs2[j] == bs[j - 1];
    assert Start(m2, bs2, j + 1) == Start(m, bs, j);
    if j + 1 < |bs2| {
      StartsIncrease(m, bs, k + 1, j);
      assert bs2[j + 1] == bs[j];
    }
    BlockOkFrame(m, bs, j - 1, m2, bs2, j);
  }

  lemma ExactBlockOk(m: seq<int>, bs: seq<int>, k: int, m2: seq<int>, j: int)
    requires Layout(m, bs) && 0 <= k < |bs| && !ViewOf(m, bs)[k].used
    requires ExactWords(m, bs, k, m2)
    requires 0 <= j < |bs|
    ensures BlockOk(m2, bs, j)
  {
    if j == k || j == k + 1 {
      ExactBlockOkNear(m, bs, k, m2, j);
    } else {
      ExactBlockOkFar(m, bs, k, m2, j);
    }
  }

  lemma ExactBlockOkNear(m: seq<int>, bs: seq<int>, k: int, m2: seq<int>, j: int)
    requires Layout(m, bs) && 0 <= k < |bs| && !ViewOf(m, bs)[k].used
    requires ExactWords(m, bs, k, m2)
    requires j == k || j == k + 1 < |bs|
    ensures BlockOk(m2, bs, j)
  {
    ViewAt(m, bs, j);
    ViewAt(m, bs, k);
    if j == k + 1 {
      StartsIncrease(m, bs, j + 1, |bs|);
      if j + 1 < |bs| {
        ViewAt(m, bs, j + 1);
      }
    }
  }

  lemma ExactBlockOkFar(m: seq<int>, bs: seq<int>, k: int, m2: seq<int>, j: int)
    requires Layout(m, bs) && 0 <= k < |bs| && !ViewOf(m, bs)[k].used
    requires ExactWords(m, bs, k, m2)
    requires 0 <= j < |bs| && (j < k || j > k + 1)
    ensures BlockOk(m2, bs, j)
  {
    ViewAt(m, bs, j);
    ViewAt(m, bs, k);
    if j < k {
      StartsIncrease(m, bs, j + 1, k);
    } else {
      StartsIncrease(m, bs, k + 1, j);
    }
    BlockOkFrame(m, bs, j, m2, bs, j);
  }

  lemma SplitViewAt(m: seq<int>, bs: seq<int>, k: int, t: int, m2: seq<int>, i: int)
    requires Layout(m, bs) && 0 <= k < |bs| && !ViewOf(m, bs)[k].used
    requires SplitWords(m, bs, k, t, m2)
    requires Layout(m2, PlacedStarts(bs, k, t, ViewOf(m, bs)[k].size))
    requires 0 <= i <= |bs|
    ensures ViewOf(m2, PlacedStarts(bs, k, t, ViewOf(m, bs)[k].size))[i] == Placed(ViewOf(m, bs), k, t)[i]
  {
    var v := ViewOf(m, bs);
    var w := Placed(v, k, t);
    assert |w| == |bs| + 1;
    if i < k {
      SplitViewBefore(m, bs, k, t, m2, i);
      assert w[i] == v[i];
    } else if i == k {
      SplitViewNew(m, bs, k, t, m2, i);
      assert w[k] == Blk(t, true);
    } else if i == k + 1 {
      SplitViewNew(m, bs, k, t, m2, i);
      assert w[k + 1] == Blk(v[k].size - t, false);
    } else {
      SplitViewAfter(m, bs, k, t, m2, i);
      assert w[i] == v[i - 1];
    }
  }

  lemma SplitViewBefore(m: seq<int>, bs: seq<int>, k: int, t: int, m2: seq<int>, i: int)
    requires Layout(m, bs) && 0 <= k < |bs| && !ViewOf(m, bs)[k].used
    requires SplitWords(m, bs, k, t, m2)
    requires Layout(m2, PlacedStarts(bs, k, t, ViewOf(m, bs)[k].size))
    requires 0 <= i < k
    ensures ViewOf(m2, PlacedStarts(bs, k, t, ViewOf(m, bs)[k].size))[i] == ViewOf(m, bs)[i]
  {
    var bs2 := PlacedStarts(bs, k, t, ViewOf(m, bs)[k].size);
    ViewAt(m, bs, k);
    ViewAt(m2, bs2, i);
    ViewAt(m, bs, i);
    StartsIncrease(m, bs, i + 1, k);
  }

  lemma SplitViewNew(m: seq<int>, bs: seq<int>, k: int, t: int, m2: seq<int>, i: int)
    requires Layout(m, bs) && 0 <= k < |bs| && !ViewOf(m, bs)[k].used
    requires SplitWords(m, bs, k, t, m2)
    requires Layout(m2, PlacedStarts(bs, k, t, ViewOf(m, bs)[k].size))
    requires i == k || i == k + 1
    ensures ViewOf(m2, PlacedStarts(bs, k, t, ViewOf(m, bs)[k].size))[i] ==
      if i == k then Blk(t, true) else Blk(ViewOf(m, bs)[k].size - t, false)
  {
    var bs2 := PlacedStarts(bs, k, t, ViewOf(m, bs)[k].size);
    ViewAt(m, bs, k);
    ViewAt(m2, bs2, i);
    assert bs2[k] == bs[k] && bs2[k + 1] == bs[k] + t / 4;
  }

  lemma SplitViewAfter(m: seq<int>, bs: seq<int>, k: int, t: int, m2: seq<int>, i: int)
    requires Layout(m, bs) && 0 <= k < |bs| && !ViewOf(m, bs)[k].used
    requires SplitWords(m, bs, k, t, m2)
    requires Layout(m2, PlacedStarts(bs, k, t, ViewOf(m, bs)[k].size))
    requires k + 1 < i <= |bs|
    ensures ViewOf(m2, PlacedStarts(bs, k, t, ViewOf(m, bs)[k].size))[i] == ViewOf(m, bs)[i - 1]
  {
    var bs2 := PlacedStarts(bs, k, t, ViewOf(m, bs)[k].size);
    ViewAt(m, bs, k);
    ViewAt(m2, bs2, i);
    ViewAt(m, bs, i - 1);
    StartsIncrease(m, bs, k + 1, i - 1);
    assert bs2[i] == bs[i - 1];
  }

  lemma ExactViewAt(m: seq<int>, bs: seq<int>, k: int, m2: seq<int>, i: int)
    requires Layout(m, bs) && 0 <= k < |bs| && !ViewOf(m, bs)[k].used
    requires ExactWords(m, bs, k, m2) && Layout(m2, bs)
    requires 0 <= i < |bs|
    ensures ViewOf(m2, bs)[i] == ViewOf(m, bs)[k := Blk(ViewOf(m, bs)[k].size, true)][i]
  {
    ViewAt(m2, bs, i);
    ViewAt(m, bs, i);
    ViewAt(m, bs, k);
    if i < k {
      StartsIncrease(m, bs, i + 1, k);
      assert bs[i] < bs[k];
      assert m2[bs[i]] == m[bs[i]];
    } else if i > k + 1 {
      StartsIncrease(m, bs, k + 1, i);
      assert bs[i] > Start(m, bs, k + 1);
      assert m2[bs[i]] == m[bs[i]];
    }
  }

  lemma SplitLayout(m: seq<int>, bs: seq<int>, k: int, t: int, m2: seq<int>)
    requires Layout(m, bs) && 0 <= k < |bs| && !ViewOf(m, bs)[k].used
    requires SplitWords(m, bs, k, t, m2)
    ensures Layout(m2, PlacedStarts(bs, k, t, ViewOf(m, bs)[k].size))
    ensures ViewOf(m2, PlacedStarts(bs, k, t, ViewOf(m, bs)[k].size)) == Placed(ViewOf(m, bs), k, t)
  {
    var v := ViewOf(m, bs);
    var bs2 := PlacedStarts(bs, k, t, v[k].size);
    ViewAt(m, bs, k);
    if k > 0 {
      ViewAt(m, bs, 0);
      StartsIncrease(m, bs, 1, k);
    }
    forall j | 0 <= j < |bs2|
      ensures BlockOk(m2, bs2, j)
    {
      if j < k {
        SplitBlockOkBefore(m, bs, k, t, m2, j);
      } else if j == k {
        SplitBlockOkFront(m, bs, k, t, m2);
      } else if j == k + 1 {
        SplitBlockOkRest(m, bs, k, t, m2);
      } else {
        SplitBlockOkAfter(m, bs, k, t, m2, j);
      }
    }
    assert Layout(m2, bs2);
    forall i | 0 <= i < |bs2|
      ensures ViewOf(m2, bs2)[i] == Placed(v, k, t)[i]
    {
      SplitViewAt(m, bs, k, t, m2, i);
    }
  }

  lemma ExactLayout(m: seq<int>, bs: seq<int>, k: int, t: int, m2: seq<int>)
    requires Layout(m, bs) && 0 <= k < |bs| && !ViewOf(m, bs)[k].used
    requires t % 8 == 0 && ViewOf(m, bs)[k].size == t
    requires ExactWords(m, bs, k, m2)
    ensures Layout(m2, bs)
    ensures ViewOf(m2, bs) == Placed(ViewOf(m, bs), k, t)
  {
    var v := ViewOf(m, bs);
    ViewAt(m, bs, k);
    if k > 0 {
      ViewAt(m, bs, 0);
      StartsIncrease(m, bs, 1, k);
    }
    forall j | 0 <= j < |bs|
      ensures BlockOk(m2, bs, j)
    {
      ExactBlockOk(m, bs, k, m2, j);
    }
    assert Layout(m2, bs);
    PlacedIsExact(v, k, t);
    forall i | 0 <= i < |bs|
      ensures ViewOf(m2, bs)[i] == Placed(v, k, t)[i]
    {
      ExactViewAt(m, bs, k, m2, i);
    }
  }

  /** Giving a free block to a request of t bytes keeps the layout, and the
      list becomes Placed(list, k, t). */
  lemma PlaceLayout(m: seq<int>, bs: seq<int>, k: int, t: int)
    requires Layout(m, bs) && 0 <= k < |bs| && !ViewOf(m, bs)[k].used
    requires t >= 8 && t % 8 == 0 && t <= ViewOf(m, bs)[k].size
    ensures Layout(PlaceWords(m, bs, k, t), PlacedStarts(bs, k, t, ViewOf(m, bs)[k].size))
    ensures ViewOf(PlaceWords(m, bs, k, t), PlacedStarts(bs, k, t, ViewOf(m, bs)[k].size))
         == Placed(ViewOf(m, bs), k, t)
  {
    ViewAt(m, bs, k);
    var s, m2 := ViewOf(m, bs)[k].size, PlaceWords(m, bs, k, t);
    if s - t >= 8 {
      SplitWordsChange(m, bs, k, t);
      SplitLayout(m, bs, k, t, m2);
    } else {
      assert s == t by {
        Multiples8(s, t);
      }
      assert PlacedStarts(bs, k, t, s) == bs;
      ExactWordsChange(m, bs, k, t);
      ExactLayout(m, bs, k, t, m2);
    }
  }

  /** The header list with the entry at index i removed. */
  function Without(bs: seq<int>, i: int): (r: seq<int>)
    requires 0 <= i < |bs|
    ensures |r| == |bs| - 1
  {
    bs[..i] + bs[i + 1..]
  }

  /** The words after the block whose header is word h absorbs the block
      after it (allocator.c:238-242 forward, 252-256 backward): the header
      grows by the size of the next block, and the last word of the next
      block becomes the footer of the combined block and holds its size. */
  ghost function AbsorbAt(m: seq<int>, h: int): (m2: seq<int>)
    requires 0 <= h < |m| && IsHeader(m[h]) && Size(m[h]) >= 8
    requires h + Size(m[h]) / 4 < |m| && m[h + Size(m[h]) / 4] >= 0
    requires h + Size(m[h]) / 4 + Size(m[h + Size(m[h]) / 4]) / 4 <= |m|
    ensures |m2| == |m| && m2[h] == m[h] + Size(m[h + Size(m[h]) / 4])
  {
    var n := h + Size(m[h]) / 4;
    m[h := m[h] + Size(m[n])][n + Size(m[n]) / 4 - 1 := Size(m[h]) + Size(m[n])]
  }

  /** What AbsorbAt changes: the header, which keeps its tags and holds the
      combined size, and the absorbed block's last word, which becomes the
      footer. */
  lemma AbsorbAtChange(m: seq<int>, h: int)
    requires 0 <= h < |m| && IsHeader(m[h]) && Size(m[h]) >= 8
    requires h + Size(m[h]) / 4 < |m| && m[h + Size(m[h]) / 4] >= 0
    requires h + Size(m[h]) / 4 + Size(m[h + Size(m[h]) / 4]) / 4 <= |m|
    ensures var n := h + Size(m[h]) / 4;
      var f, m2 := n + Size(m[n]) / 4 - 1, AbsorbAt(m, h);
      && h < f
      && (Size(m[h]) + Size(m[n])) % 8 == 0
      && m2[h] == Encode(Size(m[h]) + Size(m[n]), IsAllocated(m[h]), PrevAllocated(m[h]))
      && m2[f] == Size(m[h]) + Size(m[n])
      && forall x :: 0 <= x < |m| && x != h && x != f ==> m2[x] == m[x]
  {
    var n := h + Size(m[h]) / 4;
    AddSize(m[h], Size(m[n]));
    Multiples8(Size(m[h]), Size(m[n]));
    Decoded(m[h] + Size(m[n]));
  }

  /** Block i absorbs block i + 1. */
  ghost function MergeWords(m: seq<int>, bs: seq<int>, i: int): (m2: seq<int>)
    requires Layout(m, bs) && 0 <= i && i + 1 < |bs|
    ensures |m2| == |m|
  {
    assert BlockOk(m, bs, i) && BlockOk(m, bs, i + 1);
    StartsIncrease(m, bs, i + 1, i + 2);
    AbsorbAt(m, bs[i])
  }

  /** m2 differs from m as MergeWords leaves it for blocks i and i+1. */
  ghost predicate MergedWords(m: seq<int>, bs: seq<int>, i: int, m2: seq<int>)
    requires Layout(m, bs) && 0 <= i && i + 1 < |bs|
  {
    var h, g, n := bs[i], bs[i + 1], Start(m, bs, i + 2);
    assert BlockOk(m, bs, i) && BlockOk(m, bs, i + 1);
    Multiples8(Size(m[h]), Size(m[g]));
    && |m2| == |m|
    && m2[h] == Encode(Size(m[h]) + Size(m[g]), IsAllocated(m[h]), PrevAllocated(m[h]))
    && m2[n - 1] == Size(m[h]) + Size(m[g])
    && (forall x {:trigger m2[x]} :: 0 <= x < |m| && x != h && x != n - 1 ==> m2[x] == m[x])
  }

  lemma MergeWordsChange(m: seq<int>, bs: seq<int>, i: int)
    requires Layout(m, bs) && 0 <= i && i + 1 < |bs|
    ensures MergedWords(m, bs, i, MergeWords(m, bs, i))
  {
    ViewAt(m, bs, i);
    ViewAt(m, bs, i + 1);
    StartsIncrease(m, bs, i + 1, i + 2);
    AbsorbAtChange(m, bs[i]);
  }

  lemma MergeBlockOkBefore(m: seq<int>, bs: seq<int>, i: int, m2: seq<int>, j: int)
    requires Layout(m, bs) && 0 <= i && i + 1 < |bs|
    requires MergedWords(m, bs, i, m2)
    requires 0 <= j < i
    ensures BlockOk(m2, Without(bs, i + 1), j)
  {
    var bs2 := Without(bs, i + 1);
    ViewAt(m, bs, i);
    ViewAt(m, bs, i + 1);
    ViewAt(m, bs, j);
    StartsIncrease(m, bs, i + 1, i + 2);
    StartsIncrease(m, bs, j + 1, i);
    assert bs2[j] == bs[j] && bs2[j + 1] == bs[j + 1];
    if j + 1 == i {
      TagBits(m[bs[i]]);
      TagBits(m2[bs[i]]);
    }
    BlockOkFrame(m, bs, j, m2, bs2, j);
  }

  lemma MergeBlockOkAt(m: seq<int>, bs: seq<int>, i: int, m2: seq<int>)
    requires Layout(m, bs) && 0 <= i && i + 1 < |bs|
    requires !ViewOf(m, bs)[i].used && !ViewOf(m, bs)[i + 1].used
    requires MergedWords(m, bs, i, m2)
    ensures BlockOk(m2, Without(bs, i + 1), i)
  {
    var bs2 := Without(bs, i + 1);
    ViewAt(m, bs, i);
    ViewAt(m, bs, i + 1);
    StartsIncrease(m, bs, i + 1, i + 2);
    assert bs2[i] == bs[i];
    assert Start(m2, bs2, i + 1) == Start(m, bs, i + 2);
    if i + 2 < |bs| {
      ViewAt(m, bs, i + 2);
      assert bs2[i + 1] == bs[i + 2];
    }
  }

  lemma MergeBlockOkAfter(m: seq<int>, bs: seq<int>, i: int, m2: seq<int>, j: int)
    requires Layout(m, bs) && 0 <= i && i + 1 < |bs|
    requires MergedWords(m, bs, i, m2)
    requires i < j < |bs| - 1
    ensures BlockOk(m2, Without(bs, i + 1), j)
  {
    var bs2 := Without(bs, i + 1);
    ViewAt(m, bs, i);
    ViewAt(m, bs, i + 1);
    ViewAt(m, bs, j + 1);
    StartsIncrease(m, bs, i + 2, j + 1);
    var n := Start(m, bs, i + 2);
    assert bs2[j] == bs[j + 1] >= n;
    assert Start(m2, bs2, j + 1) == Start(m, bs, j + 2) > bs[j + 1];
    assert m2[bs[j + 1]] == m[bs[j + 1]];
    assert m2[Start(m, bs, j + 2) - 1] == m[Start(m, bs, j + 2) - 1];
    if j + 1 < |bs2| {
      assert bs2[j + 1] == bs[j + 2];
      assert m2[bs[j + 2]] == m[bs[j + 2]];
    }
    BlockOkFrame(m, bs, j + 1, m2, bs2, j);
  }

  lemma MergeViewAt(m: seq<int>, bs: seq<int>, i: int, m2: seq<int>, j: int)
    requires Layout(m, bs) && 0 <= i && i + 1 < |bs|
    requires !ViewOf(m, bs)[i].used && !ViewOf(m, bs)[i + 1].used
    requires MergedWords(m, bs, i, m2) && Layout(m2, Without(bs, i + 1))
    requires 0 <= j < |bs| - 1
    ensures ViewOf(m2, Without(bs, i + 1))[j] == Merged(ViewOf(m, bs), i)[j]
  {
    var v, bs2 := ViewOf(m, bs), Without(bs, i + 1);
    var w := Merged(v, i);
    if j < i {
      MergeViewBefore(m, bs, i, m2, j);
      assert w[j] == v[j];
    } else if j == i {
      ViewAt(m, bs, i);
      ViewAt(m, bs, i + 1);
      ViewAt(m2, bs2, i);
      assert bs2[i] == bs[i];
      assert w[i] == Blk(v[i].size + v[i + 1].size, false);
    } else {
      MergeViewAfter(m, bs, i, m2, j);
      assert w[j] == v[j + 1];
    }
  }

  lemma MergeViewBefore(m: seq<int>, bs: seq<int>, i: int, m2: seq<int>, j: int)
    requires Layout(m, bs) && 0 <= i && i + 1 < |bs|
    requires MergedWords(m, bs, i, m2) && Layout(m2, Without(bs, i + 1))
    requires 0 <= j < i
    ensures ViewOf(m2, Without(bs, i + 1))[j] == ViewOf(m, bs)[j]
  {
    var bs2 := Without(bs, i + 1);
    ViewAt(m, bs, i);
    StartsIncrease(m, bs, i + 1, i + 2);
    StartsIncrease(m, bs, j + 1, i);
    ViewAt(m, bs, j);
    assert bs2[j] == bs[j] < bs[i] < Start(m, bs, i + 2) - 1;
    assert m2[bs[j]] == m[bs[j]];
    ViewAt(m2, bs2, j);
  }

  lemma MergeViewAfter(m: seq<int>, bs: seq<int>, i: int, m2: seq<int>, j: int)
    requires Layout(m, bs) && 0 <= i && i + 1 < |bs|
    requires MergedWords(m, bs, i, m2) && Layout(m2, Without(bs, i + 1))
    requires i < j < |bs| - 1
    ensures ViewOf(m2, Without(bs, i + 1))[j] == ViewOf(m, bs)[j + 1]
  {
    var bs2 := Without(bs, i + 1);
    ViewAt(m, bs, i + 1);
    ViewAt(m, bs, j + 1);
    ViewAt(m2, bs2, j);
    StartsIncrease(m, bs, i + 2, j + 1);
    assert bs2[j] == bs[j + 1] >= Start(m, bs, i + 2);
    assert m2[bs[j + 1]] == m[bs[j + 1]];
  }

  lemma MergeLayoutOf(m: seq<int>, bs: seq<int>, i: int, m2: seq<int>)
    requires Layout(m, bs) && 0 <= i && i + 1 < |bs|
    requires !ViewOf(m, bs)[i].used && !ViewOf(m, bs)[i + 1].used
    requires MergedWords(m, bs, i, m2)
    ensures Layout(m2, Without(bs, i + 1))
    ensures ViewOf(m2, Without(bs, i + 1)) == Merged(ViewOf(m, bs), i)
  {
    var bs2 := Without(bs, i + 1);
    ViewAt(m, bs, i);
    ViewAt(m, bs, i + 1);
    ViewAt(m, bs, 0);
    StartsIncrease(m, bs, i + 2, |bs|);
    if i > 0 {
      StartsIncrease(m, bs, 1, i);
    } else {
      Decoded(m[bs[0]]);
    }
    assert bs2[0] == bs[0];
    forall j | 0 <= j < |bs2|
      ensures BlockOk(m2, bs2, j)
    {
      if j < i {
        MergeBlockOkBefore(m, bs, i, m2, j);
      } else if j == i {
        MergeBlockOkAt(m, bs, i, m2);
      } else {
        MergeBlockOkAfter(m, bs, i, m2, j);
      }
    }
    assert Layout(m2, bs2);
    forall j | 0 <= j < |bs2|
      ensures ViewOf(m2, bs2)[j] == Merged(ViewOf(m, bs), i)[j]
    {
      MergeViewAt(m, bs, i, m2, j);
    }
  }

  /** The absorbed block's header word is left as it was, and the block after
      the merged one starts where the absorbed block's successor did. */
  lemma MergeKeepsNext(m: seq<int>, bs: seq<int>, i: int, m2: seq<int>)
    requires Layout(m, bs) && 0 <= i && i + 1 < |bs|
    requires MergedWords(m, bs, i, m2)
    ensures 0 <= bs[i + 1] < |m| && m2[bs[i + 1]] == m[bs[i + 1]]
    ensures Start(m2, Without(bs, i + 1), i + 1) == Start(m, bs, i + 2)
  {
    ViewAt(m, bs, i);
    ViewAt(m, bs, i + 1);
    StartsIncrease(m, bs, i + 1, i + 2);
    assert bs[i] < bs[i + 1] < Start(m, bs, i + 2) - 1;
    if i + 2 < |bs| {
      assert Without(bs, i + 1)[i + 1] == bs[i + 2];
    }
  }

  /** Merging two neighbouring free blocks keeps the layout, and the list
      becomes Merged(list, i). */
  lemma MergeLayout(m: seq<int>, bs: seq<int>, i: int)
    requires Layout(m, bs) && 0 <= i && i + 1 < |bs|
    requires !ViewOf(m, bs)[i].used && !ViewOf(m, bs)[i + 1].used
    ensures Layout(MergeWords(m, bs, i), Without(bs, i + 1))
    ensures ViewOf(MergeWords(m, bs, i), Without(bs, i + 1)) == Merged(ViewOf(m, bs), i)
    ensures 0 <= bs[i + 1] < |m| && MergeWords(m, bs, i)[bs[i + 1]] == m[bs[i + 1]]
    ensures Start(MergeWords(m, bs, i), Without(bs, i + 1), i + 1) == Start(m, bs, i + 2)
  {
    MergeWordsChange(m, bs, i);
    MergeKeepsNext(m, bs, i, MergeWords(m, bs, i));
    MergeLayoutOf(m, bs, i, MergeWords(m, bs, i));
  }

  /** The two headers a merge of blocks i and i + 1 reads, and that the merge
      is AbsorbAt on the first. */
  lemma MergeSites(m: seq<int>, bs: seq<int>, i: int)
    requires Layout(m, bs) && 0 <= i && i + 1 < |bs|
    ensures var h, n := bs[i], bs[i + 1];
      && 0 <= h < |m| && IsHeader(m[h]) && Size(m[h]) >= 8
      && n == h + Size(m[h]) / 4 && n < |m| && m[n] >= 0 && n + Size(m[n]) / 4 <= |m|
      && MergeWords(m, bs, i) == AbsorbAt(m, h)
  {
    ViewAt(m, bs, i);
    ViewAt(m, bs, i + 1);
  }

  /** The previous-allocated bit of a header is the allocated bit of the block
      before it, and is set on the first block; so `v%8 == 0` holds exactly for
      a free block whose previous block is free (allocator.c:246). */
  lemma PrevBit(m: seq<int>, bs: seq<int>, c: int)
    requires Layout(m, bs) && 0 <= c < |bs|
    ensures 0 <= bs[c] < |m| && m[bs[c]] >= 0
    ensures PrevAllocated(m[bs[c]]) == (c == 0 || ViewOf(m, bs)[c - 1].used)
    ensures (m[bs[c]] % 8 == 0) == (!ViewOf(m, bs)[c].used && c > 0 && !ViewOf(m, bs)[c - 1].used)
  {
    ViewAt(m, bs, c);
    if c > 0 {
      ViewAt(m, bs, c - 1);
    }
    Decoded(m[bs[c]]);
  }

  /** The word before the header of block c is the footer of block c-1 when
      that block is free, so `this - prev_size` is its header
      (allocator.c:248-250). */
  lemma PrevFooter(m: seq<int>, bs: seq<int>, c: int)
    requires Layout(m, bs) && 0 < c < |bs| && !ViewOf(m, bs)[c - 1].used
    ensures 1 <= bs[c] < |m| && m[bs[c] - 1] == ViewOf(m, bs)[c - 1].size
    ensures bs[c] - m[bs[c] - 1] / 4 == bs[c - 1]
  {
    ViewAt(m, bs, c);
    ViewAt(m, bs, c - 1);
  }

  /** The words initRegion writes into a zero-filled mapping of `padded`
      bytes (allocator.c:321-334): the first header at word 1 holds
      `padded-8` with the previous-allocated bit set, the end mark sits
      `padded-8` bytes after it, and the footer in the word before. */
  ghost function InitialWords(padded: int): (w: seq<int>)
    requires padded >= 8 && padded % 8 == 0
    ensures |w| == padded / 4 && w[0] == 0 && w[|w| - 1] == EndMark
    ensures padded >= 16 ==> w[1] == padded - 8 + 2 && w[|w| - 2] == padded - 8
    ensures forall i :: 1 < i < |w| - 2 ==> w[i] == 0
  {
    var size := padded - 8;
    var zero := seq(padded / 4, i => 0);
    zero[1 := size + 2][1 + size / 4 := EndMark][1 + size / 4 - 1 := size]
  }

  /** The header list of the fresh arena: one block, or none when the mapping
      is only 8 bytes. */
  function InitialStarts(padded: int): (r: seq<int>)
  {
    if padded >= 16 then [1] else []
  }

  /** The fresh arena satisfies the layout invariant and holds one free block
      of `padded-8` bytes whose previous-allocated bit is set. */
  lemma InitialLayout(padded: int)
    requires padded >= 8 && padded % 8 == 0
    ensures Layout(InitialWords(padded), InitialStarts(padded))
    ensures |InitialWords(padded)| * 4 == padded
    ensures ViewOf(InitialWords(padded), InitialStarts(padded))
         == if padded >= 16 then [Blk(padded - 8, false)] else []
  {
    var m, bs := InitialWords(padded), InitialStarts(padded);
    var q := padded / 8;
    DivModUnique(padded, 4, 2 * q, 0);
    DivModUnique(padded - 8, 4, 2 * q - 2, 0);
    assert |m| == 2 * q && 1 + (padded - 8) / 4 == 2 * q - 1;
    if padded >= 16 {
      InitialBlock(m, bs, padded, q);
    } else {
      assert m[1] == EndMark;
    }
  }

  lemma InitialBlock(m: seq<int>, bs: seq<int>, padded: int, q: int)
    requires padded >= 16 && padded == 8 * q && m == InitialWords(padded) && bs == [1]
    requires |m| == 2 * q && 1 + (padded - 8) / 4 == 2 * q - 1
    ensures Layout(m, bs) && ViewOf(m, bs) == [Blk(padded - 8, false)]
  {
    assert m[1] == padded - 6 && m[2 * q - 1] == EndMark && m[2 * q - 2] == padded - 8;
    assert padded - 6 == Encode(padded - 8, false, true);
    Decoded(padded - 6);
    assert BlockOk(m, bs, 0);
    ViewAt(m, bs, 0);
  }

  // What coalescing may change: only words inside free blocks.

  /** Word x lies inside a free block of the arena. */
  ghost predicate InFreeBlock(m: seq<int>, bs: seq<int>, x: int)
  {
    exists k :: 0 <= k < |bs| && 0 <= bs[k] < |m| && !IsAllocated(m[bs[k]]) &&
      bs[k] <= x < Start(m, bs, k + 1)
  }

  /** From (m, bs) to (m2, bs2) only words inside free blocks of (m, bs)
      change, every word that changes becomes non-negative and even (a free
      header or a size), every allocated header stays a header with its
      word, and every free block of (m2, bs2) lies inside free blocks of
      (m, bs). */
  ghost predicate ChangesOnlyFree(m: seq<int>, bs: seq<int>, m2: seq<int>, bs2: seq<int>)
  {
    && |m2| == |m|
    && (forall x :: 0 <= x < |m| && !InFreeBlock(m, bs, x) ==> m2[x] == m[x])
    && (forall x :: 0 <= x < |m| && m2[x] != m[x] ==> m2[x] >= 0 && m2[x] % 2 == 0)
    && (forall x :: x in bs && 0 <= x < |m| && IsAllocated(m[x]) ==> x in bs2 && m2[x] == m[x])
    && (forall k :: 0 <= k < |bs2| && 0 <= bs2[k] < |m2| && !IsAllocated(m2[bs2[k]]) ==>
          forall x :: bs2[k] <= x < Start(m2, bs2, k + 1) ==> InFreeBlock(m, bs, x))
  }

  lemma ChangesOnlyFreeRefl(m: seq<int>, bs: seq<int>)
    ensures ChangesOnlyFree(m, bs, m, bs)
  {
    forall k, x | 0 <= k < |bs| && 0 <= bs[k] < |m| && !IsAllocated(m[bs[k]]) &&
        bs[k] <= x < Start(m, bs, k + 1)
      ensures InFreeBlock(m, bs, x)
    {
    }
  }

  lemma ChangesOnlyFreeTrans(a: seq<int>, sa: seq<int>, b: seq<int>, sb: seq<int>, c: seq<int>, sc: seq<int>)
    requires ChangesOnlyFree(a, sa, b, sb) && ChangesOnlyFree(b, sb, c, sc)
    ensures ChangesOnlyFree(a, sa, c, sc)
  {
    forall x | 0 <= x < |a| && !InFreeBlock(a, sa, x)
      ensures c[x] == a[x]
    {
      if InFreeBlock(b, sb, x) {
        assert false;
      }
    }
    forall x | 0 <= x < |a| && c[x] != a[x]
      ensures c[x] >= 0 && c[x] % 2 == 0
    {
      if c[x] == b[x] {
        assert b[x] != a[x];
      }
    }
    forall x | x in sa && 0 <= x < |a| && IsAllocated(a[x])
      ensures x in sc && c[x] == a[x]
    {
      assert x in sb && b[x] == a[x];
    }
    forall k, x | 0 <= k < |sc| && 0 <= sc[k] < |c| && !IsAllocated(c[sc[k]]) &&
        sc[k] <= x < Start(c, sc, k + 1)
      ensures InFreeBlock(a, sa, x)
    {
      assert InFreeBlock(b, sb, x);
      var j :| 0 <= j < |sb| && 0 <= sb[j] < |b| && !IsAllocated(b[sb[j]]) &&
        sb[j] <= x < Start(b, sb, j + 1);
    }
  }

  /** Merging two free neighbours changes only words inside them, and the
      merged block covers exactly their words. */
  lemma MergeChangesOnlyFree(m: seq<int>, bs: seq<int>, i: int)
    requires Layout(m, bs) && 0 <= i && i + 1 < |bs|
    requires !ViewOf(m, bs)[i].used && !ViewOf(m, bs)[i + 1].used
    ensures ChangesOnlyFree(m, bs, MergeWords(m, bs, i), Without(bs, i + 1))
  {
    MergeKeepsOutside(m, bs, i);
    MergeWritesFree(m, bs, i);
    MergeKeepsAllocated(m, bs, i);
    MergeStaysInside(m, bs, i);
  }

  /** Both words the merge writes, the header and the footer, are
      non-negative and even. */
  lemma MergeWritesFree(m: seq<int>, bs: seq<int>, i: int)
    requires Layout(m, bs) && 0 <= i && i + 1 < |bs|
    requires !ViewOf(m, bs)[i].used
    ensures var m2 := MergeWords(m, bs, i);
      forall x :: 0 <= x < |m| && m2[x] != m[x] ==> m2[x] >= 0 && m2[x] % 2 == 0
  {
    ViewAt(m, bs, i);
    ViewAt(m, bs, i + 1);
    StartsIncrease(m, bs, i + 1, i + 2);
    AbsorbAtWritesFree(m, bs[i]);
  }

  /** A free block absorbing its neighbour writes a free header and a size:
      both non-negative and even. */
  lemma AbsorbAtWritesFree(m: seq<int>, h: int)
    requires 0 <= h < |m| && IsHeader(m[h]) && Size(m[h]) >= 8 && !IsAllocated(m[h])
    requires h + Size(m[h]) / 4 < |m| && m[h + Size(m[h]) / 4] >= 0
    requires h + Size(m[h]) / 4 + Size(m[h + Size(m[h]) / 4]) / 4 <= |m|
    ensures var m2 := AbsorbAt(m, h);
      forall x :: 0 <= x < |m| && m2[x] != m[x] ==> m2[x] >= 0 && m2[x] % 2 == 0
  {
    var m2 := AbsorbAt(m, h);
    AbsorbAtChange(m, h);
    var n := h + Size(m[h]) / 4;
    var f, sum := n + Size(m[n]) / 4 - 1, Size(m[h]) + Size(m[n]);
    assert 0 <= h < f < |m|;
    assert m2[h] >= 0 && m2[h] % 2 == 0 by {
      assert m2[h] == Encode(sum, false, PrevAllocated(m[h]));
    }
    assert m2[f] == sum && sum >= 0;
    EvenSize(sum);
    TwoWritesEven(m, m2, h, f);
  }

  lemma EvenSize(s: int)
    requires s % 8 == 0
    ensures s % 2 == 0
  {
    assert s == 2 * (4 * (s / 8));
  }

  /** When only words h and e change, and both become non-negative and
      even, every changed word is non-negative and even. */
  lemma TwoWritesEven(m: seq<int>, m2: seq<int>, h: int, e: int)
    requires |m2| == |m| && 0 <= h < |m| && 0 <= e < |m|
    requires forall x {:trigger m2[x]} :: 0 <= x < |m| && x != h && x != e ==> m2[x] == m[x]
    requires m2[h] >= 0 && m2[h] % 2 == 0 && m2[e] >= 0 && m2[e] % 2 == 0
    ensures forall x :: 0 <= x < |m| && m2[x] != m[x] ==> m2[x] >= 0 && m2[x] % 2 == 0
  {
  }

  /** Every allocated header keeps its place in the block list and its word
      through the merge. */
  lemma MergeKeepsAllocated(m: seq<int>, bs: seq<int>, i: int)
    requires Layout(m, bs) && 0 <= i && i + 1 < |bs|
    requires !ViewOf(m, bs)[i].used && !ViewOf(m, bs)[i + 1].used
    ensures var m2, bs2 := MergeWords(m, bs, i), Without(bs, i + 1);
      forall x :: x in bs && 0 <= x < |m| && IsAllocated(m[x]) ==> x in bs2 && m2[x] == m[x]
  {
    var m2, bs2 := MergeWords(m, bs, i), Without(bs, i + 1);
    MergeWordsChange(m, bs, i);
    ViewAt(m, bs, i);
    ViewAt(m, bs, i + 1);
    StartsIncrease(m, bs, i + 1, i + 2);
    var h, n := bs[i], Start(m, bs, i + 2);
    forall x | x in bs && 0 <= x < |m| && IsAllocated(m[x])
      ensures x in bs2 && m2[x] == m[x]
    {
      var j :| 0 <= j < |bs| && bs[j] == x;
      assert j != i && j != i + 1;
      if j < i {
        StartsIncrease(m, bs, j, i);
        assert bs2[j] == x;
      } else {
        StartsIncrease(m, bs, i + 2, j);
        assert bs2[j - 1] == x;
      }
    }
  }

  /** The merge writes only the first header and the last word, both inside
      the two free blocks. */
  lemma MergeKeepsOutside(m: seq<int>, bs: seq<int>, i: int)
    requires Layout(m, bs) && 0 <= i && i + 1 < |bs|
    requires !ViewOf(m, bs)[i].used && !ViewOf(m, bs)[i + 1].used
    ensures |MergeWords(m, bs, i)| == |m|
    ensures forall x :: 0 <= x < |m| && !InFreeBlock(m, bs, x) ==> MergeWords(m, bs, i)[x] == m[x]
  {
    MergeWordsChange(m, bs, i);
    ViewAt(m, bs, i);
    ViewAt(m, bs, i + 1);
    var h, n := bs[i], Start(m, bs, i + 2);
    assert InFreeBlock(m, bs, h) by {
      assert bs[i] <= h < Start(m, bs, i + 1);
    }
    assert InFreeBlock(m, bs, n - 1) by {
      assert bs[i + 1] <= n - 1 < Start(m, bs, i + 2);
    }
  }

  /** Every free block after the merge lies inside free blocks from before. */
  lemma MergeStaysInside(m: seq<int>, bs: seq<int>, i: int)
    requires Layout(m, bs) && 0 <= i && i + 1 < |bs|
    requires !ViewOf(m, bs)[i].used && !ViewOf(m, bs)[i + 1].used
    ensures var m2, bs2 := MergeWords(m, bs, i), Without(bs, i + 1);
      forall k :: 0 <= k < |bs2| && 0 <= bs2[k] < |m2| && !IsAllocated(m2[bs2[k]]) ==>
        forall x :: bs2[k] <= x < Start(m2, bs2, k + 1) ==> InFreeBlock(m, bs, x)
  {
    var m2, bs2 := MergeWords(m, bs, i), Without(bs, i + 1);
    MergeWordsChange(m, bs, i);
    MergeKeepsNext(m, bs, i, m2);
    forall k | 0 <= k < |bs2| && 0 <= bs2[k] < |m2| && !IsAllocated(m2[bs2[k]])
      ensures forall x :: bs2[k] <= x < Start(m2, bs2, k + 1) ==> InFreeBlock(m, bs, x)
    {
      MergeCovered(m, bs, i, m2, k);
    }
  }

  /** Block k after the merge of blocks i and i + 1, when free, lies inside
      free blocks from before. */
  lemma MergeCovered(m: seq<int>, bs: seq<int>, i: int, m2: seq<int>, k: int)
    requires Layout(m, bs) && 0 <= i && i + 1 < |bs|
    requires !ViewOf(m, bs)[i].used && !ViewOf(m, bs)[i + 1].used
    requires MergedWords(m, bs, i, m2)
    requires Start(m2, Without(bs, i + 1), i + 1) == Start(m, bs, i + 2)
    requires 0 <= k < |bs| - 1 && 0 <= Without(bs, i + 1)[k] < |m2|
    requires !IsAllocated(m2[Without(bs, i + 1)[k]])
    ensures forall x :: Without(bs, i + 1)[k] <= x < Start(m2, Without(bs, i + 1), k + 1) ==>
      InFreeBlock(m, bs, x)
  {
    var bs2 := Without(bs, i + 1);
    ViewAt(m, bs, i);
    ViewAt(m, bs, i + 1);
    StartsIncrease(m, bs, i + 1, i + 2);
    var h, n := bs[i], Start(m, bs, i + 2);
    if k < i {
      ViewAt(m, bs, k);
      StartsIncrease(m, bs, k + 1, i);
      assert bs2[k] == bs[k] && bs2[k + 1] == bs[k + 1] && bs[k] < h;
      assert m2[bs[k]] == m[bs[k]];
      forall x | bs2[k] <= x < Start(m2, bs2, k + 1)
        ensures InFreeBlock(m, bs, x)
      {
        assert bs[k] <= x < Start(m, bs, k + 1);
      }
    } else if k == i {
      assert bs2[i] == h;
      forall x | h <= x < n
        ensures InFreeBlock(m, bs, x)
      {
        if x < bs[i + 1] {
          assert bs[i] <= x < Start(m, bs, i + 1);
        } else {
          assert bs[i + 1] <= x < Start(m, bs, i + 2);
        }
      }
    } else {
      StartsIncrease(m, bs, i + 2, k + 1);
      assert bs2[k] == bs[k + 1] >= n;
      assert m2[bs[k + 1]] == m[bs[k + 1]];
      if k + 1 < |bs2| {
        assert bs2[k + 1] == bs[k + 2];
      }
      assert Start(m2, bs2, k + 1) == Start(m, bs, k + 2);
      forall x | bs2[k] <= x < Start(m2, bs2, k + 1)
        ensures InFreeBlock(m, bs, x)
      {
        assert bs[k + 1] <= x < Start(m, bs, k + 2);
      }
    }
  }

  /** No word of an allocated block lies inside a free block. */
  lemma NotInFreeBlock(m: seq<int>, bs: seq<int>, k: int, x: int)
    requires Layout(m, bs) && 0 <= k < |bs| && ViewOf(m, bs)[k].used
    requires bs[k] <= x < Start(m, bs, k + 1)
    ensures !InFreeBlock(m, bs, x)
  {
    ViewAt(m, bs, k);
    if InFreeBlock(m, bs, x) {
      var j :| 0 <= j < |bs| && 0 <= bs[j] < |m| && !IsAllocated(m[bs[j]]) &&
        bs[j] <= x < Start(m, bs, j + 1);
      if j < k {
        StartsIncrease(m, bs, j + 1, k);
      } else if j > k {
        StartsIncrease(m, bs, k + 1, j);
      }
      assert false;
    }
  }

  /** Word 0, the alignment word, lies in no block. */
  lemma NoBlockAtWordZero(m: seq<int>, bs: seq<int>)
    requires Layout(m, bs)
    ensures !InFreeBlock(m, bs, 0)
  {
    if InFreeBlock(m, bs, 0) {
      var j :| 0 <= j < |bs| && 0 <= bs[j] < |m| && !IsAllocated(m[bs[j]]) &&
        bs[j] <= 0 < Start(m, bs, j + 1);
      StartsIncrease(m, bs, 0, j);
      assert false;
    }
  }

  /** Whatever changes only free words leaves every word of every allocated
      block, and the alignment word before the first block, as they were. */
  lemma AllocatedWordsKept(m: seq<int>, bs: seq<int>, m2: seq<int>, bs2: seq<int>, k: int)
    requires Layout(m, bs) && ChangesOnlyFree(m, bs, m2, bs2)
    requires 0 <= k < |bs| && ViewOf(m, bs)[k].used
    ensures m2[0] == m[0]
    ensures 1 <= bs[k] < Start(m, bs, k + 1) < |m|
    ensures forall x :: bs[k] <= x < Start(m, bs, k + 1) ==> m2[x] == m[x]
  {
    ViewAt(m, bs, k);
    NoBlockAtWordZero(m, bs);
    forall x | bs[k] <= x < Start(m, bs, k + 1)
      ensures m2[x] == m[x]
    {
      NotInFreeBlock(m, bs, k, x);
    }
  }

  /** The header of a free block fails free_block's bit test
      (`block_info % 2 != 1`), so a second free of it is refused. */
  lemma FreeHeaderRefused(m: seq<int>, bs: seq<int>, k: int)
    requires Layout(m, bs) && 0 <= k < |bs| && !ViewOf(m, bs)[k].used
    ensures 1 <= bs[k] < |m| && CRem(m[bs[k]], 2) != 1
  {
    ViewAt(m, bs, k);
    CRemOdd(m[bs[k]]);
  }

  /** A word that fails free_block's bit test still fails it after any
      change that touches only free words: the header of a block freed and
      then merged away by coalescing is refused by a second free. */
  lemma RefusedStaysRefused(m: seq<int>, bs: seq<int>, m2: seq<int>, bs2: seq<int>, h: int)
    requires ChangesOnlyFree(m, bs, m2, bs2)
    requires 0 <= h < |m| && CRem(m[h], 2) != 1
    ensures CRem(m2[h], 2) != 1
  {
    CRemOdd(m[h]);
    CRemOdd(m2[h]);
  }
}
