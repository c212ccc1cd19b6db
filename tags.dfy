/** The boundary-tag codec of allocator.c.

    Every header is one 4-byte word (`block_info`). It holds the block size in
    bytes, always a multiple of 8, with two tag bits in the low bits:
    bit 0 set when the block is allocated, bit 1 set when the previous block is
    allocated. A free block also ends in a footer word holding the raw size.
    The end of the arena is marked by a word equal to 1.

    The C code decodes inline: the size is `(v/8)*8`, the allocated bit `v%2`,
    the previous-allocated bit `v&2`. C `/` and `%` truncate toward zero; they
    agree with Dafny's for the non-negative words the allocator writes, which is
    why every decoder below asks for `v >= 0`. */
module Tags {

  /** The word that marks the end of the arena. */
  const EndMark: int := 1

  /** The size field of a header or footer word: `(v/8)*8`. */
  function Size(v: int): (s: int)
    requires v >= 0
    ensures s % 8 == 0 && s <= v < s + 8
  {
    (v / 8) * 8
  }

  /** Bit 0: the block is allocated (`v%2 == 1`). */
  predicate IsAllocated(v: int)
  {
    v % 2 == 1
  }

  /** Bit 1: the previous block is allocated (`v&2`). */
  predicate PrevAllocated(v: int)
  {
    (v / 2) % 2 == 1
  }

  /** A word the allocator can have written as a header: non-negative with
      bit 2 clear, so that only the two tag bits sit below the size. */
  predicate IsHeader(v: int)
  {
    v >= 0 && v % 8 < 4
  }

  /** C's `a % b` for b > 0. It truncates toward zero, so the remainder of a
      negative `a` is zero or negative, unlike Dafny's `%`. free_block
      applies it to a word that need not be a header. */
  function CRem(a: int, b: int): (r: int)
    requires b > 0
    ensures a >= 0 ==> r == a % b
    ensures a < 0 ==> -b < r <= 0 && (a - r) % b == 0
  {
    if a >= 0 then a % b
    else
      var q, t := (-a) / b, (-a) % b;
      assert -a == q * b + t;
      DivModUnique(a + t, b, -q, 0);
      -t
  }

  /** The bit-0 test of free_block, `v % 2 != 1` in C, passes exactly for a
      positive odd word. */
  lemma CRemOdd(v: int)
    ensures CRem(v, 2) == 1 <==> v >= 1 && IsAllocated(v)
  {
  }

  lemma Halve(a: int, r: int)
    requires 0 <= r < 2
    ensures (2 * a + r) / 2 == a && (2 * a + r) % 2 == r
  {
  }

  /** The two tag bits of a header word are the two low bits of `v % 8`. */
  lemma TagBits(v: int)
    requires IsHeader(v)
    ensures IsAllocated(v) == ((v % 8) % 2 == 1)
    ensures PrevAllocated(v) == ((v % 8) / 2 == 1)
  {
    var q, t := v / 8, v % 8;
    assert v == 2 * (4 * q + t / 2) + t % 2;
    Halve(4 * q + t / 2, t % 2);
    Halve(2 * q, t / 2);
  }

  /** The header word for a block of `size` bytes. */
  function Encode(size: int, alloc: bool, prevAlloc: bool): (v: int)
    requires size >= 0 && size % 8 == 0
    ensures IsHeader(v)
    ensures Size(v) == size && IsAllocated(v) == alloc && PrevAllocated(v) == prevAlloc
  {
    var tag := (if prevAlloc then 2 else 0) + (if alloc then 1 else 0);
    assert size == 8 * (size / 8);
    TagBits(size + tag);
    size + tag
  }

  /** Decoding loses nothing: a header word is the encoding of its own fields,
      and its low three bits are exactly the two tags. */
  lemma {:induction false} Decoded(v: int)
    requires IsHeader(v)
    ensures v == Encode(Size(v), IsAllocated(v), PrevAllocated(v))
    ensures v % 8 == (if PrevAllocated(v) then 2 else 0) + (if IsAllocated(v) then 1 else 0)
  {
    TagBits(v);
  }

  /** Adding a multiple of 8 to a header word grows its size field and
      leaves both tags alone: `this->block_info += size` in coalesce. */
  lemma AddSize(v: int, s: int)
    requires IsHeader(v) && s >= 0 && s % 8 == 0
    ensures IsHeader(v + s) && Size(v + s) == Size(v) + s
    ensures IsAllocated(v + s) == IsAllocated(v) && PrevAllocated(v + s) == PrevAllocated(v)
  {
    Decoded(v);
    var e := Encode(Size(v) + s, IsAllocated(v), PrevAllocated(v));
    assert e == v + s;
  }

  /** Clearing the allocated bit of an allocated header word, as
      `block_info -= 1` in free_block, keeps its size and the other tag. */
  lemma ClearAllocated(v: int)
    requires IsHeader(v) && IsAllocated(v)
    ensures IsHeader(v - 1) && Size(v - 1) == Size(v)
    ensures !IsAllocated(v - 1) && PrevAllocated(v - 1) == PrevAllocated(v)
  {
    Decoded(v);
    assert v - 1 == Encode(Size(v), false, PrevAllocated(v));
  }

  /** Setting the previous-allocated bit of a header word whose bit is
      clear, as `block_info += 2` in alloc_bf, keeps its size and the other
      tag. */
  lemma SetPrevAllocated(v: int)
    requires IsHeader(v) && !PrevAllocated(v)
    ensures v + 2 == Encode(Size(v), IsAllocated(v), true)
  {
    Decoded(v);
  }

  /** Clearing the previous-allocated bit of a header word whose bit is set,
      as `block_info -= 2` in free_block, keeps its size and the other tag. */
  lemma ClearPrevAllocated(v: int)
    requires IsHeader(v) && PrevAllocated(v)
    ensures v - 2 == Encode(Size(v), IsAllocated(v), false)
  {
    Decoded(v);
  }

  /** The end mark can never be read as a real block: every real block is at
      least 8 bytes, so its header is at least 8. */
  lemma EndMarkIsNoBlock(size: int, alloc: bool, prevAlloc: bool)
    requires size >= 8 && size % 8 == 0
    ensures Encode(size, alloc, prevAlloc) != EndMark
  {
  }

  /** The worked examples in the comment of the header structure. */
  lemma HeaderExamples()
    ensures Encode(24, true, false) == 25 && Encode(24, true, true) == 27
    ensures Encode(24, false, false) == 24 && Encode(24, false, true) == 26
    ensures Size(26) == 24 && !IsAllocated(26) && PrevAllocated(26)
    ensures Size(25) == 24 && IsAllocated(25) && !PrevAllocated(25)
    ensures Size(24) == 24 && !IsAllocated(24)  // the footer of a free 24-byte block
  {
  }

  /** `total_size` in alloc_bf: `n` rounded up to a multiple of 8 by adding
      `padding = (n%8 == 0) ? 0 : 8 - n%8`. */
  function RoundUp8(n: int): (r: int)
    requires n > 0
    ensures r % 8 == 0 && n <= r < n + 8
  {
    n + (if n % 8 == 0 then 0 else 8 - n % 8)
  }

  /** Because block sizes are multiples of 8, a block holds `n` bytes exactly
      when it holds `RoundUp8(n)` bytes: the candidate test of alloc_bf against
      `size+4` is the same as a test against `total_size`. */
  lemma FitsIffFitsRounded(s: int, n: int)
    requires n > 0 && s % 8 == 0
    ensures s >= n <==> s >= RoundUp8(n)
  {
  }

  /** The padded region size of initRegion:
      `regionSize + (pagesize - regionSize%pagesize) % pagesize`. */
  function PadToPage(regionSize: int, pageSize: int): (padded: int)
    requires regionSize > 0 && pageSize > 0
    ensures padded % pageSize == 0
    ensures regionSize <= padded < regionSize + pageSize
    ensures pageSize % 8 == 0 ==> padded % 8 == 0
  {
    var q, r := regionSize / pageSize, regionSize % pageSize;
    assert regionSize == q * pageSize + r;
    if r == 0 then
      DivModUnique(pageSize, pageSize, 1, 0);
      DivModUnique(regionSize, pageSize, q, 0);
      EightDividesMultiple(regionSize, pageSize);
      regionSize + (pageSize - r) % pageSize
    else
      DivModUnique(pageSize - r, pageSize, 0, pageSize - r);
      DivModUnique(regionSize + pageSize - r, pageSize, q + 1, 0);
      EightDividesMultiple(regionSize + pageSize - r, pageSize);
      regionSize + (pageSize - r) % pageSize
  }

  /** The padded size is the least multiple of the page size not below the
      requested size. */
  lemma PadToPageIsLeast(regionSize: int, pageSize: int, q: int)
    requires regionSize > 0 && pageSize > 0
    requires q % pageSize == 0 && q >= regionSize
    ensures PadToPage(regionSize, pageSize) <= q
  {
    var padded := PadToPage(regionSize, pageSize);
    if q < padded {
      MultiplesApart(q, padded, pageSize);
    }
  }

  // Arithmetic helpers for the variable page size.

  lemma DivModUnique(x: int, p: int, a: int, b: int)
    requires p > 0 && 0 <= b < p && x == a * p + b
    ensures x / p == a && x % p == b
  {
    var d := x / p - a;
    assert x == (x / p) * p + x % p;
    assert d * p == b - x % p;
    if d != 0 { assert false; }
  }

  /** A multiple of a multiple of 8 is a multiple of 8: a page-aligned
      address or size is 8-byte aligned when the page size is. */
  lemma EightDividesMultiple(x: int, p: int)
    requires p > 0 && x % p == 0
    ensures p % 8 == 0 ==> x % 8 == 0
  {
    if p % 8 == 0 {
      var a, b := x / p, p / 8;
      assert x == a * p;
      assert p == 8 * b;
      assert a * p == 8 * (a * b);
      DivModUnique(x, 8, a * b, 0);
    }
  }

  lemma MulAtLeast(k: int, p: int)
    requires k >= 1 && p > 0
    ensures k * p >= p
  {
  }

  /** Sums and differences of multiples of 8 are multiples of 8. */
  lemma Multiples8(a: int, b: int)
    requires a % 8 == 0 && b % 8 == 0
    ensures (a + b) % 8 == 0 && (a - b) % 8 == 0
  {
    DivModUnique(a + b, 8, a / 8 + b / 8, 0);
    DivModUnique(a - b, 8, a / 8 - b / 8, 0);
  }

  /** Byte counts that are multiples of 8 add up in words too. */
  lemma QuartersAdd(a: int, b: int)
    requires a % 8 == 0 && b % 8 == 0
    ensures (a + b) / 4 == a / 4 + b / 4
  {
    var p, q := a / 8, b / 8;
    DivModUnique(a, 4, 2 * p, 0);
    DivModUnique(b, 4, 2 * q, 0);
    DivModUnique(a + b, 4, 2 * (p + q), 0);
  }

  /** The header of the free rest of a split block, and where its footer
      falls: the last word of the block that was split. */
  lemma SplitFooter(s: int, t: int)
    requires s % 8 == 0 && t % 8 == 0 && t >= 0 && s - t >= 8
    ensures Size(s - t + 2) == s - t && IsHeader(s - t + 2)
    ensures t / 4 + Size(s - t + 2) / 4 == s / 4
  {
    Multiples8(s, t);
    Decoded(s - t + 2);
    assert s - t + 2 == Encode(s - t, false, true);
    QuartersAdd(t, s - t);
  }

  lemma MulDistributes(a: int, b: int, p: int)
    ensures b * p - a * p == (b - a) * p
  {
  }

  /** Two different multiples of `p` are at least `p` apart. */
  lemma MultiplesApart(x: int, y: int, p: int)
    requires p > 0 && x % p == 0 && y % p == 0 && x < y
    ensures y - x >= p
  {
    var a, b := x / p, y / p;
    assert x == a * p;
    assert y == b * p;
    MulDistributes(a, b, p);
    if b - a <= 0 {
      MulAtLeast(a - b + 1, p);
    } else {
      MulAtLeast(b - a, p);
    }
  }
}
