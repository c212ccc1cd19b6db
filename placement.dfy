/** The placement policy of alloc_bf (allocator.c:88-168) on the block list.

    A free block is a candidate for a request of `size` bytes when it holds at
    least `size + 4` bytes (the payload plus its header). Among the candidates
    the scan keeps the first one seen and replaces it only by a strictly
    smaller one, so the block used is the smallest candidate and, among equal
    sizes, the one at the lowest address. The scan stops early on a candidate
    of exactly `total_size` bytes; that never changes the outcome, because no
    candidate can be smaller (see BestInSettles). */
module Placement {
  import opened Tags
  import opened Blocks

  /** The candidate test of alloc_bf: a free block of at least `need` bytes. */
  predicate Fits(b: Blk, need: int)
  {
    !b.used && b.size >= need
  }

  /** Reference best fit: the full scan of the list, front to back, with the
      strict-less-than replacement rule and without the early exit.
      -1 stands for NULL (no candidate). */
  function BestIn(v: seq<Blk>, need: int): (r: int)
    ensures -1 <= r < |v|
    ensures r >= 0 ==> Fits(v[r], need)
  {
    if |v| == 0 then -1
    else
      var r0 := BestIn(v[..|v| - 1], need);
      if Fits(v[|v| - 1], need) && (r0 == -1 || v[|v| - 1].size < v[r0].size) then |v| - 1
      else r0
  }

  /** The block BestIn picks is a candidate, no candidate is smaller, every
      earlier candidate is strictly larger, and NULL means there is no
      candidate at all. Together these determine the index uniquely. */
  lemma {:induction false} BestInIsBestFit(v: seq<Blk>, need: int)
    ensures BestIn(v, need) == -1 <==> forall j :: 0 <= j < |v| ==> !Fits(v[j], need)
    ensures BestIn(v, need) >= 0 ==>
      forall j :: 0 <= j < |v| && Fits(v[j], need) ==> v[BestIn(v, need)].size <= v[j].size
    ensures BestIn(v, need) >= 0 ==>
      forall j :: 0 <= j < BestIn(v, need) && Fits(v[j], need) ==> v[BestIn(v, need)].size < v[j].size
  {
    if |v| > 0 {
      var u := v[..|v| - 1];
      BestInIsBestFit(u, need);
      assert forall j :: 0 <= j < |u| ==> u[j] == v[j];
    }
  }

  /** The early exit of the scan is sound: once the best candidate among the
      first n blocks is no larger than any candidate of the whole list, the
      rest of the scan keeps it. */
  lemma {:induction false} BestInSettles(v: seq<Blk>, need: int, n: int)
    requires 0 <= n <= |v|
    requires BestIn(v[..n], need) >= 0
    requires forall j :: 0 <= j < |v| && Fits(v[j], need) ==> v[BestIn(v[..n], need)].size <= v[j].size
    ensures BestIn(v, need) == BestIn(v[..n], need)
    decreases |v| - n
  {
    if n < |v| {
      var u := v[..|v| - 1];
      assert u[..n] == v[..n];
      BestInSettles(u, need, n);
    } else {
      assert v[..n] == v;
    }
  }

  /** With block sizes multiples of 8, every candidate for `need` bytes holds
      at least `RoundUp8(need)` bytes, so a candidate of exactly that size
      settles the scan. */
  lemma ExactFitIsSmallest(v: seq<Blk>, need: int)
    requires need > 0
    requires forall j :: 0 <= j < |v| ==> v[j].size % 8 == 0
    ensures forall j :: 0 <= j < |v| && Fits(v[j], need) ==> v[j].size >= RoundUp8(need)
  {
    forall j | 0 <= j < |v| && Fits(v[j], need)
      ensures v[j].size >= RoundUp8(need)
    {
      FitsIffFitsRounded(v[j].size, need);
    }
  }

  /** The scan over one more block: the new block replaces the best so far
      only when it is a candidate strictly smaller than it. */
  lemma BestInStep(v: seq<Blk>, need: int, c: int)
    requires 0 <= c < |v|
    ensures var r0 := BestIn(v[..c], need);
      BestIn(v[..c + 1], need) ==
        if Fits(v[c], need) && (r0 == -1 || v[c].size < v[r0].size) then c else r0
  {
    assert v[..c + 1][..c] == v[..c];
  }

  /** The early exit of alloc_bf (allocator.c:121-124) is sound: once the best
      candidate among the first c blocks has exactly `RoundUp8(need)` bytes,
      the full scan picks the same block. */
  lemma ExactFitSettles(v: seq<Blk>, need: int, c: int)
    requires need > 0 && 0 <= c <= |v|
    requires forall j :: 0 <= j < |v| ==> v[j].size % 8 == 0
    requires BestIn(v[..c], need) >= 0 && v[BestIn(v[..c], need)].size == RoundUp8(need)
    ensures BestIn(v, need) == BestIn(v[..c], need)
  {
    ExactFitIsSmallest(v, need);
    BestInSettles(v, need, c);
  }

  /** The block list after alloc_bf uses block k for a block of `t` bytes:
      the front `t` bytes become an allocated block; the rest becomes a new
      free block when it is at least 8 bytes and is otherwise left inside the
      allocated block (then it is 0 bytes, see PlacedIsExact). */
  function Placed(v: seq<Blk>, k: int, t: int): (w: seq<Blk>)
    requires 0 <= k < |v|
    ensures |w| == |v| + (if v[k].size - t >= 8 then 1 else 0)
    ensures w[..k] == v[..k] && w[k] == Blk(t, true)
    ensures v[k].size - t >= 8 ==> w[k + 1] == Blk(v[k].size - t, false) && w[k + 2..] == v[k + 1..]
    ensures v[k].size - t < 8 ==> w[k + 1..] == v[k + 1..]
  {
    var rest := v[k].size - t;
    v[..k] + [Blk(t, true)] + (if rest >= 8 then [Blk(rest, false)] else []) + v[k + 1..]
  }

  /** When a multiple-of-8 block is not split, the allocated block has its
      full size: nothing is lost to an unrecorded remainder. */
  lemma PlacedIsExact(v: seq<Blk>, k: int, t: int)
    requires 0 <= k < |v| && v[k].size % 8 == 0 && t % 8 == 0 && t <= v[k].size
    requires v[k].size - t < 8
    ensures Placed(v, k, t) == v[k := Blk(v[k].size, true)]
  {
  }

  /** Placing a request moves exactly `t` bytes from the free total to the
      in-use total; the arena's total size is unchanged. */
  lemma PlacedBytes(v: seq<Blk>, k: int, t: int)
    requires 0 <= k < |v| && !v[k].used && v[k].size % 8 == 0 && t % 8 == 0 && t <= v[k].size
    ensures Sum(Placed(v, k, t)) == Sum(v)
    ensures Bytes(Placed(v, k, t), true) == Bytes(v, true) + t
    ensures Bytes(Placed(v, k, t), false) == Bytes(v, false) - t
  {
    Single(v[k]);
    Single(Blk(t, true));
    var rest := v[k].size - t;
    if rest >= 8 {
      PlacedSplitBytes(v, k, t);
    } else {
      assert v[k].size == t by {
        Multiples8(v[k].size, t);
      }
      PlacedWholeBytes(v, k, t);
    }
  }

  lemma PlacedWholeBytes(v: seq<Blk>, k: int, t: int)
    requires 0 <= k < |v| && v[k].size - t < 8
    ensures var w := Placed(v, k, t);
      && Sum(w) == Sum(v) - Sum([v[k]]) + Sum([Blk(t, true)])
      && Bytes(w, true) == Bytes(v, true) - Bytes([v[k]], true) + Bytes([Blk(t, true)], true)
      && Bytes(w, false) == Bytes(v, false) - Bytes([v[k]], false) + Bytes([Blk(t, true)], false)
  {
    var mid := [Blk(t, true)];
    assert Placed(v, k, t) == v[..k] + mid + v[k + 1..];
    ReplaceBlock(v, k, mid, true);
    ReplaceBlock(v, k, mid, false);
  }

  lemma PlacedSplitBytes(v: seq<Blk>, k: int, t: int)
    requires 0 <= k < |v| && !v[k].used && v[k].size - t >= 8
    ensures var w, rest := Placed(v, k, t), v[k].size - t;
      && Sum(w) == Sum(v) - v[k].size + t + rest
      && Bytes(w, true) == Bytes(v, true) - Bytes([v[k]], true) + t
      && Bytes(w, false) == Bytes(v, false) - Bytes([v[k]], false) + rest
  {
    var rest := v[k].size - t;
    var mid := [Blk(t, true)] + [Blk(rest, false)];
    assert Placed(v, k, t) == v[..k] + mid + v[k + 1..];
    ReplaceBlock(v, k, mid, true);
    ReplaceBlock(v, k, mid, false);
    Single(Blk(t, true));
    Single(Blk(rest, false));
    SumAppend([Blk(t, true)], [Blk(rest, false)]);
    BytesAppend([Blk(t, true)], [Blk(rest, false)], true);
    BytesAppend([Blk(t, true)], [Blk(rest, false)], false);
  }
}
