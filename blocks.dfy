/** The block list as the allocator's user sees it: from the first block to the
    end mark, each block has a size in bytes (header included) and is either
    in use or free. The word-level layout that realises this list is in module
    Heap; the operations of allocator.c are stated on this view in modules
    Placement (alloc_bf), Coalescing (coalesce) and here (free_block). */
module Blocks {

  /** One block: its size in bytes and whether it is allocated. */
  datatype Blk = Blk(size: int, used: bool)

  /** Total size of the blocks. */
  function Sum(v: seq<Blk>): (r: int)
  {
    if |v| == 0 then 0 else Sum(v[..|v| - 1]) + v[|v| - 1].size
  }

  /** Total size of the allocated (`used`) or of the free (`!used`) blocks:
      the `used` and `free_size` totals that display() prints. */
  function Bytes(v: seq<Blk>, used: bool): (r: int)
  {
    if |v| == 0 then 0
    else Bytes(v[..|v| - 1], used) + (if v[|v| - 1].used == used then v[|v| - 1].size else 0)
  }

  lemma {:induction false} SumAppend(a: seq<Blk>, b: seq<Blk>)
    ensures Sum(a + b) == Sum(a) + Sum(b)
    decreases |b|
  {
    if |b| > 0 {
      assert (a + b)[..|a + b| - 1] == a + b[..|b| - 1];
      SumAppend(a, b[..|b| - 1]);
    } else {
      assert a + b == a;
    }
  }

  lemma {:induction false} BytesAppend(a: seq<Blk>, b: seq<Blk>, used: bool)
    ensures Bytes(a + b, used) == Bytes(a, used) + Bytes(b, used)
    decreases |b|
  {
    if |b| > 0 {
      assert (a + b)[..|a + b| - 1] == a + b[..|b| - 1];
      BytesAppend(a, b[..|b| - 1], used);
    } else {
      assert a + b == a;
    }
  }

  /** Every byte of the list is either in use or free. */
  lemma {:induction false} SumIsUsedPlusFree(v: seq<Blk>)
    ensures Sum(v) == Bytes(v, true) + Bytes(v, false)
  {
    if |v| > 0 {
      SumIsUsedPlusFree(v[..|v| - 1]);
    }
  }

  /** The totals of a one-block list. */
  lemma Single(b: Blk)
    ensures Sum([b]) == b.size
    ensures Bytes([b], b.used) == b.size && Bytes([b], !b.used) == 0
  {
    assert [b][..0] == [];
  }

  /** Replacing the block at index k changes the totals by the difference. */
  lemma ReplaceBlock(v: seq<Blk>, k: int, mid: seq<Blk>, used: bool)
    requires 0 <= k < |v|
    ensures var w := v[..k] + mid + v[k + 1..];
      && Sum(w) == Sum(v) - v[k].size + Sum(mid)
      && Bytes(w, used) == Bytes(v, used) - Bytes([v[k]], used) + Bytes(mid, used)
  {
    assert v == v[..k] + [v[k]] + v[k + 1..];
    SumAppend(v[..k] + [v[k]], v[k + 1..]);
    SumAppend(v[..k], [v[k]]);
    SumAppend(v[..k] + mid, v[k + 1..]);
    SumAppend(v[..k], mid);
    BytesAppend(v[..k] + [v[k]], v[k + 1..], used);
    BytesAppend(v[..k], [v[k]], used);
    BytesAppend(v[..k] + mid, v[k + 1..], used);
    BytesAppend(v[..k], mid, used);
  }

  /** The list after free_block on the block at index k. */
  function Freed(v: seq<Blk>, k: int): (w: seq<Blk>)
    requires 0 <= k < |v|
    ensures |w| == |v| && w[k] == Blk(v[k].size, false)
    ensures w[..k] == v[..k] && w[k + 1..] == v[k + 1..]
  {
    v[k := Blk(v[k].size, false)]
  }

  /** Freeing an allocated block moves exactly its bytes from the in-use total
      to the free total and leaves the arena's total size alone. */
  lemma FreedBytes(v: seq<Blk>, k: int)
    requires 0 <= k < |v| && v[k].used
    ensures Sum(Freed(v, k)) == Sum(v)
    ensures Bytes(Freed(v, k), true) == Bytes(v, true) - v[k].size
    ensures Bytes(Freed(v, k), false) == Bytes(v, false) + v[k].size
  {
    assert Freed(v, k) == v[..k] + [Blk(v[k].size, false)] + v[k + 1..];
    ReplaceBlock(v, k, [Blk(v[k].size, false)], true);
    ReplaceBlock(v, k, [Blk(v[k].size, false)], false);
    Single(v[k]);
    Single(Blk(v[k].size, false));
  }

  /** The list after the free blocks at indices i and i+1 become one free
      block. */
  function Merged(v: seq<Blk>, i: int): (w: seq<Blk>)
    requires 0 <= i && i + 1 < |v|
    ensures |w| == |v| - 1 && w[i] == Blk(v[i].size + v[i + 1].size, false)
    ensures w[..i] == v[..i] && w[i + 1..] == v[i + 2..]
  {
    v[..i] + [Blk(v[i].size + v[i + 1].size, false)] + v[i + 2..]
  }

  /** Merging inside a prefix leaves the blocks after it alone. */
  lemma MergedPrefix(u: seq<Blk>, rest: seq<Blk>, i: int)
    requires 0 <= i && i + 1 < |u|
    ensures Merged(u + rest, i) == Merged(u, i) + rest
  {
    assert (u + rest)[i + 2..] == u[i + 2..] + rest;
  }
}
