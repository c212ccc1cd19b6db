/** What one pass of coalesce (allocator.c:222-265) does to the block list.

    The pass visits the blocks front to back. A free block first absorbs the
    block after it when that one is free, and is then absorbed by the block
    before it when that one is free. Seen from the list, this is a left fold:
    each block in turn is appended to the list built so far, or merged into its
    last block when both are free (Push). Coalesced is that fold; the method
    Allocator.Coalesce is proved to produce it. */
module Coalescing {
  import opened Blocks

  /** No two neighbouring blocks are both free. */
  predicate NoAdjacentFree(v: seq<Blk>)
  {
    forall i :: 0 <= i < |v| - 1 ==> v[i].used || v[i + 1].used
  }

  /** Adds block b at the end of acc, merging it into acc's last block when
      both are free. */
  function Push(acc: seq<Blk>, b: Blk): (r: seq<Blk>)
    ensures |acc| <= |r| <= |acc| + 1 && |r| > 0 && r[|r| - 1].used == b.used
  {
    if !b.used && |acc| > 0 && !acc[|acc| - 1].used then
      acc[..|acc| - 1] + [Blk(acc[|acc| - 1].size + b.size, false)]
    else
      acc + [b]
  }

  /** The list after one coalescing pass. */
  function Coalesced(v: seq<Blk>): (r: seq<Blk>)
    ensures |r| <= |v| && (|v| > 0 ==> |r| > 0)
  {
    if |v| == 0 then [] else Push(Coalesced(v[..|v| - 1]), v[|v| - 1])
  }

  /** After the pass no two neighbouring blocks are both free. */
  lemma {:induction false} CoalescedHasNoAdjacentFree(v: seq<Blk>)
    ensures NoAdjacentFree(Coalesced(v))
  {
    if |v| > 0 {
      CoalescedHasNoAdjacentFree(v[..|v| - 1]);
    }
  }

  /** A list without free neighbours is left as it is. */
  lemma {:induction false} CoalescedKeeps(v: seq<Blk>)
    requires NoAdjacentFree(v)
    ensures Coalesced(v) == v
  {
    if |v| > 0 {
      var u := v[..|v| - 1];
      assert NoAdjacentFree(u) by {
        forall i | 0 <= i < |u| - 1 ensures u[i].used || u[i + 1].used {
          assert u[i] == v[i] && u[i + 1] == v[i + 1];
        }
      }
      CoalescedKeeps(u);
      assert u + [v[|v| - 1]] == v;
    }
  }

  /** A second pass changes nothing. */
  lemma CoalescedIdempotent(v: seq<Blk>)
    ensures Coalesced(Coalesced(v)) == Coalesced(v)
  {
    CoalescedHasNoAdjacentFree(v);
    CoalescedKeeps(Coalesced(v));
  }

  lemma PushBytes(acc: seq<Blk>, b: Blk)
    ensures Sum(Push(acc, b)) == Sum(acc) + b.size
    ensures forall used :: Bytes(Push(acc, b), used) == Bytes(acc, used) + (if b.used == used then b.size else 0)
  {
    if !b.used && |acc| > 0 && !acc[|acc| - 1].used {
      var n := |acc| - 1;
      var merged := Blk(acc[n].size + b.size, false);
      assert acc == acc[..n] + [acc[n]];
      SumAppend(acc[..n], [acc[n]]);
      SumAppend(acc[..n], [merged]);
      forall used: bool
        ensures Bytes(Push(acc, b), used) == Bytes(acc, used) + (if b.used == used then b.size else 0)
      {
        BytesAppend(acc[..n], [acc[n]], used);
        BytesAppend(acc[..n], [merged], used);
      }
    } else {
      SumAppend(acc, [b]);
      forall used: bool
        ensures Bytes(Push(acc, b), used) == Bytes(acc, used) + (if b.used == used then b.size else 0)
      {
        BytesAppend(acc, [b], used);
      }
    }
  }

  /** Coalescing neither creates nor loses bytes, in use or free. */
  lemma {:induction false} CoalescedBytes(v: seq<Blk>)
    ensures Sum(Coalesced(v)) == Sum(v)
    ensures forall used :: Bytes(Coalesced(v), used) == Bytes(v, used)
  {
    if |v| > 0 {
      CoalescedBytes(v[..|v| - 1]);
      PushBytes(Coalesced(v[..|v| - 1]), v[|v| - 1]);
    }
  }

  /** When every block is free, the pass leaves one free block holding all of
      them. */
  lemma {:induction false} AllFreeCollapses(v: seq<Blk>)
    requires |v| > 0
    requires forall i :: 0 <= i < |v| ==> !v[i].used
    ensures Coalesced(v) == [Blk(Sum(v), false)]
  {
    if |v| > 1 {
      AllFreeCollapses(v[..|v| - 1]);
    } else {
      assert v[..0] == [];
    }
  }

  /** One more block of the list: the fold takes one step. */
  lemma CoalescedStep(v: seq<Blk>, j: int)
    requires 0 <= j < |v|
    ensures Coalesced(v[..j + 1]) == Push(Coalesced(v[..j]), v[j])
  {
    assert v[..j + 1][..j] == v[..j];
  }

  /** A visit to an allocated block appends it to the fold unchanged. */
  lemma CoalescedStepUsed(v: seq<Blk>, j: int)
    requires 0 <= j < |v| && v[j].used
    ensures Coalesced(v[..j + 1]) == Coalesced(v[..j]) + [v[j]]
    ensures Coalesced(v[..j + 1]) + v[j + 1..] == Coalesced(v[..j]) + v[j..]
  {
    var acc := Coalesced(v[..j]);
    CoalescedStep(v, j);
    assert Push(acc, v[j]) == acc + [v[j]];
    assert v[j..] == [v[j]] + v[j + 1..];
    assert acc + [v[j]] + v[j + 1..] == acc + v[j..];
  }

  /** Pushing a free block onto a list ending in a free block is the backward
      merge of allocator.c:246-257. */
  lemma PushIsMerge(acc: seq<Blk>, b: Blk)
    requires |acc| > 0 && !acc[|acc| - 1].used && !b.used
    ensures Push(acc, b) == Merged(acc + [b], |acc| - 1)
  {
  }

  /** Pushing two free blocks one after the other is pushing their forward
      merge (allocator.c:235-243) once: the forward merge followed by the
      backward merge of the same visit agrees with the fold. */
  lemma PushPair(acc: seq<Blk>, b1: Blk, b2: Blk)
    requires !b1.used && !b2.used
    ensures Push(Push(acc, b1), b2) == Push(acc, Blk(b1.size + b2.size, false))
  {
  }

  /** The forward merge of a visit on the list seen by the pass: the blocks
      merged so far, then the two free blocks at the cursor, then the rest. */
  lemma ForwardMerge(acc: seq<Blk>, rest: seq<Blk>)
    requires |rest| >= 2 && !rest[0].used && !rest[1].used
    ensures Merged(acc + rest, |acc|) == acc + [Blk(rest[0].size + rest[1].size, false)] + rest[2..]
  {
    assert (acc + rest)[|acc| + 2..] == rest[2..];
  }

  /** ForwardMerge at block j of the list being folded. */
  lemma ForwardMergeAt(acc: seq<Blk>, v: seq<Blk>, j: int)
    requires 0 <= j && j + 1 < |v| && !v[j].used && !v[j + 1].used
    ensures Merged(acc + v[j..], |acc|) == acc + [Blk(v[j].size + v[j + 1].size, false)] + v[j + 2..]
  {
    ForwardMerge(acc, v[j..]);
    assert v[j..][2..] == v[j + 2..];
  }

  /** The backward merge of a visit on the list seen by the pass is one step
      of the fold. */
  lemma BackwardMerge(acc: seq<Blk>, b: Blk, rest: seq<Blk>)
    requires |acc| > 0 && !acc[|acc| - 1].used && !b.used
    ensures Merged(acc + [b] + rest, |acc| - 1) == Push(acc, b) + rest
  {
    PushIsMerge(acc, b);
    MergedPrefix(acc + [b], rest, |acc| - 1);
  }

  /** The forward half of a visit to the free block v[j]: the block the
      fold then holds at the cursor is v[j] alone, or v[j] and v[j+1] merged
      when v[j+1] is free too. */
  lemma FoldForward(v: seq<Blk>, j: int, j': int, b: Blk)
    requires 0 <= j < j' <= |v| && !v[j].used
    requires || (j' == j + 1 && b == v[j])
             || (j' == j + 2 && !v[j + 1].used && b == Blk(v[j].size + v[j + 1].size, false))
    ensures Coalesced(v[..j']) == Push(Coalesced(v[..j]), b)
  {
    CoalescedStep(v, j);
    if j' == j + 2 {
      CoalescedStep(v, j + 1);
      PushPair(Coalesced(v[..j]), v[j], v[j + 1]);
    }
  }
}
