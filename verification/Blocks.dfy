/** Block arithmetic of the block-caching file system (cmd/fetcherfs/fs.go). */
module Blocks {
  import opened Arithmetic

  /** fetchMetaInfo. */
  function BlockCount(size: nat, bs: int): nat
    requires bs > 0
  {
    size / bs + if size % bs > 0 then 1 else 0
  }

  /** First byte of the requested range. */
  function RangeStart(idx: int, bs: int): int
  {
    idx * bs
  }

  /** Last byte of the requested range, inclusive as in a Range header. */
  function RangeEnd(idx: int, size: nat, bs: int): int
  {
    var end := RangeStart(idx, bs) + bs - 1;
    if end >= size then size - 1 else end
  }

  function RangeLen(idx: int, size: nat, bs: int): int
  {
    RangeEnd(idx, size, bs) - RangeStart(idx, bs) + 1
  }

  predicate InRange(p: int, idx: int, size: nat, bs: int)
  {
    RangeStart(idx, bs) <= p <= RangeEnd(idx, size, bs)
  }

  /** Exactly the indices below the block count start inside the object. */
  lemma BlockStarts(idx: nat, size: nat, bs: int)
    requires bs > 0
    ensures idx < BlockCount(size, bs) <==> RangeStart(idx, bs) < size
  {
    DivBounds(size, bs);
    assert size % bs == size - (size / bs) * bs;
    if idx <= size / bs {
      MulMono(idx, size / bs, bs);
      if idx < size / bs {
        MulMono(idx + 1, size / bs, bs);
        assert (idx + 1) * bs == idx * bs + bs;
      }
    } else {
      MulMono(size / bs + 1, idx, bs);
      assert (size / bs + 1) * bs == (size / bs) * bs + bs;
    }
  }

  lemma RangeLenBounds(idx: nat, size: nat, bs: int)
    requires bs > 0 && idx < BlockCount(size, bs)
    ensures 0 <= RangeStart(idx, bs) <= RangeEnd(idx, size, bs) < size && 1 <= RangeLen(idx, size, bs) <= bs
  {
    BlockStarts(idx, size, bs);
    MulMono(0, idx, bs);
  }

  /** Partition: every byte of the object lies in exactly one requested range, that of its quotient. */
  lemma Partition(p: nat, idx: nat, size: nat, bs: int)
    requires bs > 0 && p < size
    ensures p / bs < BlockCount(size, bs)
    ensures idx < BlockCount(size, bs) ==> (InRange(p, idx, size, bs) <==> idx == p / bs)
  {
    DivBounds(p, bs);
    BlockStarts(p / bs, size, bs);
    if InRange(p, idx, size, bs) {
      DivUnique(p, idx, bs);
    }
  }

  /** offsetToBlockIndexRange. */
  function FirstBlock(offset: int, bs: int): int
    requires bs > 0
  {
    TruncDiv(offset, bs)
  }

  function LastBlock(size: int, offset: int, bs: int): int
    requires bs > 0
  {
    TruncDiv(offset + size - 1, bs)
  }

  lemma OwnBlock(p: nat, size: nat, bs: int)
    requires bs > 0 && p < size
    ensures p / bs < BlockCount(size, bs) && InRange(p, p / bs, size, bs)
  {
    DivBounds(p, bs);
    DivMono(0, p, bs);
    Partition(p, p / bs, size, bs);
  }

  /** A nonempty read inside the object maps to existing blocks, and every byte of it lies in one of them. */
  lemma ReadCovered(n: nat, offset: nat, size: nat, bs: int, p: nat)
    requires bs > 0 && n > 0 && offset + n <= size && offset <= p < offset + n
    ensures 0 <= FirstBlock(offset, bs) <= p / bs <= LastBlock(n, offset, bs) < BlockCount(size, bs)
    ensures InRange(p, p / bs, size, bs)
  {
    OwnBlock(p, size, bs);
    OwnBlock(offset + n - 1, size, bs);
    DivMono(0, offset, bs);
    DivMono(offset, p, bs);
    DivMono(p, offset + n - 1, bs);
  }

  /** Blocks of an empty read: at most block 0, or none. */
  lemma EmptyRead(offset: nat, size: nat, bs: int, idx: int)
    requires bs > 0 && offset < size && FirstBlock(offset, bs) <= idx <= LastBlock(0, offset, bs)
    ensures 0 <= idx < BlockCount(size, bs)
  {
    OwnBlock(offset, size, bs);
    DivMono(0, offset, bs);
    if offset > 0 {
      DivMono(offset - 1, offset, bs);
    } else {
      DivMono(0, 1, bs);
    }
  }

  /** Total length of the first n ranges. */
  function TotalLen(n: nat, size: nat, bs: int): int
  {
    if n == 0 then 0 else TotalLen(n - 1, size, bs) + RangeLen(n - 1, size, bs)
  }

  lemma {:induction false} TotalLenIs(n: nat, size: nat, bs: int)
    requires bs > 0 && n <= BlockCount(size, bs)
    ensures TotalLen(n, size, bs) == if n * bs <= size then n * bs else size
  {
    if n > 0 {
      TotalLenIs(n - 1, size, bs);
      BlockStarts(n - 1, size, bs);
      assert n * bs == (n - 1) * bs + bs;
    }
  }

  /** Conservation: the ranges of all blocks add up to the object. */
  lemma WholeObject(size: nat, bs: int)
    requires bs > 0
    ensures TotalLen(BlockCount(size, bs), size, bs) == size
  {
    TotalLenIs(BlockCount(size, bs), size, bs);
    BlockStarts(BlockCount(size, bs), size, bs);
  }
}
