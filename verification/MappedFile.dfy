/** The mapped file: a header followed by equally sized blocks (db/storage/edb/EDBFile.cpp:190-219,
    db/storage/edb/EDBFile.hpp:37-56). */
module MappedFiles {
  import opened Bytes
  import opened Blocks

  /** `block_offset`: the file position of block `idx`; indices start at 1. */
  function BlockOffset(headerSize: nat, blockSize: nat, idx: nat): nat
    requires 1 <= idx
  {
    headerSize + blockSize * (idx - 1)
  }

  lemma BlockOffsetStep(headerSize: nat, blockSize: nat, i: nat, j: nat)
    requires 1 <= i < j
    ensures BlockOffset(headerSize, blockSize, i) + blockSize <= BlockOffset(headerSize, blockSize, j)
  {
    Scaled(blockSize, i, j - 1);
    assert blockSize * i == blockSize * (i - 1) + blockSize;
  }

  lemma {:induction false} Scaled(a: nat, x: nat, y: nat)
    requires x <= y
    ensures a * x <= a * y
  {
  }

  /** Distinct places (block, offset) are distinct file positions, all of them behind the header. */
  lemma BlockOffsetInjective(headerSize: nat, blockSize: nat, p: Ptr, q: Ptr)
    requires 1 <= p.block && 1 <= q.block && p.off < blockSize && q.off < blockSize
    requires BlockOffset(headerSize, blockSize, p.block) + p.off == BlockOffset(headerSize, blockSize, q.block) + q.off
    ensures p == q
  {
    if p.block < q.block {
      BlockOffsetStep(headerSize, blockSize, p.block, q.block);
    } else if q.block < p.block {
      BlockOffsetStep(headerSize, blockSize, q.block, p.block);
    }
  }

  /** The bytes of block `idx`, where the file has them. */
  ghost predicate Holds(file: seq<byte>, headerSize: nat, blockSize: nat, idx: nat, b: Block)
    requires 1 <= idx
  {
    var o := BlockOffset(headerSize, blockSize, idx);
    o + blockSize <= |file| && file[o..o + blockSize] == b
  }

  /** `file` is a header followed by exactly the blocks `bl`. */
  ghost predicate Maps(file: seq<byte>, headerSize: nat, blockSize: nat, bl: seq<Block>) {
    && |file| == BlockOffset(headerSize, blockSize, |bl| + 1)
    && forall i: nat | InFile(bl, i) :: Holds(file, headerSize, blockSize, i, At(bl, i))
  }

  /** In bytes: behind the header come the blocks, one after the other, and nothing else. */
  lemma FileInBytes(file: seq<byte>, headerSize: nat, blockSize: nat, bl: seq<Block>, i: nat)
    requires Maps(file, headerSize, blockSize, bl) && i < |bl|
    ensures |file| == headerSize + blockSize * |bl|
    ensures 0 <= headerSize + blockSize * i <= headerSize + blockSize * i + blockSize <= |file|
    ensures file[headerSize + blockSize * i..headerSize + blockSize * i + blockSize] == bl[i]
  {
    assert Holds(file, headerSize, blockSize, i + 1, At(bl, i + 1));
  }

  /** Every byte range inside a block lies inside the file, so `access` is always in bounds. */
  lemma AccessInBounds(file: seq<byte>, headerSize: nat, blockSize: nat, bl: seq<Block>, p: Ptr, n: nat)
    requires Maps(file, headerSize, blockSize, bl) && InFile(bl, p.block) && p.off + n <= blockSize
    ensures |At(bl, p.block)| == blockSize
    ensures var o := BlockOffset(headerSize, blockSize, p.block) + p.off;
            o + n <= |file| && file[o..o + n] == At(bl, p.block)[p.off..p.off + n]
  {
    assert Holds(file, headerSize, blockSize, p.block, At(bl, p.block));
    var o := BlockOffset(headerSize, blockSize, p.block);
    assert file[o + p.off..o + p.off + n] == file[o..o + blockSize][p.off..p.off + n];
  }

  lemma WriteHolds(file: seq<byte>, headerSize: nat, blockSize: nat, bl: seq<Block>, p: Ptr, bs: seq<byte>, i: nat)
    requires Maps(file, headerSize, blockSize, bl) && InFile(bl, p.block) && InFile(bl, i)
    requires p.off + |bs| <= blockSize
    ensures |At(bl, p.block)| == blockSize
    ensures var o := BlockOffset(headerSize, blockSize, p.block) + p.off;
            && o + |bs| <= |file|
            && Holds(Splice(file, o, bs), headerSize, blockSize, i, At(Written(bl, p, bs), i))
  {
    hide Splice, BlockOffset;
    AccessInBounds(file, headerSize, blockSize, bl, p, |bs|);
    AccessInBounds(file, headerSize, blockSize, bl, Ptr(i, 0), blockSize);
    var o := BlockOffset(headerSize, blockSize, p.block) + p.off;
    var oi := BlockOffset(headerSize, blockSize, i);
    var f := Splice(file, o, bs);
    if i == p.block {
      SpliceInside(file, o, bs, oi, oi + blockSize);
    } else {
      if i < p.block {
        BlockOffsetStep(headerSize, blockSize, i, p.block);
      } else {
        BlockOffsetStep(headerSize, blockSize, p.block, i);
      }
      SpliceFrame(file, o, bs, oi, oi + blockSize);
    }
  }

  /** Writing through a (block, offset) pair changes those bytes of that block only. */
  lemma WriteMaps(file: seq<byte>, headerSize: nat, blockSize: nat, bl: seq<Block>, p: Ptr, bs: seq<byte>)
    requires Maps(file, headerSize, blockSize, bl) && InFile(bl, p.block) && p.off + |bs| <= blockSize
    ensures |At(bl, p.block)| == blockSize
    ensures var o := BlockOffset(headerSize, blockSize, p.block) + p.off;
            o + |bs| <= |file| && Maps(Splice(file, o, bs), headerSize, blockSize, Written(bl, p, bs))
  {
    hide Holds;
    AccessInBounds(file, headerSize, blockSize, bl, p, |bs|);
    var o := BlockOffset(headerSize, blockSize, p.block) + p.off;
    forall i: nat | InFile(Written(bl, p, bs), i)
      ensures Holds(Splice(file, o, bs), headerSize, blockSize, i, At(Written(bl, p, bs), i))
    {
      WriteHolds(file, headerSize, blockSize, bl, p, bs, i);
    }
  }

  /** Expanding the file by one block adds a zeroed block at its end. */
  lemma ExpandMaps(file: seq<byte>, headerSize: nat, blockSize: nat, bl: seq<Block>)
    requires Maps(file, headerSize, blockSize, bl) && BLOCK_HEADER + 2 * H.HEADER <= blockSize
    ensures Maps(file + Zeros(blockSize), headerSize, blockSize, bl + [Zeros(blockSize)])
  {
    var r := bl + [Zeros(blockSize)];
    var f := file + Zeros(blockSize);
    assert blockSize * (|bl| + 1) == blockSize * |bl| + blockSize;
    forall i: nat | InFile(r, i) ensures Holds(f, headerSize, blockSize, i, At(r, i)) {
      var o := BlockOffset(headerSize, blockSize, i);
      if i <= |bl| {
        assert InFile(bl, i);
        AccessInBounds(file, headerSize, blockSize, bl, Ptr(i, 0), blockSize);
        assert f[o..o + blockSize] == file[o..o + blockSize];
      } else {
        assert f[o..o + blockSize] == Zeros(blockSize);
      }
    }
  }

  class MappedFile {
    const headerSize: nat
    const blockSize: nat
    /** The number of blocks the storage device has room for; `ftruncate` fails beyond it. */
    const capacity: nat
    var data: seq<byte>
    var blockCount: nat
    ghost var blocks: seq<Block>

    ghost predicate Valid()
      reads this
    {
      && BLOCK_HEADER + 2 * H.HEADER <= blockSize < U32_LIMIT
      && capacity + 1 < U32_LIMIT
      && |blocks| <= capacity
      && blockCount == |blocks| + 1
      && Maps(data, headerSize, blockSize, blocks)
      && Sized(blocks, blockSize)
    }

    constructor (headerSize: nat, blockSize: nat, capacity: nat)
      requires BLOCK_HEADER + 2 * H.HEADER <= blockSize < U32_LIMIT && capacity + 1 < U32_LIMIT
      ensures Valid() && blocks == []
      ensures this.headerSize == headerSize && this.blockSize == blockSize && this.capacity == capacity
    {
      this.headerSize, this.blockSize, this.capacity := headerSize, blockSize, capacity;
      data, blockCount, blocks := Zeros(headerSize), 1, [];
    }

    /** `access`, for reading. */
    method Read(p: Ptr, n: nat) returns (bs: seq<byte>)
      requires Valid() && InFile(blocks, p.block) && p.off + n <= blockSize
      ensures |At(blocks, p.block)| == blockSize && bs == At(blocks, p.block)[p.off..p.off + n]
    {
      AccessInBounds(data, headerSize, blockSize, blocks, p, n);
      var o := BlockOffset(headerSize, blockSize, p.block) + p.off;
      bs := data[o..o + n];
    }

    /** The write-back of an access. */
    method Write(p: Ptr, bs: seq<byte>)
      requires Valid() && InFile(blocks, p.block) && p.off + |bs| <= blockSize
      modifies this`data, this`blocks
      ensures Valid() && |At(old(blocks), p.block)| == blockSize && blocks == Written(old(blocks), p, bs)
    {
      WriteMaps(data, headerSize, blockSize, blocks, p, bs);
      AccessInBounds(data, headerSize, blockSize, blocks, p, |bs|);
      var o := BlockOffset(headerSize, blockSize, p.block) + p.off;
      data := Splice(data, o, bs);
      blocks := Written(blocks, p, bs);
    }

    method Expand() returns (ok: bool)
      requires Valid()
      modifies this
      ensures Valid() && ok == (|old(blocks)| < capacity)
      ensures blocks == if ok then old(blocks) + [Zeros(blockSize)] else old(blocks)
    {
      if blockCount > capacity {
        return false;
      }
      ExpandMaps(data, headerSize, blockSize, blocks);
      data := data + Zeros(blockSize);
      blockCount := blockCount + 1;
      blocks := blocks + [Zeros(blockSize)];
      return true;
    }
  }
}
