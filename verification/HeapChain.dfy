/** The chain of heap blocks: growing it, searching it (db/storage/edb/EDBFile.cpp:221-278,
    db/storage/edb/Heap.cpp:148-187). */
module HeapChain {
  import opened Bytes
  import opened Blocks
  import H = HeapBlocks

  datatype HeapResult =
    | Allocated(span: Span)
    | BigBlocksTodo      // "TODO: Big blocks"
    | DiskFull           // ftruncate failed
    | Unreachable        // ESSA_UNREACHABLE: a new block cannot satisfy the request
    | Corruption         // "Found non-heap block in heap block list", or an error of the block

  /** A request that a fresh heap block can serve. */
  predicate Fits(size: nat, blockSize: nat) {
    size + BLOCK_HEADER + 4 * H.HEADER <= blockSize
  }

  /** The steps of `allocate_block` build the appended file. */
  lemma BuildsAppended(bl: seq<Block>, t: byte, last: nat, size: nat)
    requires BLOCK_HEADER + 2 * H.HEADER <= size
    requires last == 0 || (InFile(bl, last) && |At(bl, last)| == size)
    ensures var n := |bl| + 1;
            var b0 := bl + [Zeros(size)];
            var b1 := if last == 0 then b0 else Written(b0, Ptr(last, 5), LE(n, 4));
            var b2 := Written(b1, Ptr(n, 0), [t] + LE(last, 4));
            && (t != HEAP ==> b2 == Appended(bl, t, last, size))
            && (t == HEAP ==>
                 Written(b2, Ptr(n, BLOCK_HEADER), H.Fresh(size - BLOCK_HEADER)) == Appended(bl, t, last, size))
  {
    hide H.Fresh, LE;
    var n := |bl| + 1;
    var b0 := bl + [Zeros(size)];
    var b1 := if last == 0 then b0 else Written(b0, Ptr(last, 5), LE(n, 4));
    var b2 := Written(b1, Ptr(n, 0), [t] + LE(last, 4));
    ZeroBytes();
    assert b2[|bl|] == [t] + LE(last, 4) + LE(0, 4) + Zeros(size - BLOCK_HEADER);
    if t == HEAP {
      var b3 := Written(b2, Ptr(n, BLOCK_HEADER), H.Fresh(size - BLOCK_HEADER));
      assert b3[|bl|] == NewBlock(t, last, size);
      assert b3 == Appended(bl, t, last, size);
    } else {
      assert b2 == Appended(bl, t, last, size);
    }
  }

  lemma ZeroBytes()
    ensures LE(0, 4) == Zeros(4)
  {
  }

  datatype SearchResult = Found(at: Ptr) | Exhausted | Corrupt

  lemma FoundIn(bl: seq<Block>, b: nat, size: nat, blockSize: nat, lastTable: nat, lastHeap: nat)
    requires Chains(bl, lastTable, lastHeap)
    requires IsType(bl, b, HEAP) && |At(bl, b)| == blockSize < U32_LIMIT && H.Tiled(Payload(At(bl, b)), 0)
    requires 0 <= H.FirstFit(Payload(At(bl, b)), 0, size)
    ensures var p, h := Payload(At(bl, b)), H.FirstFit(Payload(At(bl, b)), 0, size);
            var bl' := bl[b - 1 := WithPayload(At(bl, b), H.Carve(p, h, size))];
            && Grown(bl, bl', multiset{Span(Ptr(b, h + H.HEADER + BLOCK_HEADER), size)})
            && HeapOnly(bl, bl')
            && Fits(size, blockSize)
  {
    hide Type, Payload, WithPayload, H.Carve, Grown, HeapOnly, Chains;
    var p, h := Payload(At(bl, b)), H.FirstFit(Payload(At(bl, b)), 0, size);
    AllocGrows(bl, b, size);
    H.CarveEffect(p, size, 0, 0, 0);
    PayloadChains(bl, b, H.Carve(p, h, size), lastTable, lastHeap);
  }

  /** The heap chain steps over no heap block, so a search along it misses none. */
  lemma NextInChain(bl: seq<Block>, b: nat, last: nat, size: nat)
    requires Chained(bl, HEAP, last) && IsType(bl, b, HEAP)
    ensures var n := Next(At(bl, b));
            && (n != 0 ==> b < n && IsType(bl, n, HEAP))
            && forall c: nat | b < c && (n == 0 || c < n) :: NoFit(bl, c, size)
  {
    hide Type, Next, Payload;
    assert LinkedAt(bl, HEAP, b);
    var n := Next(At(bl, b));
    NextIsFirst(bl, HEAP, b + 1, n);
    forall c: nat | b < c && (n == 0 || c < n) ensures NoFit(bl, c, size) {
      NextIsFirst(bl, HEAP, b + 1, c);
    }
  }

  /** Block `b` is not a heap block with a chunk for `size` bytes. */
  ghost predicate NoFit(bl: seq<Block>, b: nat, size: nat) {
    IsType(bl, b, HEAP) && H.Tiled(Payload(At(bl, b)), 0) ==> H.FirstFit(Payload(At(bl, b)), 0, size) < 0
  }

  /** No chunk of a tiled block can satisfy a request that a fresh block cannot. */
  lemma TooBigNeverFits(bl: seq<Block>, b: nat, size: nat, blockSize: nat)
    requires IsType(bl, b, HEAP) && |At(bl, b)| == blockSize && H.Tiled(Payload(At(bl, b)), 0)
    requires !Fits(size, blockSize)
    ensures NoFit(bl, b, size)
  {
    var h := H.FirstFit(Payload(At(bl, b)), 0, size);
  }

  /** The block allocated for a request that no existing block can satisfy, and what it answers. */
  lemma FreshBlockAnswers(bl: seq<Block>, last: nat, size: nat, blockSize: nat)
    requires BLOCK_HEADER + 2 * H.HEADER <= blockSize < U32_LIMIT && |bl| + 1 < U32_LIMIT
    requires last == 0 || IsType(bl, last, HEAP)
    ensures var r := Appended(bl, HEAP, last, blockSize);
            && IsType(r, |bl| + 1, HEAP) && HeapOnly(bl, r) && Grown(bl, r, multiset{})
            && var p := Payload(At(r, |bl| + 1));
               H.Tiled(p, 0) && (0 <= H.FirstFit(p, 0, size) <==> Fits(size, blockSize))
  {
    hide Type, Payload, Appended, H.Fresh, Grown;
    var r := Appended(bl, HEAP, last, blockSize);
    AppendedNew(bl, HEAP, last, blockSize);
    H.FreshEffect(blockSize - BLOCK_HEADER, size);
    AppendedGrows(bl, HEAP, last, blockSize);
    forall b: nat | InFile(bl, b)
      ensures Type(At(r, b)) == Type(At(bl, b)) && (Type(At(bl, b)) != HEAP ==> At(r, b) == At(bl, b))
    {
      AppendedOld(bl, HEAP, last, blockSize, b);
    }
  }

  /** Writing back a whole block. */
  lemma BlockFlush(bl: seq<Block>, b: nat, p: seq<byte>)
    requires InFile(bl, b) && |p| == |At(bl, b)| - BLOCK_HEADER
    ensures Written(bl, Ptr(b, 0), At(bl, b)[..BLOCK_HEADER] + p) == bl[b - 1 := WithPayload(At(bl, b), p)]
    ensures p == Payload(At(bl, b)) ==> Written(bl, Ptr(b, 0), At(bl, b)[..BLOCK_HEADER] + p) == bl
  {
    var blk := At(bl, b);
    assert Splice(blk, 0, blk[..BLOCK_HEADER] + p) == WithPayload(blk, p);
    if p == Payload(blk) {
      assert WithPayload(blk, p) == blk;
    }
  }

  // ---- The heap of a file that was just created ----

  /** There is one heap block, and one gap in it. */
  ghost predicate Gap(bl: seq<Block>, p: nat, gap: nat) {
    |bl| == 2 && IsType(bl, 2, HEAP) && H.OneGap(Payload(At(bl, 2)), p, gap)
  }

  /** What allocating `size` bytes does to a heap with one gap: it shrinks the gap, or, when the gap
      has no room, it adds a block. */
  ghost predicate GapStep(bl: seq<Block>, bl': seq<Block>, size: nat) {
    forall p: nat, gap: nat | Gap(bl, p, gap) ::
      if size + 2 * H.HEADER <= gap then Gap(bl', p + size + H.HEADER, gap - size - H.HEADER) else |bl'| > 2
  }

  lemma GapFound(bl: seq<Block>, b: nat, size: nat)
    requires IsType(bl, b, HEAP) && |At(bl, b)| < U32_LIMIT && H.Tiled(Payload(At(bl, b)), 0)
    requires 0 <= H.FirstFit(Payload(At(bl, b)), 0, size) && (|bl| == 2 ==> b == 2)
    ensures var p := Payload(At(bl, b));
            GapStep(bl, bl[b - 1 := WithPayload(At(bl, b), H.Carve(p, H.FirstFit(p, 0, size), size))], size)
  {
    hide H.OneGap, H.Carve, H.Tiled, WithPayload, Payload, Type;
    var d := Payload(At(bl, b));
    WithPayloadFields(At(bl, b), H.Carve(d, H.FirstFit(d, 0, size), size));
    forall p: nat, gap: nat | Gap(bl, p, gap)
      ensures size + 2 * H.HEADER <= gap
      ensures H.OneGap(H.Carve(d, H.FirstFit(d, 0, size), size), p + size + H.HEADER, gap - size - H.HEADER)
    {
      H.GapServes(d, p, gap, size);
    }
  }

  /** No gap has room for `size` bytes. */
  ghost predicate GapFull(bl: seq<Block>, size: nat) {
    forall p: nat, gap: nat | Gap(bl, p, gap) :: gap < size + 2 * H.HEADER
  }

  lemma GapExhausted(bl: seq<Block>, size: nat, blockSize: nat)
    requires Sized(bl, blockSize) && blockSize < U32_LIMIT
    requires forall b: nat :: NoFit(bl, b, size)
    ensures GapFull(bl, size)
  {
    hide H.FirstFit, H.Tiled, H.Chunk, Payload, Type;
    forall p: nat, gap: nat | Gap(bl, p, gap) ensures gap < size + 2 * H.HEADER {
      assert NoFit(bl, 2, size);
      H.GapServes(Payload(At(bl, 2)), p, gap, size);
    }
  }

  lemma GapTooSmall(bl: seq<Block>, size: nat, blockSize: nat)
    requires Sized(bl, blockSize) && blockSize < U32_LIMIT && !Fits(size, blockSize)
    ensures GapFull(bl, size)
  {
    hide NoFit;
    forall b: nat ensures NoFit(bl, b, size) {
      if IsType(bl, b, HEAP) && H.Tiled(Payload(At(bl, b)), 0) {
        TooBigNeverFits(bl, b, size, blockSize);
      } else {
        NoHeapNoFit(bl, b, size);
      }
    }
    GapExhausted(bl, size, blockSize);
  }

  lemma NoHeapNoFit(bl: seq<Block>, b: nat, size: nat)
    requires !(IsType(bl, b, HEAP) && H.Tiled(Payload(At(bl, b)), 0))
    ensures NoFit(bl, b, size)
  {
  }

  /** Filling a span in use changes no gap. */
  lemma GapFilled(bl: seq<Block>, sp: Span, bs: seq<byte>, p: nat, gap: nat)
    requires Gap(bl, p, gap) && InUse(bl, sp) && |bs| == sp.size
    ensures sp.ptr.off + |bs| <= |At(bl, sp.ptr.block)|
    ensures Gap(Written(bl, sp.ptr, bs), p, gap)
  {
    hide H.Tiled, H.Chunk, Splice, Type, WithPayload;
    InUseRange(bl, sp);
    var b := At(bl, sp.ptr.block);
    var o := sp.ptr.off - BLOCK_HEADER;
    if sp.ptr.block == 2 {
      H.WriteEffect(Payload(b), o, sp.size, bs);
      WrittenPayload(b, sp.ptr.off, bs);
      WithPayloadFields(b, Splice(Payload(b), o, bs));
    }
  }

  /** Allocating in a gap and then filling the span. */
  lemma GapCopied(bl: seq<Block>, bl1: seq<Block>, sp: Span, bs: seq<byte>)
    requires GapStep(bl, bl1, sp.size) && InUse(bl1, sp) && |bs| == sp.size
    ensures InFile(bl1, sp.ptr.block) && sp.ptr.off + |bs| <= |At(bl1, sp.ptr.block)|
    ensures GapStep(bl, Written(bl1, sp.ptr, bs), |bs|)
  {
    hide Gap, InUse, At;
    FillSpan(bl1, sp, bs, sp);
    forall p: nat, gap: nat | Gap(bl, p, gap) && |bs| + 2 * H.HEADER <= gap
      ensures Gap(Written(bl1, sp.ptr, bs), p + |bs| + H.HEADER, gap - |bs| - H.HEADER)
    {
      GapFilled(bl1, sp, bs, p + |bs| + H.HEADER, gap - |bs| - H.HEADER);
    }
  }
}
