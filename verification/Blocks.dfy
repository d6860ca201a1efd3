/** The blocks of a table file as values: block headers, the prev/next chains, and the heap spans
    that are in use (db/storage/edb/Definitions.hpp, db/storage/edb/EDBFile.cpp). */
module Blocks {
  import opened Bytes
  import H = HeapBlocks

  /** A block index (0 is null) and an offset relative to the start of the block. */
  datatype Ptr = Ptr(block: nat, off: nat) {
    predicate IsNull() { block == 0 }

    predicate Encodable() { block < U32_LIMIT && off < U32_LIMIT }
  }

  const NULL := Ptr(0, 0)

  datatype Span = Span(ptr: Ptr, size: nat)

  const FREE: byte := 0
  const TABLE: byte := 1
  const HEAP: byte := 2

  /** Type (1 byte), previous block (4 bytes), next block (4 bytes). */
  const BLOCK_HEADER: nat := 9

  type Block = b: seq<byte> | |b| >= BLOCK_HEADER + 2 * H.HEADER witness Zeros(BLOCK_HEADER + 2 * H.HEADER)

  function Type(b: Block): byte { b[0] }

  function Prev(b: Block): nat { Val(b[1..5]) }

  function Next(b: Block): nat { Val(b[5..9]) }

  function Payload(b: Block): (p: seq<byte>)
    ensures |p| == |b| - BLOCK_HEADER
  {
    b[BLOCK_HEADER..]
  }

  function WithPayload(b: Block, p: seq<byte>): (r: Block)
    requires |p| == |b| - BLOCK_HEADER
    ensures |r| == |b|
  {
    b[..BLOCK_HEADER] + p
  }

  lemma WithPayloadFields(b: Block, p: seq<byte>)
    requires |p| == |b| - BLOCK_HEADER
    ensures var r := WithPayload(b, p);
            Type(r) == Type(b) && Prev(r) == Prev(b) && Next(r) == Next(b) && Payload(r) == p
  {
    var r := WithPayload(b, p);
    assert r[1..5] == b[1..5];
    assert r[5..9] == b[5..9];
  }

  /** A block that was just added at the end of the file and linked behind `prev`. */
  ghost function NewBlock(t: byte, prev: nat, size: nat): (b: Block)
    requires BLOCK_HEADER + 2 * H.HEADER <= size
    ensures |b| == size
  {
    [t] + LE(prev, 4) + LE(0, 4) + (if t == HEAP then H.Fresh(size - BLOCK_HEADER) else Zeros(size - BLOCK_HEADER))
  }

  lemma NewBlockFields(t: byte, prev: nat, size: nat)
    requires BLOCK_HEADER + 2 * H.HEADER <= size && prev < U32_LIMIT
    ensures var b := NewBlock(t, prev, size);
            && Type(b) == t && Prev(b) == prev && Next(b) == 0
            && Payload(b) == if t == HEAP then H.Fresh(size - BLOCK_HEADER) else Zeros(size - BLOCK_HEADER)
  {
    hide H.Fresh, Zeros;
    var b := NewBlock(t, prev, size);
    assert b[1..5] == LE(prev, 4);
    assert b[5..9] == LE(0, 4);
    Widths();
    ValLE(prev, 4);
    ValLE(0, 4);
  }

  /** `b` with its next pointer set. */
  function Linked(b: Block, next: nat): (r: Block)
    ensures |r| == |b|
  {
    Splice(b, 5, LE(next, 4))
  }

  lemma LinkedFields(b: Block, next: nat)
    requires next < U32_LIMIT
    ensures var r := Linked(b, next);
            Type(r) == Type(b) && Prev(r) == Prev(b) && Next(r) == next && Payload(r) == Payload(b)
  {
    var r := Linked(b, next);
    Widths();
    ValLE(next, 4);
    SpliceGet(b, 5, LE(next, 4));
    SpliceFrame(b, 5, LE(next, 4), 1, 5);
    SpliceFrame(b, 5, LE(next, 4), BLOCK_HEADER, |b|);
    assert Payload(r) == r[BLOCK_HEADER..|b|] == b[BLOCK_HEADER..|b|] == Payload(b);
  }

  // ---- The file as a sequence of blocks; block indices start at 1 ----

  predicate InFile(bl: seq<Block>, b: nat) {
    1 <= b <= |bl|
  }

  function At(bl: seq<Block>, b: nat): Block
    requires InFile(bl, b)
  {
    bl[b - 1]
  }

  predicate IsType(bl: seq<Block>, b: nat, t: byte) {
    InFile(bl, b) && Type(At(bl, b)) == t
  }

  /** The first block of type `t` at index `b` or later; 0 if there is none. */
  ghost function NextFrom(bl: seq<Block>, t: byte, b: nat): nat
    requires 1 <= b
    decreases |bl| - b
  {
    if b > |bl| then 0 else if Type(At(bl, b)) == t then b else NextFrom(bl, t, b + 1)
  }

  /** The last block of type `t` at index `b` or earlier; 0 if there is none. */
  ghost function PrevFrom(bl: seq<Block>, t: byte, b: nat): (n: nat)
    requires b <= |bl|
    ensures n == 0 || IsType(bl, n, t)
  {
    if b == 0 then 0 else if Type(At(bl, b)) == t then b else PrevFrom(bl, t, b - 1)
  }

  lemma {:induction false} NextIsFirst(bl: seq<Block>, t: byte, b: nat, c: nat)
    requires 1 <= b
    ensures var n := NextFrom(bl, t, b);
            && (n == 0 || (b <= n && IsType(bl, n, t)))
            && (b <= c && (n == 0 || c < n) ==> !IsType(bl, c, t))
    decreases |bl| - b
  {
    if b <= |bl| && Type(At(bl, b)) != t {
      NextIsFirst(bl, t, b + 1, c);
    }
  }

  lemma {:induction false} PrevIsLast(bl: seq<Block>, t: byte, b: nat, c: nat)
    requires b <= |bl|
    ensures var n := PrevFrom(bl, t, b);
            && (n == 0 || (n <= b && IsType(bl, n, t)))
            && (n < c <= b ==> !IsType(bl, c, t))
  {
    if b > 0 && Type(At(bl, b)) != t {
      PrevIsLast(bl, t, b - 1, c);
    }
  }

  /** The end of a chain is the block that has no successor. */
  lemma LastHasNoNext(bl: seq<Block>, t: byte, b: nat)
    requires IsType(bl, b, t)
    ensures NextFrom(bl, t, b + 1) == 0 <==> PrevFrom(bl, t, |bl|) == b
  {
    var n, p := NextFrom(bl, t, b + 1), PrevFrom(bl, t, |bl|);
    NextIsFirst(bl, t, b + 1, p);
    PrevIsLast(bl, t, |bl|, n);
    PrevIsLast(bl, t, |bl|, b);
  }

  /** Block `b`, if it is of type `t`, is linked to its neighbours of that type in index order. */
  ghost predicate LinkedAt(bl: seq<Block>, t: byte, b: nat) {
    IsType(bl, b, t) ==> Next(At(bl, b)) == NextFrom(bl, t, b + 1) && Prev(At(bl, b)) == PrevFrom(bl, t, b - 1)
  }

  /** The blocks of type `t` are doubly linked in index order, every one of them is on the chain,
      and `last` is its end. */
  ghost predicate Chained(bl: seq<Block>, t: byte, last: nat) {
    last == PrevFrom(bl, t, |bl|) && forall b: nat :: LinkedAt(bl, t, b)
  }

  ghost predicate Tiled(bl: seq<Block>) {
    forall b: nat | IsType(bl, b, HEAP) :: H.Tiled(Payload(At(bl, b)), 0)
  }

  /** What `allocate_block` and the heap keep: only Table and Heap blocks, both chains in order,
      every heap block tiled by its chunks. */
  ghost predicate Chains(bl: seq<Block>, lastTable: nat, lastHeap: nat) {
    && (forall b: nat | InFile(bl, b) :: IsType(bl, b, TABLE) || IsType(bl, b, HEAP))
    && Chained(bl, TABLE, lastTable)
    && Chained(bl, HEAP, lastHeap)
    && Tiled(bl)
  }

  lemma ChainsEnds(bl: seq<Block>, lastTable: nat, lastHeap: nat)
    requires Chains(bl, lastTable, lastHeap)
    ensures lastTable == PrevFrom(bl, TABLE, |bl|) && lastHeap == PrevFrom(bl, HEAP, |bl|)
    ensures lastTable == 0 || IsType(bl, lastTable, TABLE)
    ensures lastHeap == 0 || IsType(bl, lastHeap, HEAP)
  {
  }

  ghost predicate Sized(bl: seq<Block>, size: nat) {
    forall i | 0 <= i < |bl| :: |bl[i]| == size
  }

  /** In bytes: the type at offset 0, the block before in the chain at 1, the next one at 5. Links are
      mutual, lead to a block of the same type and step over none; the chains end at the last blocks
      of types 1 and 2. */
  lemma ChainsInBytes(bl: seq<Block>, lastTable: nat, lastHeap: nat, b: nat, c: nat)
    requires Chains(bl, lastTable, lastHeap) && 1 <= b <= |bl| && 1 <= c <= |bl|
    ensures bl[b - 1][0] == 1 || bl[b - 1][0] == 2
    ensures var t, next, prev := bl[b - 1][0], Val(bl[b - 1][5..9]), Val(bl[b - 1][1..5]);
            && (next != 0 ==> b < next <= |bl| && bl[next - 1][0] == t && Val(bl[next - 1][1..5]) == b)
            && (prev != 0 ==> 1 <= prev < b && bl[prev - 1][0] == t && Val(bl[prev - 1][5..9]) == b)
            && (b < c && bl[c - 1][0] == t ==> next != 0 && next <= c)
            && (next == 0 <==> b == if t == 1 then lastTable else lastHeap)
  {
    hide Val, H.Tiled, Payload, Chained, PrevFrom, NextFrom;
    assert IsType(bl, b, TABLE) || IsType(bl, b, HEAP);
    var t := bl[b - 1][0];
    ChainedInBytes(bl, t, if t == 1 then lastTable else lastHeap, b, c);
  }

  lemma ChainedInBytes(bl: seq<Block>, t: byte, last: nat, b: nat, c: nat)
    requires Chained(bl, t, last) && IsType(bl, b, t)
    ensures var next, prev := Next(At(bl, b)), Prev(At(bl, b));
            && (next != 0 ==> b < next && IsType(bl, next, t) && Prev(At(bl, next)) == b)
            && (prev != 0 ==> prev < b && IsType(bl, prev, t) && Next(At(bl, prev)) == b)
            && (b < c && IsType(bl, c, t) ==> next != 0 && next <= c)
            && (next == 0 <==> b == last)
  {
    hide Next, Prev, Type, PrevFrom, NextFrom;
    assert LinkedAt(bl, t, b);
    var n, p := NextFrom(bl, t, b + 1), PrevFrom(bl, t, b - 1);
    NextIsFirst(bl, t, b + 1, c);
    PrevIsLast(bl, t, b - 1, c);
    LastHasNoNext(bl, t, b);
    if n != 0 {
      assert LinkedAt(bl, t, n);
      PrevIsLast(bl, t, n - 1, b);
      NextIsFirst(bl, t, b + 1, PrevFrom(bl, t, n - 1));
    }
    if p != 0 {
      assert LinkedAt(bl, t, p);
      NextIsFirst(bl, t, p + 1, b);
      PrevIsLast(bl, t, b - 1, NextFrom(bl, t, p + 1));
    }
  }

  // ---- allocate_block ----

  /** The file after a block of type `t` was appended and linked behind `last`. */
  ghost function Appended(bl: seq<Block>, t: byte, last: nat, size: nat): (r: seq<Block>)
    requires BLOCK_HEADER + 2 * H.HEADER <= size
    requires last == 0 || InFile(bl, last)
    ensures |r| == |bl| + 1
  {
    (if last == 0 then bl else bl[last - 1 := Linked(At(bl, last), |bl| + 1)]) + [NewBlock(t, last, size)]
  }

  /** All an appended block changes in the old part of the file is the next pointer of `last`. */
  lemma AppendedOld(bl: seq<Block>, t: byte, last: nat, size: nat, b: nat)
    requires BLOCK_HEADER + 2 * H.HEADER <= size < U32_LIMIT && |bl| + 1 < U32_LIMIT
    requires last == 0 || InFile(bl, last)
    requires InFile(bl, b)
    ensures var r := Appended(bl, t, last, size);
            && Type(At(r, b)) == Type(At(bl, b)) && Prev(At(r, b)) == Prev(At(bl, b))
            && Payload(At(r, b)) == Payload(At(bl, b))
            && Next(At(r, b)) == (if b == last then |bl| + 1 else Next(At(bl, b)))
            && (b != last ==> At(r, b) == At(bl, b))
  {
    hide Type, Prev, Next, Payload, NewBlock, Linked;
    if b == last {
      LinkedFields(At(bl, b), |bl| + 1);
    }
  }

  lemma AppendedNew(bl: seq<Block>, t: byte, last: nat, size: nat)
    requires BLOCK_HEADER + 2 * H.HEADER <= size < U32_LIMIT && |bl| + 1 < U32_LIMIT
    requires last == 0 || InFile(bl, last)
    ensures var r := Appended(bl, t, last, size);
            var n := At(r, |bl| + 1);
            && Type(n) == t && Prev(n) == last && Next(n) == 0
            && (t == HEAP ==> Payload(n) == H.Fresh(size - BLOCK_HEADER))
            && (t != HEAP ==> Payload(n) == Zeros(size - BLOCK_HEADER))
  {
    hide Type, Prev, Next, Payload, NewBlock, Linked;
    NewBlockFields(t, last, size);
  }

  /** In bytes: the new block comes behind all others and begins with its type, the block before it in
      the chain, and no next one; the block before it points to it; no other byte changes. */
  lemma AppendedBytes(bl: seq<Block>, t: byte, last: nat, size: nat, i: nat)
    requires 25 <= size < U32_LIMIT && |bl| + 1 < U32_LIMIT && last <= |bl| && i < |bl|
    ensures var r := Appended(bl, t, last, size);
            && |r| == |bl| + 1 && |r[|bl|]| == size
            && r[|bl|][0] == t && Val(r[|bl|][1..5]) == last && Val(r[|bl|][5..9]) == 0
            && if i + 1 != last then r[i] == bl[i]
               else r[i][..5] == bl[i][..5] && r[i][9..] == bl[i][9..] && Val(r[i][5..9]) == |bl| + 1
  {
    hide Val, NewBlock;
    AppendedNew(bl, t, last, size);
    if i + 1 == last {
      LinkedFields(bl[i], |bl| + 1);
    }
  }

  lemma {:induction false} AppendedNext(bl: seq<Block>, t: byte, last: nat, size: nat, u: byte, b: nat)
    requires BLOCK_HEADER + 2 * H.HEADER <= size < U32_LIMIT && |bl| + 1 < U32_LIMIT
    requires last == 0 || InFile(bl, last)
    requires 1 <= b <= |bl| + 1
    ensures NextFrom(Appended(bl, t, last, size), u, b) ==
            if NextFrom(bl, u, b) != 0 then NextFrom(bl, u, b) else if t == u then |bl| + 1 else 0
    decreases |bl| - b
  {
    hide Type, Prev, Next, Payload, Appended;
    if b <= |bl| {
      AppendedOld(bl, t, last, size, b);
      AppendedNext(bl, t, last, size, u, b + 1);
    } else {
      AppendedNew(bl, t, last, size);
      assert NextFrom(Appended(bl, t, last, size), u, b + 1) == 0;
    }
  }

  lemma {:induction false} AppendedPrev(bl: seq<Block>, t: byte, last: nat, size: nat, u: byte, b: nat)
    requires BLOCK_HEADER + 2 * H.HEADER <= size < U32_LIMIT && |bl| + 1 < U32_LIMIT
    requires last == 0 || InFile(bl, last)
    requires b <= |bl|
    ensures PrevFrom(Appended(bl, t, last, size), u, b) == PrevFrom(bl, u, b)
  {
    hide Type, Prev, Next, Payload, Appended;
    if b > 0 {
      AppendedOld(bl, t, last, size, b);
      AppendedPrev(bl, t, last, size, u, b - 1);
    }
  }

  lemma AppendedChain(bl: seq<Block>, t: byte, last: nat, size: nat, u: byte, lastU: nat)
    requires BLOCK_HEADER + 2 * H.HEADER <= size < U32_LIMIT && |bl| + 1 < U32_LIMIT
    requires last == PrevFrom(bl, t, |bl|)
    requires Chained(bl, u, lastU)
    ensures Chained(Appended(bl, t, last, size), u, if t == u then |bl| + 1 else lastU)
  {
    hide PrevFrom, LinkedAt, Appended;
    var r := Appended(bl, t, last, size);
    AppendedEnd(bl, t, last, size, u);
    forall b: nat ensures LinkedAt(r, u, b) {
      AppendedLinks(bl, t, last, size, u, lastU, b);
    }
  }

  lemma AppendedEnd(bl: seq<Block>, t: byte, last: nat, size: nat, u: byte)
    requires BLOCK_HEADER + 2 * H.HEADER <= size < U32_LIMIT && |bl| + 1 < U32_LIMIT
    requires last == 0 || InFile(bl, last)
    ensures PrevFrom(Appended(bl, t, last, size), u, |bl| + 1)
            == if t == u then |bl| + 1 else PrevFrom(bl, u, |bl|)
  {
    hide Type, Prev, Next, Payload, Appended;
    AppendedNew(bl, t, last, size);
    AppendedPrev(bl, t, last, size, u, |bl|);
  }

  lemma AppendedLinks(bl: seq<Block>, t: byte, last: nat, size: nat, u: byte, lastU: nat, b: nat)
    requires BLOCK_HEADER + 2 * H.HEADER <= size < U32_LIMIT && |bl| + 1 < U32_LIMIT
    requires last == PrevFrom(bl, t, |bl|)
    requires Chained(bl, u, lastU)
    ensures LinkedAt(Appended(bl, t, last, size), u, b)
  {
    hide Type, Prev, Next, Payload, Appended;
    var r := Appended(bl, t, last, size);
    if InFile(r, b) {
      AppendedPrev(bl, t, last, size, u, b - 1);
    }
    if InFile(bl, b) {
      assert LinkedAt(bl, u, b);
      AppendedOld(bl, t, last, size, b);
      if IsType(bl, b, u) {
        LastHasNoNext(bl, u, b);
        AppendedNext(bl, t, last, size, u, b + 1);
      }
    } else if InFile(r, b) {
      AppendedNew(bl, t, last, size);
      assert NextFrom(r, u, b + 1) == 0;
    }
  }

  /** Appending a Table or a Heap block keeps both chains and the tiling. */
  lemma AppendedChains(bl: seq<Block>, t: byte, size: nat, lastTable: nat, lastHeap: nat)
    requires BLOCK_HEADER + 2 * H.HEADER <= size < U32_LIMIT && |bl| + 1 < U32_LIMIT
    requires t == TABLE || t == HEAP
    requires Chains(bl, lastTable, lastHeap)
    ensures var r := Appended(bl, t, if t == TABLE then lastTable else lastHeap, size);
            Chains(r, if t == TABLE then |bl| + 1 else lastTable, if t == HEAP then |bl| + 1 else lastHeap)
  {
    hide Type, Prev, Next, Payload, Appended, H.Fresh;
    var last := if t == TABLE then lastTable else lastHeap;
    var r := Appended(bl, t, last, size);
    AppendedChain(bl, t, last, size, TABLE, lastTable);
    AppendedChain(bl, t, last, size, HEAP, lastHeap);
    AppendedNew(bl, t, last, size);
    H.FreshEffect(size - BLOCK_HEADER, 0);
    forall b: nat | InFile(r, b)
      ensures IsType(r, b, TABLE) || IsType(r, b, HEAP)
      ensures IsType(r, b, HEAP) ==> H.Tiled(Payload(At(r, b)), 0)
    {
      if b <= |bl| {
        assert InFile(bl, b);
        AppendedOld(bl, t, last, size, b);
      }
    }
  }

  // ---- Spans in use ----

  /** `sp` is exactly the payload of a used chunk of a heap block. */
  ghost predicate InUse(bl: seq<Block>, sp: Span) {
    && IsType(bl, sp.ptr.block, HEAP)
    && BLOCK_HEADER <= sp.ptr.off
    && var p := Payload(At(bl, sp.ptr.block));
       H.Tiled(p, 0) && H.Used(p, sp.ptr.off - BLOCK_HEADER, sp.size)
  }

  /** The bytes a span denotes; empty if it does not lie in the file. */
  function Content(bl: seq<Block>, sp: Span): seq<byte> {
    if InFile(bl, sp.ptr.block) && sp.ptr.off + sp.size <= |At(bl, sp.ptr.block)|
    then At(bl, sp.ptr.block)[sp.ptr.off..sp.ptr.off + sp.size]
    else []
  }

  lemma InUseRange(bl: seq<Block>, sp: Span)
    requires InUse(bl, sp)
    ensures var b := At(bl, sp.ptr.block);
            && BLOCK_HEADER + H.HEADER <= sp.ptr.off && sp.ptr.off + sp.size + H.HEADER <= |b|
            && Content(bl, sp) == Payload(b)[sp.ptr.off - BLOCK_HEADER..sp.ptr.off - BLOCK_HEADER + sp.size]
  {
    var b := At(bl, sp.ptr.block);
    H.ChunkRange(Payload(b), 0, H.USED, sp.ptr.off - BLOCK_HEADER, sp.size);
    H.SliceOfSuffix(b, BLOCK_HEADER, sp.ptr.off, sp.ptr.off + sp.size);
  }

  /** The spans have a byte position in common. */
  predicate Overlap(a: Span, b: Span) {
    a.ptr.block == b.ptr.block && a.ptr.off < b.ptr.off + b.size && b.ptr.off < a.ptr.off + a.size
  }

  /** A span in use is determined by its pointer, and by every byte position in it. */
  lemma InUseUnique(bl: seq<Block>, a: Span, b: Span)
    requires InUse(bl, a) && InUse(bl, b) && (a.ptr == b.ptr || Overlap(a, b))
    ensures a == b
  {
    var p := Payload(At(bl, a.ptr.block));
    H.ChunksDisjoint(p, 0, H.USED, a.ptr.off - BLOCK_HEADER, a.size, H.USED, b.ptr.off - BLOCK_HEADER, b.size);
  }

  /** In bytes: in front of a span in use, in a block of type 2, are the signature and the size. */
  lemma InUseBytes(bl: seq<Block>, sp: Span)
    requires InUse(bl, sp)
    ensures 1 <= sp.ptr.block <= |bl| && bl[sp.ptr.block - 1][0] == 2
    ensures var b, o := bl[sp.ptr.block - 1], sp.ptr.off;
            && 17 <= o && o + sp.size + 8 <= |b|
            && Val(b[o - 8..o - 4]) == 0x2137D05A && Val(b[o - 4..o]) == sp.size
  {
    hide Val;
    InUseRange(bl, sp);
    var b, o := bl[sp.ptr.block - 1], sp.ptr.off;
    var p := b[BLOCK_HEADER..];
    H.ChunkRange(p, 0, H.USED, o - BLOCK_HEADER, sp.size);
    H.SliceOfSuffix(b, BLOCK_HEADER, o - 8, o - 4);
    H.SliceOfSuffix(b, BLOCK_HEADER, o - 4, o);
  }

  /** The span was freed, and at its place no chunk of its size can come into use any more. */
  ghost predicate Gone(bl: seq<Block>, sp: Span) {
    && IsType(bl, sp.ptr.block, HEAP)
    && BLOCK_HEADER <= sp.ptr.off
    && var p := Payload(At(bl, sp.ptr.block));
       H.Tiled(p, 0) && H.Outgrown(p, sp.ptr.off - BLOCK_HEADER, sp.size)
  }

  lemma GoneNotInUse(bl: seq<Block>, sp: Span)
    requires Gone(bl, sp)
    ensures !InUse(bl, sp)
  {
    hide H.Chunk, Type, Payload;
    var p, o := Payload(At(bl, sp.ptr.block)), sp.ptr.off - BLOCK_HEADER;
    var sig: nat, t: nat :| H.Chunk(p, 0, sig, o, t) && t <= sp.size && (sig == H.USED ==> t < sp.size);
    if InUse(bl, sp) {
      H.ChunksDisjoint(p, 0, sig, o, t, H.USED, o, sp.size);
    }
  }

  /** From `bl` to `bl'` exactly the spans counted in `n` came into use, once each, and every span
      that was in use still is, with the same content. None that is gone came back. */
  ghost predicate Grown(bl: seq<Block>, bl': seq<Block>, n: multiset<Span>) {
    forall sp: Span {:trigger n[sp]} {:trigger InUse(bl', sp)} ::
      && (InUse(bl, sp) ==> InUse(bl', sp) && Content(bl', sp) == Content(bl, sp))
      && n[sp] == (if InUse(bl', sp) && !InUse(bl, sp) then 1 else 0)
      && (Gone(bl, sp) ==> Gone(bl', sp))
  }

  /** From `bl` to `bl'` exactly the spans counted in `n` went out of use, and are gone; the content
      of those still in use is the same. */
  ghost predicate Shrunk(bl: seq<Block>, bl': seq<Block>, n: multiset<Span>) {
    forall sp: Span {:trigger n[sp]} {:trigger InUse(bl', sp)} ::
      && (InUse(bl', sp) ==> InUse(bl, sp) && Content(bl', sp) == Content(bl, sp))
      && n[sp] == (if InUse(bl, sp) && !InUse(bl', sp) then 1 else 0)
      && (n[sp] > 0 || Gone(bl, sp) ==> Gone(bl', sp))
  }

  /** `m` counts every span in use once and nothing else: no chunk is leaked, none is referenced
      twice, none is referenced after it was freed. */
  ghost predicate Exact(bl: seq<Block>, m: multiset<Span>) {
    forall sp: Span {:trigger m[sp]} {:trigger InUse(bl, sp)} :: m[sp] == if InUse(bl, sp) then 1 else 0
  }

  lemma GrownRefl(bl: seq<Block>)
    ensures Grown(bl, bl, multiset{}) && HeapOnly(bl, bl)
  {
  }

  lemma GrownTrans(a: seq<Block>, b: seq<Block>, c: seq<Block>, m: multiset<Span>, n: multiset<Span>)
    requires Grown(a, b, m) && Grown(b, c, n)
    ensures Grown(a, c, m + n)
  {
    hide InUse, Content, Gone;
    forall sp: Span
      ensures InUse(a, sp) ==> InUse(c, sp) && Content(c, sp) == Content(a, sp)
      ensures (m + n)[sp] == if InUse(c, sp) && !InUse(a, sp) then 1 else 0
      ensures Gone(a, sp) ==> Gone(c, sp)
    {
      assert m[sp] <= 1 && n[sp] <= 1;
    }
  }

  lemma GrownAfterNothing(a: seq<Block>, b: seq<Block>, c: seq<Block>, n: multiset<Span>)
    requires Grown(a, b, multiset{}) && Grown(b, c, n)
    ensures Grown(a, c, n)
  {
    GrownTrans(a, b, c, multiset{}, n);
    assert multiset{} + n == n;
  }

  lemma GrownThenNothing(a: seq<Block>, b: seq<Block>, c: seq<Block>, n: multiset<Span>)
    requires Grown(a, b, n) && Grown(b, c, multiset{})
    ensures Grown(a, c, n)
  {
    GrownTrans(a, b, c, n, multiset{});
    assert n + multiset{} == n;
  }

  lemma ShrunkRefl(bl: seq<Block>)
    ensures Shrunk(bl, bl, multiset{}) && HeapOnly(bl, bl)
  {
  }

  lemma ShrunkByNothing(a: seq<Block>, b: seq<Block>)
    requires Shrunk(a, b, multiset{})
    ensures Grown(a, b, multiset{})
  {
    hide InUse, Content, Gone;
    forall sp: Span
      ensures InUse(a, sp) <==> InUse(b, sp)
      ensures InUse(a, sp) ==> Content(b, sp) == Content(a, sp)
      ensures Gone(a, sp) ==> Gone(b, sp)
    {
      assert multiset{}[sp] == 0;
    }
  }

  /** What went out of use does not come back into use. */
  lemma ShrunkForGood(a: seq<Block>, b: seq<Block>, c: seq<Block>, m: multiset<Span>, n: multiset<Span>, sp: Span)
    requires Shrunk(a, b, m) && Grown(b, c, n) && sp in m
    ensures !InUse(c, sp)
  {
    hide InUse, Content, Gone;
    assert m[sp] > 0;
    assert n[sp] >= 0;
    GoneNotInUse(c, sp);
  }

  lemma ShrunkTrans(a: seq<Block>, b: seq<Block>, c: seq<Block>, m: multiset<Span>, n: multiset<Span>)
    requires Shrunk(a, b, m) && Shrunk(b, c, n)
    ensures Shrunk(a, c, m + n)
  {
    hide InUse, Content, Gone;
    forall sp: Span
      ensures InUse(c, sp) ==> InUse(a, sp) && Content(c, sp) == Content(a, sp)
      ensures (m + n)[sp] == if InUse(a, sp) && !InUse(c, sp) then 1 else 0
      ensures (m + n)[sp] > 0 || Gone(a, sp) ==> Gone(c, sp)
    {
      assert m[sp] <= 1 && n[sp] <= 1;
    }
  }

  lemma ExactGrown(bl: seq<Block>, bl': seq<Block>, m: multiset<Span>, n: multiset<Span>)
    requires Exact(bl, m) && Grown(bl, bl', n)
    ensures Exact(bl', m + n)
  {
  }

  lemma ExactShrunk(bl: seq<Block>, bl': seq<Block>, m: multiset<Span>, n: multiset<Span>)
    requires Exact(bl, m) && Shrunk(bl, bl', n)
    ensures Exact(bl', m - n)
  {
  }

  /** Between `bl` and `bl'` only Heap blocks changed, and blocks added are Heap blocks. */
  ghost predicate HeapOnly(bl: seq<Block>, bl': seq<Block>) {
    && |bl| <= |bl'|
    && (forall b: nat {:trigger InFile(bl, b)} | InFile(bl, b) ::
          Type(At(bl', b)) == Type(At(bl, b)) && (Type(At(bl, b)) != HEAP ==> At(bl', b) == At(bl, b)))
    && (forall b: nat {:trigger InFile(bl', b)} | InFile(bl', b) && !InFile(bl, b) :: IsType(bl', b, HEAP))
  }

  lemma HeapOnlyTrans(a: seq<Block>, b: seq<Block>, c: seq<Block>)
    requires HeapOnly(a, b) && HeapOnly(b, c)
    ensures HeapOnly(a, c)
  {
    hide Type;
    forall i: nat | InFile(a, i)
      ensures Type(At(c, i)) == Type(At(a, i)) && (Type(At(a, i)) != HEAP ==> At(c, i) == At(a, i))
    {
      assert InFile(b, i);
    }
    forall i: nat | InFile(c, i) && !InFile(a, i) ensures IsType(c, i, HEAP) {
      if InFile(b, i) {
      }
    }
  }

  lemma HeapOnlyTypes(a: seq<Block>, b: seq<Block>)
    requires HeapOnly(a, b)
    ensures forall i: nat, t: byte | IsType(a, i, t) :: IsType(b, i, t)
    ensures |a| <= |b|
  {
    hide Type;
  }

  /** Replacing the payload of one block leaves types and links alone. */
  lemma PayloadChains(bl: seq<Block>, b: nat, p: seq<byte>, lastTable: nat, lastHeap: nat)
    requires Chains(bl, lastTable, lastHeap)
    requires IsType(bl, b, HEAP) && |p| == |At(bl, b)| - BLOCK_HEADER && H.Tiled(p, 0)
    ensures var bl' := bl[b - 1 := WithPayload(At(bl, b), p)];
            Chains(bl', lastTable, lastHeap) && HeapOnly(bl, bl')
  {
    hide Type, Next, Prev, Payload, WithPayload, Chained;
    var bl' := bl[b - 1 := WithPayload(At(bl, b), p)];
    WithPayloadFields(At(bl, b), p);
    LinksFrame(bl, bl', TABLE, lastTable);
    LinksFrame(bl, bl', HEAP, lastHeap);
  }

  lemma {:induction false} StepsFrame(bl: seq<Block>, bl': seq<Block>, t: byte, b: nat)
    requires |bl| == |bl'|
    requires forall c: nat | InFile(bl, c) :: Type(At(bl, c)) == Type(At(bl', c))
    ensures b <= |bl| ==> PrevFrom(bl, t, b) == PrevFrom(bl', t, b)
    ensures 1 <= b ==> NextFrom(bl, t, b) == NextFrom(bl', t, b)
  {
    hide Type;
    NextFrame(bl, bl', t, b);
    if 0 < b <= |bl| {
      assert InFile(bl, b);
      StepsFrame(bl, bl', t, b - 1);
    }
  }

  lemma {:induction false} NextFrame(bl: seq<Block>, bl': seq<Block>, t: byte, b: nat)
    requires |bl| == |bl'|
    requires forall c: nat | InFile(bl, c) :: Type(At(bl, c)) == Type(At(bl', c))
    ensures 1 <= b ==> NextFrom(bl, t, b) == NextFrom(bl', t, b)
    decreases |bl| - b
  {
    hide Type;
    if 1 <= b <= |bl| {
      assert InFile(bl, b);
      NextFrame(bl, bl', t, b + 1);
    }
  }

  /** A chain depends on the types and links of the blocks only. */
  lemma LinksFrame(bl: seq<Block>, bl': seq<Block>, t: byte, last: nat)
    requires |bl| == |bl'| && Chained(bl, t, last)
    requires forall b: nat | InFile(bl, b) ::
               && Type(At(bl, b)) == Type(At(bl', b))
               && Next(At(bl, b)) == Next(At(bl', b)) && Prev(At(bl, b)) == Prev(At(bl', b))
    ensures Chained(bl', t, last)
  {
    hide Type, Next, Prev;
    StepsFrame(bl, bl', t, |bl|);
    forall b: nat ensures LinkedAt(bl', t, b) {
      if IsType(bl', b, t) {
        assert InFile(bl, b) && LinkedAt(bl, t, b);
        StepsFrame(bl, bl', t, b + 1);
        StepsFrame(bl, bl', t, b - 1);
      }
    }
  }

  // ---- What one heap operation does to the spans in use ----

  /** Content of a span in use of another block, or of a block whose payload keeps those bytes. */
  lemma PayloadContent(bl: seq<Block>, b: nat, p: seq<byte>, sp: Span)
    requires IsType(bl, b, HEAP) && |p| == |At(bl, b)| - BLOCK_HEADER
    requires InUse(bl, sp)
    ensures var bl' := bl[b - 1 := WithPayload(At(bl, b), p)];
            var o := sp.ptr.off - BLOCK_HEADER;
            && o + sp.size <= |Payload(At(bl, sp.ptr.block))|
            && (b != sp.ptr.block ==> InUse(bl', sp) && Content(bl', sp) == Content(bl, sp))
            && (b == sp.ptr.block && p[o..o + sp.size] == Payload(At(bl, b))[o..o + sp.size] ==>
                  Content(bl', sp) == Content(bl, sp))
  {
    InUseRange(bl, sp);
    var blk := At(bl, b);
    WithPayloadFields(blk, p);
    if b == sp.ptr.block {
      H.SliceOfSuffix(WithPayload(blk, p), BLOCK_HEADER, sp.ptr.off, sp.ptr.off + sp.size);
    }
  }

  /** Allocating in block `b` brings exactly the new span into use. */
  lemma AllocGrows(bl: seq<Block>, b: nat, size: nat)
    requires IsType(bl, b, HEAP) && |At(bl, b)| < U32_LIMIT
    requires H.Tiled(Payload(At(bl, b)), 0) && 0 <= H.FirstFit(Payload(At(bl, b)), 0, size)
    ensures var p, h := Payload(At(bl, b)), H.FirstFit(Payload(At(bl, b)), 0, size);
            var bl' := bl[b - 1 := WithPayload(At(bl, b), H.Carve(p, h, size))];
            Grown(bl, bl', multiset{Span(Ptr(b, h + H.HEADER + BLOCK_HEADER), size)})
  {
    hide H.Carve, Payload, WithPayload, Type, Gone, InUse, Content;
    var p, h := Payload(At(bl, b)), H.FirstFit(Payload(At(bl, b)), 0, size);
    var bl' := bl[b - 1 := WithPayload(At(bl, b), H.Carve(p, h, size))];
    var new_ := Span(Ptr(b, h + H.HEADER + BLOCK_HEADER), size);
    forall sp: Span
      ensures InUse(bl, sp) ==> InUse(bl', sp) && Content(bl', sp) == Content(bl, sp)
      ensures multiset{new_}[sp] == if InUse(bl', sp) && !InUse(bl, sp) then 1 else 0
      ensures Gone(bl, sp) ==> Gone(bl', sp)
    {
      AllocSpan(bl, b, size, sp);
      AllocGone(bl, b, size, sp);
    }
  }

  lemma AllocSpan(bl: seq<Block>, b: nat, size: nat, sp: Span)
    requires IsType(bl, b, HEAP) && |At(bl, b)| < U32_LIMIT
    requires H.Tiled(Payload(At(bl, b)), 0) && 0 <= H.FirstFit(Payload(At(bl, b)), 0, size)
    ensures var p, h := Payload(At(bl, b)), H.FirstFit(Payload(At(bl, b)), 0, size);
            var bl' := bl[b - 1 := WithPayload(At(bl, b), H.Carve(p, h, size))];
            var new_ := Span(Ptr(b, h + H.HEADER + BLOCK_HEADER), size);
            && (InUse(bl, sp) ==> sp != new_ && Content(bl', sp) == Content(bl, sp))
            && (InUse(bl', sp) <==> InUse(bl, sp) || sp == new_)
  {
    hide H.Carve, Payload, WithPayload, H.Sig, H.Size;
    var blk := At(bl, b);
    var p, h := Payload(blk), H.FirstFit(Payload(blk), 0, size);
    var r := H.Carve(p, h, size);
    H.CarveEffect(p, size, H.USED, if BLOCK_HEADER <= sp.ptr.off then sp.ptr.off - BLOCK_HEADER else 0, sp.size);
    WithPayloadFields(blk, r);
    if InUse(bl, sp) {
      if sp.ptr.block == b {
        H.CarvePayloads(p, size, sp.ptr.off - BLOCK_HEADER, sp.size);
      }
      PayloadContent(bl, b, r, sp);
    }
  }

  lemma AllocGone(bl: seq<Block>, b: nat, size: nat, sp: Span)
    requires IsType(bl, b, HEAP) && |At(bl, b)| < U32_LIMIT
    requires H.Tiled(Payload(At(bl, b)), 0) && 0 <= H.FirstFit(Payload(At(bl, b)), 0, size)
    ensures var p := Payload(At(bl, b));
            var bl' := bl[b - 1 := WithPayload(At(bl, b), H.Carve(p, H.FirstFit(p, 0, size), size))];
            Gone(bl, sp) ==> Gone(bl', sp)
  {
    hide H.Carve, Payload, WithPayload, Type, H.FirstFit, H.Chunk, H.Tiled, H.Outgrown;
    var p := Payload(At(bl, b));
    WithPayloadFields(At(bl, b), H.Carve(p, H.FirstFit(p, 0, size), size));
    if Gone(bl, sp) && sp.ptr.block == b {
      H.CarveOutgrown(p, size, sp.ptr.off - BLOCK_HEADER, sp.size);
    }
  }

  /** Freeing a span in use takes exactly that span out of use. */
  lemma FreeShrinks(bl: seq<Block>, sp: Span)
    requires InUse(bl, sp) && |At(bl, sp.ptr.block)| < U32_LIMIT
    ensures var b := At(bl, sp.ptr.block);
            && H.HEADER <= sp.ptr.off - BLOCK_HEADER <= |Payload(b)|
            && var p := H.MarkFreed(Payload(b), sp.ptr.off - BLOCK_HEADER);
               H.Tiled(p, 0) && Shrunk(bl, bl[sp.ptr.block - 1 := WithPayload(b, p)], multiset{sp})
  {
    hide H.MarkFreed, Payload, WithPayload, Type, Gone;
    InUseRange(bl, sp);
    var b := At(bl, sp.ptr.block);
    H.FreeEffect(Payload(b), sp.ptr.off - BLOCK_HEADER, sp.size);
    var p := H.MarkFreed(Payload(b), sp.ptr.off - BLOCK_HEADER);
    var bl' := bl[sp.ptr.block - 1 := WithPayload(b, p)];
    forall x: Span
      ensures InUse(bl', x) ==> InUse(bl, x) && Content(bl', x) == Content(bl, x)
      ensures multiset{sp}[x] == if InUse(bl, x) && !InUse(bl', x) then 1 else 0
      ensures x == sp || Gone(bl, x) ==> Gone(bl', x)
    {
      FreeSpan(bl, sp, x);
      FreeGone(bl, sp, x);
    }
  }

  lemma FreeSpan(bl: seq<Block>, sp: Span, x: Span)
    requires InUse(bl, sp) && |At(bl, sp.ptr.block)| < U32_LIMIT
    ensures var b := At(bl, sp.ptr.block);
            && H.HEADER <= sp.ptr.off - BLOCK_HEADER <= |Payload(b)|
            && var p := H.MarkFreed(Payload(b), sp.ptr.off - BLOCK_HEADER);
               var bl' := bl[sp.ptr.block - 1 := WithPayload(b, p)];
               && (InUse(bl', x) <==> InUse(bl, x) && x != sp)
               && (InUse(bl', x) ==> Content(bl', x) == Content(bl, x))
  {
    hide H.MarkFreed, Payload, WithPayload, H.Sig, H.Size;
    InUseRange(bl, sp);
    var b := At(bl, sp.ptr.block);
    var o := sp.ptr.off - BLOCK_HEADER;
    H.FreeEffect(Payload(b), o, sp.size);
    var p := H.MarkFreed(Payload(b), o);
    WithPayloadFields(b, p);
    if InUse(bl, x) {
      if x.ptr == sp.ptr {
        InUseUnique(bl, x, sp);
      } else if x.ptr.block == sp.ptr.block {
        H.FreePayloads(Payload(b), o, sp.size, x.ptr.off - BLOCK_HEADER, x.size);
      }
      PayloadContent(bl, sp.ptr.block, p, x);
    }
  }

  lemma FreeGone(bl: seq<Block>, sp: Span, x: Span)
    requires InUse(bl, sp) && |At(bl, sp.ptr.block)| < U32_LIMIT
    ensures var b := At(bl, sp.ptr.block);
            && H.HEADER <= sp.ptr.off - BLOCK_HEADER <= |Payload(b)|
            && var p := H.MarkFreed(Payload(b), sp.ptr.off - BLOCK_HEADER);
               x == sp || Gone(bl, x) ==> Gone(bl[sp.ptr.block - 1 := WithPayload(b, p)], x)
  {
    hide H.MarkFreed, Payload, WithPayload, H.Chunk, H.Tiled;
    InUseRange(bl, sp);
    var b := At(bl, sp.ptr.block);
    var o := sp.ptr.off - BLOCK_HEADER;
    H.FreeEffect(Payload(b), o, sp.size);
    var r := H.MarkFreed(Payload(b), o);
    WithPayloadFields(b, r);
    if x == sp {
      assert H.Chunk(r, 0, H.FREED, o, sp.size);
    } else if Gone(bl, x) && x.ptr.block == sp.ptr.block {
      var q := x.ptr.off - BLOCK_HEADER;
      var sig: nat, t: nat :| H.Chunk(Payload(b), 0, sig, q, t) && t <= x.size && (sig == H.USED ==> t < x.size);
      if q == o {
        H.ChunksDisjoint(Payload(b), 0, sig, q, t, H.USED, o, sp.size);
        assert H.Chunk(r, 0, H.FREED, q, t);
      } else {
        assert H.Chunk(r, 0, sig, q, t);
      }
    }
  }

  /** `bl` with bytes overwritten from `p` on. */
  function Written(bl: seq<Block>, p: Ptr, bs: seq<byte>): (r: seq<Block>)
    requires InFile(bl, p.block) && p.off + |bs| <= |At(bl, p.block)|
    ensures |r| == |bl|
  {
    bl[p.block - 1 := Splice(At(bl, p.block), p.off, bs)]
  }

  lemma WrittenPayload(b: Block, off: nat, bs: seq<byte>)
    requires BLOCK_HEADER <= off && off + |bs| <= |b|
    ensures Splice(b, off, bs) == WithPayload(b, Splice(Payload(b), off - BLOCK_HEADER, bs))
  {
  }

  /** Filling a span in use changes its own content and nothing else. */
  lemma FillSpan(bl: seq<Block>, sp: Span, bs: seq<byte>, x: Span)
    requires InUse(bl, sp) && |bs| == sp.size
    ensures InFile(bl, sp.ptr.block) && sp.ptr.off + |bs| <= |At(bl, sp.ptr.block)|
    ensures var bl' := Written(bl, sp.ptr, bs);
            && (InUse(bl', x) <==> InUse(bl, x))
            && (x != sp && InUse(bl, x) ==> Content(bl', x) == Content(bl, x))
            && Content(bl', sp) == bs
  {
    hide Payload, WithPayload, H.Sig, H.Size, Splice;
    InUseRange(bl, sp);
    var b := At(bl, sp.ptr.block);
    var o := sp.ptr.off - BLOCK_HEADER;
    H.WriteEffect(Payload(b), o, sp.size, bs);
    WrittenPayload(b, sp.ptr.off, bs);
    var p := Splice(Payload(b), o, bs);
    WithPayloadFields(b, p);
    SpliceGet(b, sp.ptr.off, bs);
    if InUse(bl, x) && x != sp {
      if x.ptr == sp.ptr {
        InUseUnique(bl, x, sp);
      } else if x.ptr.block == sp.ptr.block {
        H.WritePayloads(Payload(b), o, sp.size, bs, x.ptr.off - BLOCK_HEADER, x.size);
      }
      PayloadContent(bl, sp.ptr.block, p, x);
    }
  }

  /** A span that just came into use may be filled: it stays the only new one. */
  lemma FillGrows(bl: seq<Block>, bl1: seq<Block>, sp: Span, bs: seq<byte>)
    requires Grown(bl, bl1, multiset{sp}) && |bs| == sp.size
    ensures InUse(bl1, sp) && sp.ptr.off + |bs| <= |At(bl1, sp.ptr.block)|
    ensures var bl' := Written(bl1, sp.ptr, bs); Grown(bl, bl', multiset{sp}) && Content(bl', sp) == bs
  {
    hide InUse, Content, Written, At, Gone;
    assert multiset{sp}[sp] == 1;
    FillSpan(bl1, sp, bs, sp);
    var bl' := Written(bl1, sp.ptr, bs);
    forall x: Span
      ensures InUse(bl, x) ==> InUse(bl', x) && Content(bl', x) == Content(bl, x)
      ensures multiset{sp}[x] == if InUse(bl', x) && !InUse(bl, x) then 1 else 0
      ensures Gone(bl, x) ==> Gone(bl', x)
    {
      assert multiset{sp}[x] == if InUse(bl1, x) && !InUse(bl, x) then 1 else 0;
      FillSpan(bl1, sp, bs, x);
      FillGone(bl1, sp, bs, x);
    }
  }

  lemma FillGone(bl: seq<Block>, sp: Span, bs: seq<byte>, x: Span)
    requires InUse(bl, sp) && |bs| == sp.size
    ensures InFile(bl, sp.ptr.block) && sp.ptr.off + |bs| <= |At(bl, sp.ptr.block)|
    ensures Gone(bl, x) ==> Gone(Written(bl, sp.ptr, bs), x)
  {
    hide Payload, WithPayload, H.Chunk, H.Tiled, Splice;
    InUseRange(bl, sp);
    var b := At(bl, sp.ptr.block);
    var o := sp.ptr.off - BLOCK_HEADER;
    H.WriteEffect(Payload(b), o, sp.size, bs);
    WrittenPayload(b, sp.ptr.off, bs);
    WithPayloadFields(b, Splice(Payload(b), o, bs));
    if Gone(bl, x) && x.ptr.block == sp.ptr.block {
      var q := x.ptr.off - BLOCK_HEADER;
      var sig: nat, t: nat :| H.Chunk(Payload(b), 0, sig, q, t) && t <= x.size && (sig == H.USED ==> t < x.size);
      assert H.Chunk(Splice(Payload(b), o, bs), 0, sig, q, t);
    }
  }

  lemma FillChains(bl: seq<Block>, sp: Span, bs: seq<byte>, lastTable: nat, lastHeap: nat)
    requires Chains(bl, lastTable, lastHeap) && InUse(bl, sp) && |bs| == sp.size
    ensures sp.ptr.off + |bs| <= |At(bl, sp.ptr.block)|
    ensures var bl' := Written(bl, sp.ptr, bs); Chains(bl', lastTable, lastHeap) && HeapOnly(bl, bl')
  {
    hide Chains, HeapOnly, Payload, WithPayload, Splice, H.Chunk;
    InUseRange(bl, sp);
    var b := At(bl, sp.ptr.block);
    H.WriteEffect(Payload(b), sp.ptr.off - BLOCK_HEADER, sp.size, bs);
    WrittenPayload(b, sp.ptr.off, bs);
    PayloadChains(bl, sp.ptr.block, Splice(Payload(b), sp.ptr.off - BLOCK_HEADER, bs), lastTable, lastHeap);
  }

  /** An appended block brings nothing into use and takes nothing out of use. */
  lemma AppendedGrows(bl: seq<Block>, t: byte, last: nat, size: nat)
    requires BLOCK_HEADER + 2 * H.HEADER <= size < U32_LIMIT && |bl| + 1 < U32_LIMIT
    requires last == 0 || IsType(bl, last, t)
    ensures Grown(bl, Appended(bl, t, last, size), multiset{})
  {
    hide InUse, Content, Appended, Gone;
    forall sp: Span
      ensures InUse(Appended(bl, t, last, size), sp) <==> InUse(bl, sp)
      ensures InUse(bl, sp) ==> Content(Appended(bl, t, last, size), sp) == Content(bl, sp)
      ensures Gone(bl, sp) ==> Gone(Appended(bl, t, last, size), sp)
    {
      AppendedSpan(bl, t, last, size, sp);
    }
  }

  lemma AppendedSpan(bl: seq<Block>, t: byte, last: nat, size: nat, sp: Span)
    requires BLOCK_HEADER + 2 * H.HEADER <= size < U32_LIMIT && |bl| + 1 < U32_LIMIT
    requires last == 0 || InFile(bl, last)
    ensures var r := Appended(bl, t, last, size);
            && (InUse(r, sp) <==> InUse(bl, sp))
            && (InUse(bl, sp) ==> Content(r, sp) == Content(bl, sp))
            && (Gone(bl, sp) ==> Gone(r, sp))
  {
    hide Appended, Payload, H.Fresh, Type;
    var r := Appended(bl, t, last, size);
    AppendedNew(bl, t, last, size);
    H.FreshEffect(size - BLOCK_HEADER, 0);
    if InFile(bl, sp.ptr.block) {
      AppendedOld(bl, t, last, size, sp.ptr.block);
    }
    if InUse(bl, sp) {
      InUseRange(bl, sp);
      InUseRange(r, sp);
    }
  }
}
