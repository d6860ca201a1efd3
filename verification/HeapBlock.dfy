/** The free store inside one Heap block (db/storage/edb/Heap.cpp): chunks, each an 8-byte header
    (signature, size) followed by its payload, laid end to end and closed by an end-edge header. */
module HeapBlocks {
  import opened Bytes

  const USED: nat := 0x2137D05A
  const EMPTY: nat := 0xBEBEBEBE
  const END_EDGE: nat := 0xE57F402D
  const FREED: nat := 0x2137DEAD
  const HEADER: nat := 8

  predicate HasValidSignature(sig: nat) {
    sig == EMPTY || sig == USED || sig == END_EDGE || sig == FREED
  }

  predicate IsAvailable(sig: nat) {
    sig == EMPTY || sig == FREED
  }

  function Sig(d: seq<byte>, o: nat): nat
    requires o + HEADER <= |d|
  {
    Val(d[o..o + 4])
  }

  function Size(d: seq<byte>, o: nat): nat
    requires o + HEADER <= |d|
  {
    Val(d[o + 4..o + HEADER])
  }

  function Header(sig: nat, size: nat): (h: seq<byte>)
    ensures |h| == HEADER
  {
    LE(sig, 4) + LE(size, 4)
  }

  // ---- The tiling invariant and what it says about a block's chunks ----

  /** From offset `o` on, chunk headers follow one another without a gap up to one end edge,
      which is the last header-sized stretch of the block. */
  ghost predicate Tiled(d: seq<byte>, o: nat)
    decreases |d| - o
  {
    && o + HEADER <= |d|
    && if Sig(d, o) == END_EDGE then o + HEADER == |d| && Size(d, o) == 0
       else HasValidSignature(Sig(d, o)) && Tiled(d, o + HEADER + Size(d, o))
  }

  /** Among the chunks from `o` on is one with signature `sig` whose payload is the `s` bytes at `p`. */
  ghost predicate Chunk(d: seq<byte>, o: nat, sig: nat, p: nat, s: nat)
    requires Tiled(d, o)
    decreases |d| - o
  {
    && Sig(d, o) != END_EDGE
    && (|| (p == o + HEADER && s == Size(d, o) && sig == Sig(d, o))
        || Chunk(d, o + HEADER + Size(d, o), sig, p, s))
  }

  ghost predicate Used(d: seq<byte>, p: nat, s: nat)
    requires Tiled(d, 0)
  {
    Chunk(d, 0, USED, p, s)
  }

  /** At `p` is the payload of a chunk that cannot be in use with `s` bytes any more: it is available,
      or in use with fewer bytes. */
  ghost predicate Outgrown(d: seq<byte>, p: nat, s: nat)
    requires Tiled(d, 0)
  {
    exists sig, t: nat :: Chunk(d, 0, sig, p, t) && t <= s && (sig == USED ==> t < s)
  }

  /** The last eight bytes of a tiled block are an end edge of size zero. */
  lemma {:induction false} EndsWithEdge(d: seq<byte>, o: nat)
    requires Tiled(d, o)
    ensures HEADER <= |d| && Sig(d, |d| - HEADER) == END_EDGE && Size(d, |d| - HEADER) == 0
    decreases |d| - o
  {
    if Sig(d, o) != END_EDGE {
      EndsWithEdge(d, o + HEADER + Size(d, o));
    }
  }

  /** A chunk lies between the header at `o` and the end edge, and its own header says what it is. */
  lemma {:induction false} ChunkRange(d: seq<byte>, o: nat, sig: nat, p: nat, s: nat)
    requires Tiled(d, o) && Chunk(d, o, sig, p, s)
    ensures o + HEADER <= p && p + s + HEADER <= |d|
    ensures Sig(d, p - HEADER) == sig && Size(d, p - HEADER) == s
    ensures sig == USED || IsAvailable(sig)
    decreases |d| - o
  {
    var n := o + HEADER + Size(d, o);
    assert Tiled(d, n);
    if p != o + HEADER || s != Size(d, o) || sig != Sig(d, o) {
      ChunkRange(d, n, sig, p, s);
    }
  }

  /** Two chunks are the same chunk, or their payloads are apart by at least a header. */
  lemma {:induction false} ChunksDisjoint(d: seq<byte>, o: nat, sig: nat, p: nat, s: nat, sig': nat, p': nat, s': nat)
    requires Tiled(d, o) && Chunk(d, o, sig, p, s) && Chunk(d, o, sig', p', s')
    ensures || (sig == sig' && p == p' && s == s')
            || p + s + HEADER <= p'
            || p' + s' + HEADER <= p
    decreases |d| - o
  {
    var n := o + HEADER + Size(d, o);
    if Chunk(d, n, sig, p, s) {
      ChunkRange(d, n, sig, p, s);
      if Chunk(d, n, sig', p', s') {
        ChunksDisjoint(d, n, sig, p, s, sig', p', s');
      }
    } else if Chunk(d, n, sig', p', s') {
      ChunkRange(d, n, sig', p', s');
    }
  }

  /** Bytes before `e` play no part in the chunks from `e` on. */
  lemma {:induction false} SuffixFrame(d: seq<byte>, d': seq<byte>, e: nat)
    requires |d| == |d'| && Tiled(d, e) && d[e..] == d'[e..]
    ensures Tiled(d', e)
    ensures forall sig, p, s :: Chunk(d', e, sig, p, s) <==> Chunk(d, e, sig, p, s)
    decreases |d| - e
  {
    SameHeader(d, d', e, e);
    if Sig(d, e) != END_EDGE {
      var n := e + HEADER + Size(d, e);
      SliceOfSuffix(d, e, n, |d|);
      SliceOfSuffix(d', e, n, |d|);
      SuffixFrame(d, d', n);
    }
  }

  lemma SliceOfSuffix(d: seq<byte>, e: nat, lo: nat, hi: nat)
    requires e <= lo <= hi <= |d|
    ensures d[lo..hi] == d[e..][lo - e..hi - e]
    ensures d[lo..] == d[e..][lo - e..]
  {
  }

  lemma SliceOfPrefix(d: seq<byte>, e: nat, lo: nat, hi: nat)
    requires lo <= hi <= e <= |d|
    ensures d[lo..hi] == d[..e][lo..hi]
  {
  }

  lemma SameHeader(d: seq<byte>, d': seq<byte>, e: nat, o: nat)
    requires |d| == |d'| && e <= o && o + HEADER <= |d| && d[e..] == d'[e..]
    ensures Sig(d, o) == Sig(d', o) && Size(d, o) == Size(d', o)
  {
    SliceOfSuffix(d, e, o, o + 4);
    SliceOfSuffix(d', e, o, o + 4);
    SliceOfSuffix(d, e, o + 4, o + HEADER);
    SliceOfSuffix(d', e, o + 4, o + HEADER);
  }

  /** A header that does not meet an overwritten stretch reads the same. */
  lemma HeaderFrame(d: seq<byte>, off: nat, bs: seq<byte>, o: nat)
    requires off + |bs| <= |d| && o + HEADER <= |d|
    requires o + HEADER <= off || off + |bs| <= o
    ensures Sig(Splice(d, off, bs), o) == Sig(d, o)
    ensures Size(Splice(d, off, bs), o) == Size(d, o)
  {
    SpliceFrame(d, off, bs, o, o + 4);
    SpliceFrame(d, off, bs, o + 4, o + HEADER);
  }

  lemma HeaderWritten(d: seq<byte>, o: nat, sig: nat, size: nat)
    requires o + HEADER <= |d| && sig < U32_LIMIT && size < U32_LIMIT
    ensures Sig(Splice(d, o, Header(sig, size)), o) == sig
    ensures Size(Splice(d, o, Header(sig, size)), o) == size
  {
    var r := Splice(d, o, Header(sig, size));
    SpliceGet(d, o, Header(sig, size));
    assert r[o..o + 4] == r[o..o + HEADER][..4] == LE(sig, 4);
    assert r[o + 4..o + HEADER] == r[o..o + HEADER][4..] == LE(size, 4);
    Widths();
    ValLE(sig, 4);
    ValLE(size, 4);
  }

  /** Overwriting bytes from `e` on leaves the rest of the block alone. */
  lemma SpliceSuffix(d: seq<byte>, off: nat, bs: seq<byte>, e: nat)
    requires off + |bs| <= e <= |d|
    ensures Splice(d, off, bs)[e..] == d[e..]
  {
  }

  // ---- First fit ----

  /** Header offset of the first chunk from `o` on that `alloc` would take for `size` bytes. */
  ghost function FirstFit(d: seq<byte>, o: nat, size: nat): (h: int)
    requires Tiled(d, o)
    ensures 0 <= h ==>
              && o <= h && h + 2 * HEADER <= |d|
              && IsAvailable(Sig(d, h))
              && size + 2 * HEADER <= Size(d, h)
              && h + 2 * HEADER + Size(d, h) <= |d|
    decreases |d| - o
  {
    if Sig(d, o) == END_EDGE then -1
    else if IsAvailable(Sig(d, o)) && size + 2 * HEADER <= Size(d, o) then
      assert Tiled(d, o + HEADER + Size(d, o));
      o
    else FirstFit(d, o + HEADER + Size(d, o), size)
  }

  /** First fit is the lowest available chunk that leaves room for a further header. */
  lemma {:induction false} FirstFitIsLowest(d: seq<byte>, o: nat, size: nat, sig: nat, p: nat, s: nat)
    requires Tiled(d, o)
    requires IsAvailable(sig) && Chunk(d, o, sig, p, s) && size + 2 * HEADER <= s
    ensures 0 <= FirstFit(d, o, size) && FirstFit(d, o, size) + HEADER <= p
    decreases |d| - o
  {
    ChunkRange(d, o, sig, p, s);
    if FirstFit(d, o, size) != o {
      FirstFitIsLowest(d, o + HEADER + Size(d, o), size, sig, p, s);
    }
  }

  /** What first fit returns is an available chunk of the block that is large enough. */
  lemma {:induction false} FirstFitIsChunk(d: seq<byte>, o: nat, size: nat)
    requires Tiled(d, o) && 0 <= FirstFit(d, o, size)
    ensures var h := FirstFit(d, o, size); Chunk(d, o, Sig(d, h), h + HEADER, Size(d, h))
    decreases |d| - o
  {
    if FirstFit(d, o, size) != o {
      FirstFitIsChunk(d, o + HEADER + Size(d, o), size);
    }
  }

  /** The block after `size` bytes were taken from the chunk at `h`: its header becomes used and
      shorter, and a fresh empty chunk takes what is left. */
  ghost function Carve(d: seq<byte>, h: nat, size: nat): (r: seq<byte>)
    requires h + HEADER <= |d|
    requires size + 2 * HEADER <= Size(d, h)
    requires h + HEADER + Size(d, h) <= |d|
    ensures |r| == |d|
  {
    Splice(Splice(d, h, Header(USED, size)), h + HEADER + size, Header(EMPTY, Size(d, h) - size - HEADER))
  }

  lemma CarveHeaders(d: seq<byte>, h: nat, size: nat)
    requires h + HEADER <= |d| < U32_LIMIT
    requires size + 2 * HEADER <= Size(d, h)
    requires h + 2 * HEADER + Size(d, h) <= |d|
    ensures var r := Carve(d, h, size);
            var m := h + HEADER + size;
            && Sig(r, h) == USED && Size(r, h) == size
            && Sig(r, m) == EMPTY && Size(r, m) == Size(d, h) - size - HEADER
            && r[h + HEADER + Size(d, h)..] == d[h + HEADER + Size(d, h)..]
  {
    var d1 := Splice(d, h, Header(USED, size));
    var m := h + HEADER + size;
    var left := Size(d, h) - size - HEADER;
    HeaderWritten(d, h, USED, size);
    HeaderWritten(d1, m, EMPTY, left);
    HeaderFrame(d1, m, Header(EMPTY, left), h);
    SpliceSuffix(d, h, Header(USED, size), h + HEADER + Size(d, h));
    SpliceSuffix(d1, m, Header(EMPTY, left), h + HEADER + Size(d, h));
  }

  /** Headers in front of the carved chunk are untouched. */
  lemma CarvePrefix(d: seq<byte>, h: nat, size: nat, o: nat)
    requires h + HEADER <= |d|
    requires size + 2 * HEADER <= Size(d, h)
    requires h + HEADER + Size(d, h) <= |d|
    requires o + HEADER <= h
    ensures Sig(Carve(d, h, size), o) == Sig(d, o) && Size(Carve(d, h, size), o) == Size(d, o)
  {
    HeaderFrame(d, h, Header(USED, size), o);
    HeaderFrame(Splice(d, h, Header(USED, size)), h + HEADER + size,
                Header(EMPTY, Size(d, h) - size - HEADER), o);
  }

  lemma {:induction false} CarvedFrom(d: seq<byte>, r: seq<byte>, o: nat, h: nat, size: nat, sig: nat, p: nat, s: nat)
    requires Tiled(d, o) && FirstFit(d, o, size) == h && |d| == |r|
    requires forall x: nat :: x + HEADER <= h ==> Sig(r, x) == Sig(d, x) && Size(r, x) == Size(d, x)
    requires Sig(r, h) == USED && Size(r, h) == size
    requires Sig(r, h + HEADER + size) == EMPTY
    requires Size(r, h + HEADER + size) == Size(d, h) - size - HEADER
    requires r[h + HEADER + Size(d, h)..] == d[h + HEADER + Size(d, h)..]
    ensures Tiled(r, o)
    ensures Chunk(r, o, sig, p, s) <==>
            if p == h + HEADER then sig == USED && s == size
            else if p == h + size + 2 * HEADER then sig == EMPTY && s == Size(d, h) - size - HEADER
            else Chunk(d, o, sig, p, s)
    decreases |d| - o
  {
    hide Sig, Size;
    var n := o + HEADER + Size(d, o);
    if h == o {
      var m := o + HEADER + size;
      SuffixFrame(d, r, n);
      assert Tiled(r, m);
      if Chunk(d, n, sig, p, s) {
        ChunkRange(d, n, sig, p, s);
      }
    } else {
      CarvedFrom(d, r, n, h, size, sig, p, s);
    }
  }

  /** The effect of an allocation on the block's chunks: one available chunk is replaced by a
      used one of exactly the requested size and an empty one holding the remainder minus a
      header; every other chunk stays as it was, and so does every used payload. */
  lemma CarveEffect(d: seq<byte>, size: nat, sig: nat, p: nat, s: nat)
    requires Tiled(d, 0) && 0 <= FirstFit(d, 0, size) && |d| < U32_LIMIT
    ensures var h := FirstFit(d, 0, size);
            var r := Carve(d, h, size);
            && Tiled(r, 0)
            && (Chunk(r, 0, sig, p, s) <==>
                if p == h + HEADER then sig == USED && s == size
                else if p == h + size + 2 * HEADER then sig == EMPTY && s == Size(d, h) - size - HEADER
                else Chunk(d, 0, sig, p, s))
  {
    hide Sig, Size, Carve;
    var h := FirstFit(d, 0, size);
    var r := Carve(d, h, size);
    CarveHeaders(d, h, size);
    forall x: nat | x + HEADER <= h ensures Sig(r, x) == Sig(d, x) && Size(r, x) == Size(d, x) {
      CarvePrefix(d, h, size, x);
    }
    CarvedFrom(d, r, 0, h, size, sig, p, s);
  }

  /** Allocation leaves room for a chunk of the old size nowhere. */
  lemma CarveOutgrown(d: seq<byte>, size: nat, p: nat, s: nat)
    requires Tiled(d, 0) && 0 <= FirstFit(d, 0, size) && |d| < U32_LIMIT
    requires Outgrown(d, p, s)
    ensures var r := Carve(d, FirstFit(d, 0, size), size); Tiled(r, 0) && Outgrown(r, p, s)
  {
    hide Sig, Size, Carve, Chunk, FirstFit, Tiled;
    var h := FirstFit(d, 0, size);
    var sig: nat, t: nat :| Chunk(d, 0, sig, p, t) && t <= s && (sig == USED ==> t < s);
    FirstFitIsChunk(d, 0, size);
    ChunksDisjoint(d, 0, sig, p, t, Sig(d, h), h + HEADER, Size(d, h));
    FirstFitRoom(d, 0, size);
    CarveEffect(d, size, sig, p, t);
    CarveEffect(d, size, USED, p, size);
  }

  lemma {:induction false} FirstFitRoom(d: seq<byte>, o: nat, size: nat)
    requires Tiled(d, o) && 0 <= FirstFit(d, o, size)
    ensures var h := FirstFit(d, o, size); IsAvailable(Sig(d, h)) && size + 2 * HEADER <= Size(d, h)
    decreases |d| - o
  {
    if FirstFit(d, o, size) != o {
      FirstFitRoom(d, o + HEADER + Size(d, o), size);
    }
  }

  /** Allocation hands out bytes no used chunk has, and leaves the payload of every used chunk alone. */
  lemma CarvePayloads(d: seq<byte>, size: nat, p: nat, s: nat)
    requires Tiled(d, 0) && 0 <= FirstFit(d, 0, size) && |d| < U32_LIMIT
    requires Used(d, p, s)
    ensures p + s <= |d|
    ensures var h := FirstFit(d, 0, size);
            && (p + s + HEADER <= h + HEADER || h + size + 2 * HEADER <= p)
            && p != h + size + 2 * HEADER
            && Carve(d, h, size)[p..p + s] == d[p..p + s]
  {
    hide Sig, Size, Splice, Chunk, FirstFit, Tiled, Header;
    var h := FirstFit(d, 0, size);
    FirstFitIsChunk(d, 0, size);
    ChunkRange(d, 0, USED, p, s);
    ChunksDisjoint(d, 0, USED, p, s, Sig(d, h), h + HEADER, Size(d, h));
    var bs := Header(USED, size);
    SpliceFrame(d, h, bs, p, p + s);
    SpliceFrame(Splice(d, h, bs), h + HEADER + size, Header(EMPTY, Size(d, h) - size - HEADER), p, p + s);
  }

  // ---- Free, writing a payload, a fresh block ----

  /** The block after the chunk with payload `p` was freed. Its neighbours are not merged. */
  ghost function MarkFreed(d: seq<byte>, p: nat): (r: seq<byte>)
    requires HEADER <= p <= |d|
    ensures |r| == |d|
  {
    Splice(d, p - HEADER, Header(FREED, Size(d, p - HEADER)))
  }

  lemma {:induction false} FreedFrom(d: seq<byte>, r: seq<byte>, o: nat, p: nat, s: nat, sig: nat, q: nat, t: nat)
    requires Tiled(d, o) && |d| == |r| && Chunk(d, o, USED, p, s)
    requires HEADER <= p && p <= |d|
    requires forall x: nat :: x + 2 * HEADER <= p ==> Sig(r, x) == Sig(d, x) && Size(r, x) == Size(d, x)
    requires Sig(r, p - HEADER) == FREED && Size(r, p - HEADER) == Size(d, p - HEADER)
    requires r[p..] == d[p..]
    ensures Tiled(r, o)
    ensures Chunk(r, o, sig, q, t) <==> if q == p then sig == FREED && t == s else Chunk(d, o, sig, q, t)
    decreases |d| - o
  {
    hide Sig, Size;
    var n := o + HEADER + Size(d, o);
    ChunkRange(d, o, USED, p, s);
    if p == o + HEADER {
      SliceOfSuffix(d, p, n, |d|);
      SliceOfSuffix(r, p, n, |d|);
      SuffixFrame(d, r, n);
      if Chunk(d, n, sig, q, t) {
        ChunkRange(d, n, sig, q, t);
      }
    } else {
      ChunkRange(d, n, USED, p, s);
      FreedFrom(d, r, n, p, s, sig, q, t);
    }
  }

  /** Freeing a used chunk makes it available at its full size and changes no other chunk and no
      payload byte. */
  lemma FreeEffect(d: seq<byte>, p: nat, s: nat)
    requires Tiled(d, 0) && Used(d, p, s) && |d| < U32_LIMIT
    ensures HEADER <= p && p + s <= |d|
    ensures var r := MarkFreed(d, p);
            && Tiled(r, 0)
            && (forall sig, q, t :: Chunk(r, 0, sig, q, t) <==>
                  if q == p then sig == FREED && t == s else Chunk(d, 0, sig, q, t))
            && r[p..] == d[p..] && r[..p - HEADER] == d[..p - HEADER]
  {
    hide Sig, Size, MarkFreed;
    ChunkRange(d, 0, USED, p, s);
    var r := MarkFreed(d, p);
    FreeHeaders(d, p);
    FreedFrom(d, r, 0, p, s, 0, 0, 0);
    forall sig, q, t
      ensures Chunk(r, 0, sig, q, t) <==> if q == p then sig == FREED && t == s else Chunk(d, 0, sig, q, t)
    {
      FreedFrom(d, r, 0, p, s, sig, q, t);
    }
  }

  lemma FreeHeaders(d: seq<byte>, p: nat)
    requires HEADER <= p <= |d| && Size(d, p - HEADER) < U32_LIMIT
    ensures var r := MarkFreed(d, p);
            && Sig(r, p - HEADER) == FREED && Size(r, p - HEADER) == Size(d, p - HEADER)
            && r[p..] == d[p..] && r[..p - HEADER] == d[..p - HEADER]
            && (forall x: nat :: x + 2 * HEADER <= p ==> Sig(r, x) == Sig(d, x) && Size(r, x) == Size(d, x))
  {
    hide Sig, Size, Splice, Header;
    var h := p - HEADER;
    var bs := Header(FREED, Size(d, h));
    HeaderWritten(d, h, FREED, Size(d, h));
    SpliceSuffix(d, h, bs, p);
    SpliceFrame(d, h, bs, 0, h);
    forall x: nat | x + 2 * HEADER <= p
      ensures Sig(MarkFreed(d, p), x) == Sig(d, x) && Size(MarkFreed(d, p), x) == Size(d, x)
    {
      HeaderFrame(d, h, bs, x);
    }
  }

  /** Freeing leaves the payload of every other used chunk alone. */
  lemma FreePayloads(d: seq<byte>, p: nat, s: nat, q: nat, t: nat)
    requires Tiled(d, 0) && Used(d, p, s) && Used(d, q, t) && p != q && |d| < U32_LIMIT
    ensures HEADER <= p <= |d| && q + t <= |d|
    ensures MarkFreed(d, p)[q..q + t] == d[q..q + t]
  {
    hide Sig, Size, MarkFreed, Chunk, Tiled;
    ChunkRange(d, 0, USED, p, s);
    ChunkRange(d, 0, USED, q, t);
    ChunksDisjoint(d, 0, USED, p, s, USED, q, t);
    FreeEffect(d, p, s);
    var r := MarkFreed(d, p);
    if p < q {
      SliceOfSuffix(d, p, q, q + t);
      SliceOfSuffix(r, p, q, q + t);
    } else {
      SliceOfPrefix(d, p - HEADER, q, q + t);
      SliceOfPrefix(r, p - HEADER, q, q + t);
    }
  }

  lemma {:induction false} WrittenFrom(d: seq<byte>, o: nat, p: nat, s: nat, bs: seq<byte>, sig: nat, q: nat, t: nat)
    requires Tiled(d, o) && Chunk(d, o, USED, p, s) && |bs| <= s && p + |bs| <= |d|
    ensures Tiled(Splice(d, p, bs), o)
    ensures Chunk(Splice(d, p, bs), o, sig, q, t) <==> Chunk(d, o, sig, q, t)
    decreases |d| - o
  {
    hide Sig, Size, Splice;
    var n := o + HEADER + Size(d, o);
    ChunkRange(d, o, USED, p, s);
    HeaderFrame(d, p, bs, o);
    if p == o + HEADER {
      SpliceSuffix(d, p, bs, n);
      SuffixFrame(d, Splice(d, p, bs), n);
    } else {
      WrittenFrom(d, n, p, s, bs, sig, q, t);
    }
  }

  /** Writing into a used payload changes no chunk. */
  lemma WriteEffect(d: seq<byte>, p: nat, s: nat, bs: seq<byte>)
    requires Tiled(d, 0) && Used(d, p, s) && |bs| <= s
    ensures p + |bs| <= |d|
    ensures Tiled(Splice(d, p, bs), 0)
    ensures forall sig, q, t :: Chunk(Splice(d, p, bs), 0, sig, q, t) <==> Chunk(d, 0, sig, q, t)
  {
    hide Sig, Size, Splice;
    ChunkRange(d, 0, USED, p, s);
    WrittenFrom(d, 0, p, s, bs, 0, 0, 0);
    forall sig, q, t ensures Chunk(Splice(d, p, bs), 0, sig, q, t) <==> Chunk(d, 0, sig, q, t) {
      WrittenFrom(d, 0, p, s, bs, sig, q, t);
    }
  }

  /** Writing into one used payload leaves the bytes of every other used payload alone. */
  lemma WritePayloads(d: seq<byte>, p: nat, s: nat, bs: seq<byte>, q: nat, t: nat)
    requires Tiled(d, 0) && Used(d, p, s) && |bs| <= s && Used(d, q, t) && p != q
    ensures p + |bs| <= |d| && q + t <= |d|
    ensures Splice(d, p, bs)[q..q + t] == d[q..q + t]
  {
    hide Sig, Size, Splice;
    ChunkRange(d, 0, USED, p, s);
    ChunkRange(d, 0, USED, q, t);
    ChunksDisjoint(d, 0, USED, p, s, USED, q, t);
    SpliceFrame(d, p, bs, q, q + t);
  }

  const SCRUB: byte := 0xEF

  /** A block as `init` leaves it: one empty chunk, filled with scrub bytes, and the end edge. */
  ghost function Fresh(n: nat): (r: seq<byte>)
    requires 2 * HEADER <= n
    ensures |r| == n
  {
    Header(EMPTY, n - 2 * HEADER) + seq(n - 2 * HEADER, _ => SCRUB) + Header(END_EDGE, 0)
  }

  /** A fresh block holds one empty chunk, and satisfies a request exactly when the request leaves
      room for a header of its own, one for the remainder and the end edge with its header. */
  lemma FreshEffect(n: nat, size: nat)
    requires 2 * HEADER <= n < U32_LIMIT
    ensures Tiled(Fresh(n), 0)
    ensures forall sig, p, s :: Chunk(Fresh(n), 0, sig, p, s) <==> sig == EMPTY && p == HEADER && s == n - 2 * HEADER
    ensures FirstFit(Fresh(n), 0, size) == if size + 4 * HEADER <= n then 0 else -1
  {
    hide Sig, Size, Fresh;
    FreshHeaders(n);
    assert Tiled(Fresh(n), n - HEADER);
  }

  lemma FreshIsBuiltUp(d: seq<byte>, n: nat)
    requires 2 * HEADER <= n == |d|
    ensures var d1 := Splice(d, 0, Header(EMPTY, n - 2 * HEADER));
            var d2 := Splice(d1, n - HEADER, Header(END_EDGE, 0));
            Splice(d2, HEADER, seq(n - 2 * HEADER, _ => SCRUB)) == Fresh(n)
  {
    hide Header;
    var d1 := Splice(d, 0, Header(EMPTY, n - 2 * HEADER));
    var d2 := Splice(d1, n - HEADER, Header(END_EDGE, 0));
    assert d2[..HEADER] == d1[..HEADER] == Header(EMPTY, n - 2 * HEADER);
    assert d2[n - HEADER..] == Header(END_EDGE, 0);
  }

  lemma FreshHeaders(n: nat)
    requires 2 * HEADER <= n < U32_LIMIT
    ensures Sig(Fresh(n), 0) == EMPTY && Size(Fresh(n), 0) == n - 2 * HEADER
    ensures Sig(Fresh(n), n - HEADER) == END_EDGE && Size(Fresh(n), n - HEADER) == 0
  {
    hide Header, Sig, Size;
    var r := Fresh(n);
    assert r[0..HEADER] == Header(EMPTY, n - 2 * HEADER);
    assert r[n - HEADER..n] == Header(END_EDGE, 0);
    HeaderAt(r, 0, EMPTY, n - 2 * HEADER);
    HeaderAt(r, n - HEADER, END_EDGE, 0);
  }

  lemma HeaderAt(d: seq<byte>, o: nat, sig: nat, size: nat)
    requires o + HEADER <= |d| && d[o..o + HEADER] == Header(sig, size) && sig < U32_LIMIT && size < U32_LIMIT
    ensures Sig(d, o) == sig && Size(d, o) == size
  {
    hide LE, Val;
    Widths();
    ValLE(sig, 4);
    ValLE(size, 4);
    var h := d[o..o + HEADER];
    assert d[o..o + 4] == h[..4] == LE(sig, 4);
    assert d[o + 4..o + HEADER] == h[4..] == LE(size, 4);
  }

  /** When the first byte of a tiled block is counted up, the first chunk has no valid signature any
      more. */
  lemma FirstByteHit(d: seq<byte>, d': seq<byte>)
    requires Tiled(d, 0) && |d'| == |d| && d'[0] as nat == (d[0] as nat + 1) % 256
    ensures !Tiled(d', 0)
  {
    hide Sig, Size;
    LowByte(d);
    LowByte(d');
    SignatureBytes();
  }

  lemma LowByte(d: seq<byte>)
    requires HEADER <= |d|
    ensures Sig(d, 0) % 256 == d[0] as nat
  {
    var s := d[0..4];
    assert Val(s) == s[0] as nat + 256 * Val(s[1..]);
  }

  lemma SignatureBytes()
    ensures USED % 256 == 0x5A && EMPTY % 256 == 0xBE && END_EDGE % 256 == 0x2D && FREED % 256 == 0xAD
  {
  }

  // ---- A block in which nothing was freed ----

  /** The only chunk that can be handed out is the empty one of `gap` bytes at `p`. */
  ghost predicate OneGap(d: seq<byte>, p: nat, gap: nat) {
    && Tiled(d, 0)
    && Chunk(d, 0, EMPTY, p, gap)
    && (forall sig, q, s :: IsAvailable(sig) && Chunk(d, 0, sig, q, s) ==> q == p && s == gap)
  }

  lemma FreshGap(n: nat)
    requires 2 * HEADER <= n < U32_LIMIT
    ensures OneGap(Fresh(n), HEADER, n - 2 * HEADER)
  {
    hide Tiled, Fresh, Chunk;
    FreshEffect(n, 0);
  }

  /** With one gap, a request is served exactly when the gap has room for it and one more header;
      serving it shrinks the gap by the request and a header. */
  lemma GapServes(d: seq<byte>, p: nat, gap: nat, size: nat)
    requires OneGap(d, p, gap) && |d| < U32_LIMIT
    ensures 0 <= FirstFit(d, 0, size) <==> size + 2 * HEADER <= gap
    ensures size + 2 * HEADER <= gap ==>
              OneGap(Carve(d, FirstFit(d, 0, size), size), p + size + HEADER, gap - size - HEADER)
  {
    hide Tiled, Carve, Sig, Size, Chunk, FirstFit;
    var h := FirstFit(d, 0, size);
    if size + 2 * HEADER <= gap {
      FirstFitIsLowest(d, 0, size, EMPTY, p, gap);
    }
    if 0 <= h {
      FirstFitIsChunk(d, 0, size);
      CarveEffect(d, size, 0, 0, 0);
      forall sig, q, s
        ensures IsAvailable(sig) && Chunk(Carve(d, h, size), 0, sig, q, s) <==>
                sig == EMPTY && q == p + size + HEADER && s == gap - size - HEADER
      {
        CarveEffect(d, size, sig, q, s);
      }
    }
  }

  // ---- The block as the source updates it ----

  // ---- The same in bytes ----

  /** A fresh block: an empty chunk, scrub bytes, and the end edge. */
  lemma FreshBytes(n: nat)
    requires 16 <= n < U32_LIMIT
    ensures var r := Fresh(n);
            && Val(r[..4]) == 0xBEBEBEBE && Val(r[4..8]) == n - 16
            && (forall i | 8 <= i < n - 8 :: r[i] == 0xEF)
            && Val(r[n - 8..n - 4]) == 0xE57F402D && Val(r[n - 4..]) == 0
  {
    hide Header;
    FreshHeaders(n);
    var r := Fresh(n);
    assert r[..4] == r[0..4] && r[n - 4..] == r[n - 4..n];
  }

  /** An allocation: the header of an available chunk is marked as used and shortened, and behind the
      bytes handed out an empty chunk begins; no other byte changes. */
  lemma CarveBytes(d: seq<byte>, size: nat)
    requires Tiled(d, 0) && 0 <= FirstFit(d, 0, size) && |d| < U32_LIMIT
    ensures var h := FirstFit(d, 0, size);
            var r := Carve(d, h, size);
            && h + size + 16 <= |d|
            && (Val(d[h..h + 4]) == 0xBEBEBEBE || Val(d[h..h + 4]) == 0x2137DEAD)
            && size + 16 <= Val(d[h + 4..h + 8])
            && Val(r[h..h + 4]) == 0x2137D05A && Val(r[h + 4..h + 8]) == size
            && Val(r[h + size + 8..h + size + 12]) == 0xBEBEBEBE
            && Val(r[h + size + 12..h + size + 16]) == Val(d[h + 4..h + 8]) - size - 8
            && r[..h] == d[..h] && r[h + 8..h + size + 8] == d[h + 8..h + size + 8]
            && r[h + size + 16..] == d[h + size + 16..]
  {
    hide Header, Tiled, FirstFit, Val, Splice;
    var h := FirstFit(d, 0, size);
    FirstFitRoom(d, 0, size);
    FirstFitIsChunk(d, 0, size);
    ChunkRange(d, 0, Sig(d, h), h + HEADER, Size(d, h));
    CarveHeaders(d, h, size);
    CarveKeeps(d, h, size);
  }

  /** A request is served exactly if an empty or a freed chunk has sixteen bytes more, and by the first of them. */
  lemma ServedExactly(d: seq<byte>, size: nat)
    requires Tiled(d, 0)
    ensures 0 <= FirstFit(d, 0, size) <==>
            exists p: nat, s: nat :: (Chunk(d, 0, 0xBEBEBEBE, p, s) || Chunk(d, 0, 0x2137DEAD, p, s)) && size + 16 <= s
    ensures forall p: nat, s: nat | Chunk(d, 0, 0xBEBEBEBE, p, s) || Chunk(d, 0, 0x2137DEAD, p, s) ::
              size + 16 <= s ==> FirstFit(d, 0, size) + 8 <= p
  {
    hide Sig, Size;
    var h := FirstFit(d, 0, size);
    if 0 <= h {
      FirstFitIsChunk(d, 0, size);
      FirstFitRoom(d, 0, size);
      var p: nat, s: nat := h + 8, Size(d, h);
      assert (Chunk(d, 0, 0xBEBEBEBE, p, s) || Chunk(d, 0, 0x2137DEAD, p, s)) && size + 16 <= s;
      assert exists p: nat, s: nat ::
          (Chunk(d, 0, 0xBEBEBEBE, p, s) || Chunk(d, 0, 0x2137DEAD, p, s)) && size + 16 <= s;
    }
    if p: nat, s: nat :| (Chunk(d, 0, 0xBEBEBEBE, p, s) || Chunk(d, 0, 0x2137DEAD, p, s)) && size + 16 <= s {
      FirstFitIsLowest(d, 0, size, if Chunk(d, 0, 0xBEBEBEBE, p, s) then 0xBEBEBEBE else 0x2137DEAD, p, s);
      assert 0 <= FirstFit(d, 0, size);
    }
    forall p: nat, s: nat | (Chunk(d, 0, 0xBEBEBEBE, p, s) || Chunk(d, 0, 0x2137DEAD, p, s)) && size + 16 <= s
      ensures h + 8 <= p
    {
      FirstFitIsLowest(d, 0, size, if Chunk(d, 0, 0xBEBEBEBE, p, s) then 0xBEBEBEBE else 0x2137DEAD, p, s);
    }
  }

  lemma CarveKeeps(d: seq<byte>, h: nat, size: nat)
    requires h + HEADER <= |d| && size + 2 * HEADER <= Size(d, h) && h + HEADER + Size(d, h) <= |d|
    ensures var r := Carve(d, h, size);
            && r[..h] == d[..h] && r[h + 8..h + size + 8] == d[h + 8..h + size + 8]
            && r[h + size + 16..] == d[h + size + 16..]
  {
    hide Header, Sig, Size, Splice;
    var h1, h2 := Header(USED, size), Header(EMPTY, Size(d, h) - size - HEADER);
    OutsideKept(d, h, h1);
    OutsideKept(Splice(d, h, h1), h + HEADER + size, h2);
    var m, r := Splice(d, h, h1), Carve(d, h, size);
    assert r[..h] == r[..h + HEADER + size][..h] == m[..h + HEADER + size][..h] == m[..h];
    assert r[h + 8..h + size + 8] == r[..h + HEADER + size][h + 8..] == m[..h + HEADER + size][h + 8..];
    assert m[h + 8..h + size + 8] == m[h + 8..][..size] == d[h + 8..][..size] == d[h + 8..h + size + 8];
    assert m[h + size + 16..] == m[h + 8..][size + 8..] == d[h + 8..][size + 8..] == d[h + size + 16..];
  }

  lemma OutsideKept(d: seq<byte>, o: nat, bs: seq<byte>)
    requires o + |bs| <= |d|
    ensures Splice(d, o, bs)[..o] == d[..o] && Splice(d, o, bs)[o + |bs|..] == d[o + |bs|..]
  {
  }

  /** Freeing changes the four bytes of the signature only. */
  lemma FreedBytes(d: seq<byte>, p: nat)
    requires 8 <= p <= |d|
    ensures var r := MarkFreed(d, p);
            && Val(r[p - 8..p - 4]) == 0x2137DEAD && r[..p - 8] == d[..p - 8] && r[p - 4..] == d[p - 4..]
  {
    hide LE, Val;
    var size := d[p - 4..p];
    Widths();
    ValBound(size);
    LEVal(size);
    ValLE(FREED, 4);
    var bs := Header(FREED, Val(size));
    assert bs[4..] == size && bs[..4] == LE(FREED, 4);
    var r := MarkFreed(d, p);
    assert r[p - 8..p - 4] == bs[..4];
    assert r[p - 4..] == bs[4..] + d[p..];
    assert d[p - 4..] == size + d[p..];
  }

  /** A heap block's bytes, held the way `AllocatingAlignedAccess` holds them: a private copy,
      updated in place and written back by the caller. */
  class HeapBlock {
    const data: array<byte>

    constructor (bytes: seq<byte>)
      ensures fresh(data) && data[..] == bytes
    {
      data := new byte[|bytes|](i requires 0 <= i < |bytes| => bytes[i]);
    }

    method ReadHeader(o: nat) returns (sig: nat, size: nat)
      requires o + HEADER <= data.Length
      ensures sig == Sig(data[..], o) && size == Size(data[..], o)
    {
      assert data[o..o + 4] == data[..][o..o + 4];
      assert data[o + 4..o + HEADER] == data[..][o + 4..o + HEADER];
      sig, size := Val(data[o..o + 4]), Val(data[o + 4..o + HEADER]);
    }

    method Init()
      requires 2 * HEADER <= data.Length < U32_LIMIT
      modifies data
      ensures data[..] == Fresh(data.Length)
    {
      hide Header, Splice, Fresh;
      var n := data.Length;
      FreshIsBuiltUp(data[..], n);
      Poke(data, 0, Header(EMPTY, n - 2 * HEADER));
      Poke(data, n - HEADER, Header(END_EDGE, 0));
      Poke(data, HEADER, seq(n - 2 * HEADER, _ => SCRUB));
    }

    /** First fit. On a tiled block the walk stops at the end edge, meets no invalid signature and
        does not leave the block, so neither corruption error is ever returned. */
    method Alloc(size: nat) returns (r: AllocResult)
      requires Tiled(data[..], 0) && data.Length < U32_LIMIT
      modifies data
      ensures var d, h := old(data[..]), FirstFit(old(data[..]), 0, size);
              if h < 0 then r == NoRoom && data[..] == d
              else r == At(h + HEADER) && data[..] == Carve(d, h, size)
      ensures var d := old(data[..]);
              r == NoRoom <==>
              forall p: nat, s: nat | Chunk(d, 0, 0xBEBEBEBE, p, s) || Chunk(d, 0, 0x2137DEAD, p, s) :: s < size + 16
    {
      hide Sig, Size, Splice, Header, Chunk;
      ServedExactly(data[..], size);
      ghost var d := data[..];
      var h := 0;
      while true
        invariant 0 <= h && Tiled(d, h) && data[..] == d
        invariant FirstFit(d, 0, size) == FirstFit(d, h, size)
        decreases |d| - h
      {
        var sig, free := ReadHeader(h);
        if !HasValidSignature(sig) {
          return InvalidSignature;
        }
        if IsAvailable(sig) {
          if size + 2 * HEADER <= free {
            assert FirstFit(d, h, size) == h;
            Poke(data, h, Header(USED, size));
            Poke(data, h + HEADER + size, Header(EMPTY, free - size - HEADER));
            return At(h + HEADER);
          }
        }
        if sig == END_EDGE {
          return NoRoom;
        }
        h := h + free + HEADER;
        if h > data.Length {
          return OutOfRange;
        }
      }
    }

    method Free(p: nat)
      requires HEADER <= p <= data.Length
      modifies data
      ensures data[..] == MarkFreed(old(data[..]), p)
    {
      var sig, size := ReadHeader(p - HEADER);
      Poke(data, p - HEADER, Header(FREED, size));
    }
  }

  datatype AllocResult = At(offset: nat) | NoRoom | InvalidSignature | OutOfRange
}
