/** A table file: block allocation, the multi-block heap, rows (db/storage/edb/EDBFile.cpp,
    db/storage/edb/Heap.cpp). */
module EDBFiles {
  import opened Bytes
  import opened Blocks
  import opened HeapChain
  import opened Ownership
  import opened RowCodec
  import opened RowList
  import opened RowTransfer
  import opened SlotScan
  import opened TableOps
  import opened TableStates
  import opened Values
  import H = HeapBlocks
  import M = MappedFiles

  class EDBFile {
    const file: M.MappedFile
    var columns: seq<Column>
    var firstRow: Ptr
    var lastRow: Ptr
    var rowCount: nat
    var tableName: Span
    /** The slots of the rows, in list order. */
    ghost var rows: seq<Slot>
    /** Spans in use that nothing refers to: what failed insertions left behind. */
    ghost var leaked: multiset<Span>

    var lastTableBlock: nat
    var lastHeapBlock: nat

    ghost predicate ChainsValid()
      reads this, file
    {
      file.Valid() && Chains(file.blocks, lastTableBlock, lastHeapBlock)
    }

    ghost predicate HeapValid()
      reads this, file
    {
      ChainsValid() && IsType(file.blocks, 1, TABLE) && IsType(file.blocks, 2, HEAP)
    }

    constructor (file: M.MappedFile)
      ensures this.file == file && columns == [] && rows == [] && rowCount == 0 && leaked == multiset{}
      ensures firstRow == NULL && lastRow == NULL && lastTableBlock == 0 && lastHeapBlock == 0
    {
      this.file := file;
      columns, rows, rowCount, leaked := [], [], 0, multiset{};
      firstRow, lastRow, tableName := NULL, NULL, Span(NULL, 0);
      lastTableBlock, lastHeapBlock := 0, 0;
    }

    /** Appends a block of type `t` behind the last block of that type. The scan for a free block
        is the source's; what it finds is discarded. */
    method AllocateBlock(t: byte) returns (ok: bool, b: nat)
      requires ChainsValid() && (t == TABLE || t == HEAP)
      modifies file, `lastTableBlock, `lastHeapBlock
      ensures ChainsValid()
      ensures ok == (|old(file.blocks)| < file.capacity)
      ensures ok ==>
                && b == |old(file.blocks)| + 1
                && file.blocks == Appended(old(file.blocks), t,
                   old(if t == TABLE then lastTableBlock else lastHeapBlock), file.blockSize)
                && lastTableBlock == (if t == TABLE then b else old(lastTableBlock))
                && lastHeapBlock == (if t == HEAP then b else old(lastHeapBlock))
      ensures !ok ==>
                && file.blocks == old(file.blocks)
                && lastTableBlock == old(lastTableBlock) && lastHeapBlock == old(lastHeapBlock)
    {
      hide Type, M.Maps, H.Fresh, Splice, Appended, Chains, Written, LE;
      FindFree();
      ghost var bl := file.blocks;
      var last := if t == TABLE then lastTableBlock else lastHeapBlock;
      ok := file.Expand();
      if !ok {
        return false, 0;
      }
      b := file.blockCount - 1;
      ChainsEnds(bl, lastTableBlock, lastHeapBlock);
      BuildsAppended(bl, t, last, file.blockSize);
      AppendedChains(bl, t, file.blockSize, lastTableBlock, lastHeapBlock);
      WriteLinks(t, last, b);
      if t == TABLE {
        lastTableBlock := b;
      } else {
        lastHeapBlock := b;
        InitHeapBlock(b);
      }
    }

    /** Makes `b` the successor of `last` (if there is one) and writes its type and predecessor. */
    method WriteLinks(t: byte, last: nat, b: nat)
      requires file.Valid() && InFile(file.blocks, b) && (last == 0 || InFile(file.blocks, last))
      modifies file`data, file`blocks
      ensures file.Valid()
      ensures last != 0 ==> |At(old(file.blocks), last)| == file.blockSize
      ensures var bl := old(file.blocks);
              var bl1 := if last == 0 then bl else Written(bl, Ptr(last, 5), LE(b, 4));
              |At(bl1, b)| == file.blockSize && file.blocks == Written(bl1, Ptr(b, 0), [t] + LE(last, 4))
    {
      hide M.Maps, LE, Splice;
      if last != 0 {
        file.Write(Ptr(last, 5), LE(b, 4));
      }
      file.Write(Ptr(b, 0), [t] + LE(last, 4));
    }

    method InitHeapBlock(b: nat)
      requires file.Valid() && InFile(file.blocks, b)
      modifies file`data, file`blocks
      ensures file.Valid() && |At(old(file.blocks), b)| == file.blockSize
      ensures file.blocks == Written(old(file.blocks), Ptr(b, BLOCK_HEADER), H.Fresh(file.blockSize - BLOCK_HEADER))
    {
      hide M.Maps, H.Fresh, Splice;
      var heapBlock := new H.HeapBlock(Zeros(file.blockSize - BLOCK_HEADER));
      heapBlock.Init();
      file.Write(Ptr(b, BLOCK_HEADER), heapBlock.data[..]);
    }

    method FindFree()
      requires file.Valid()
    {
      for s := 1 to file.blockCount {
        var ty := file.Read(Ptr(s, 0), 1);
        if ty[0] == FREE {
          break;
        }
      }
    }

    /** `HeapBlock::alloc` on one block of the chain, on a private copy that is written back. */
    method AllocIn(b: nat, size: nat) returns (r: H.AllocResult)
      requires ChainsValid() && IsType(file.blocks, b, HEAP)
      modifies file
      ensures ChainsValid()
      ensures var bl := old(file.blocks);
              var p := Payload(At(bl, b));
              && H.Tiled(p, 0) && |At(bl, b)| == file.blockSize
              && var h := H.FirstFit(p, 0, size);
                 if h < 0 then r == H.NoRoom && file.blocks == bl
                 else r == H.At(h + H.HEADER) && file.blocks == bl[b - 1 := WithPayload(At(bl, b), H.Carve(p, h, size))]
    {
      hide Type, Chained, M.Maps, H.Carve, Payload;
      ghost var bl := file.blocks;
      var blk := file.Read(Ptr(b, 0), file.blockSize);
      assert blk == At(bl, b);
      var heapBlock := new H.HeapBlock(Payload(blk));
      r := heapBlock.Alloc(size);
      BlockFlush(bl, b, heapBlock.data[..]);
      file.Write(Ptr(b, 0), blk[..BLOCK_HEADER] + heapBlock.data[..]);
      if 0 <= H.FirstFit(Payload(blk), 0, size) {
        H.CarveEffect(Payload(blk), size, 0, 0, 0);
        PayloadChains(bl, b, H.Carve(Payload(blk), H.FirstFit(Payload(blk), 0, size), size), lastTableBlock,
            lastHeapBlock);
      }
    }

    /** `Heap::alloc`. A request is served exactly when a fresh block could serve it and, if the disk is
        full, some block has room for it: the guard lets through requests that end in the unreachable
        branch instead. No corruption is ever reported. */
    method HeapAllocate(size: nat) returns (r: HeapResult)
      requires HeapValid()
      modifies file, `lastTableBlock, `lastHeapBlock
      ensures lastTableBlock == old(lastTableBlock)
      ensures HeapValid() && HeapOnly(old(file.blocks), file.blocks)
      ensures r.Allocated? ==> r.span.size == size && Grown(old(file.blocks), file.blocks, multiset{r.span})
      ensures !r.Allocated? ==> Grown(old(file.blocks), file.blocks, multiset{})
      ensures r.Allocated? ==> forall b: nat | b < r.span.ptr.block
              && InFile(old(file.blocks), b) :: NoFit(old(file.blocks), b, size)
      ensures if r.Allocated? then GapStep(old(file.blocks), file.blocks, size) else GapFull(old(file.blocks), size)
      ensures var fits := Fits(size, file.blockSize);
              var full := |old(file.blocks)| == file.capacity;
              var served := exists b: nat :: !NoFit(old(file.blocks), b, size);
              match r
              case Allocated(_) => fits && (served || !full)
              case BigBlocksTodo => file.blockSize < size + H.HEADER
              case DiskFull => full && !served && size + H.HEADER <= file.blockSize
              case Unreachable => !fits && !full && size + H.HEADER <= file.blockSize
              case Corruption => false
    {
      if size > file.blockSize - H.HEADER {
        GrownRefl(file.blocks);
        GapTooSmall(file.blocks, size, file.blockSize);
        return BigBlocksTodo;
      }
      var s := HeapSearch(size);
      match s {
        case Found(at) => return Allocated(Span(at, size));
        case Corrupt => return Corruption;
        case Exhausted =>
      }
      GapExhausted(file.blocks, size, file.blockSize);
      r := HeapExtend(size);
    }

    /** `AllocIn`, seen as what it does to the spans in use. */
    method TryBlock(b: nat, size: nat) returns (r: H.AllocResult)
      requires HeapValid() && IsType(file.blocks, b, HEAP)
      modifies file
      ensures HeapValid() && H.Tiled(Payload(At(old(file.blocks), b)), 0)
      ensures var h := H.FirstFit(Payload(At(old(file.blocks), b)), 0, size);
              if h < 0 then r == H.NoRoom && file.blocks == old(file.blocks)
              else
                && r == H.At(h + H.HEADER)
                && HeapOnly(old(file.blocks), file.blocks)
                && Grown(old(file.blocks), file.blocks, multiset{Span(Ptr(b, r.offset + BLOCK_HEADER), size)})
                && Fits(size, file.blockSize)
                && GapStep(old(file.blocks), file.blocks, size)
    {
      hide Type, H.Tiled, H.FirstFit, Payload, Grown, M.Maps, WithPayload, GapStep;
      ghost var bl := file.blocks;
      r := AllocIn(b, size);
      if r.At? {
        GapFound(bl, b, size);
        FoundIn(bl, b, size, file.blockSize, lastTableBlock, lastHeapBlock);
      }
    }

    /** Appends an empty heap block. */
    method AddHeapBlock(ghost size: nat) returns (ok: bool, b: nat)
      requires HeapValid()
      modifies file, `lastTableBlock, `lastHeapBlock
      ensures lastTableBlock == old(lastTableBlock)
      ensures HeapValid() && HeapOnly(old(file.blocks), file.blocks)
      ensures Grown(old(file.blocks), file.blocks, multiset{})
      ensures ok == (|old(file.blocks)| < file.capacity)
      ensures ok ==>
                && IsType(file.blocks, b, HEAP) && |file.blocks| == |old(file.blocks)| + 1
                && H.Tiled(Payload(At(file.blocks, b)), 0)
                && (0 <= H.FirstFit(Payload(At(file.blocks, b)), 0, size)
                   <==> Fits(size, file.blockSize))
    {
      hide Type, H.Tiled, H.FirstFit, Payload, Grown, M.Maps, Appended, HeapOnly;
      ghost var bl := file.blocks;
      ghost var last := lastHeapBlock;
      ok, b := AllocateBlock(HEAP);
      GrownRefl(bl);
      if ok {
        FreshBlockAnswers(bl, last, size, file.blockSize);
        HeapOnlyTypes(bl, file.blocks);
      }
    }

    /** No existing block has room: a new heap block is appended and asked. */
    method HeapExtend(size: nat) returns (r: HeapResult)
      requires HeapValid() && size + H.HEADER <= file.blockSize
      modifies file, `lastTableBlock, `lastHeapBlock
      ensures lastTableBlock == old(lastTableBlock)
      ensures HeapValid() && HeapOnly(old(file.blocks), file.blocks)
      ensures r.Allocated? ==> r.span.size == size && Grown(old(file.blocks), file.blocks, multiset{r.span})
      ensures !r.Allocated? ==> Grown(old(file.blocks), file.blocks, multiset{})
      ensures var fits := Fits(size, file.blockSize);
              var full := |old(file.blocks)| == file.capacity;
              !r.Corruption? && !r.BigBlocksTodo? && (r.DiskFull? <==> full) && (r.Allocated? <==> fits && !full)
      ensures r.Allocated? ==> |file.blocks| > |old(file.blocks)|
    {
      hide Type, H.Tiled, H.FirstFit, Payload, Grown, HeapOnly, Chains, M.Maps;
      ghost var bl := file.blocks;
      var ok, b := AddHeapBlock(size);
      if !ok {
        return DiskFull;
      }
      ghost var bl1 := file.blocks;
      var a := TryBlock(b, size);
      match a {
        case At(o) =>
          r := Allocated(Span(Ptr(b, o + BLOCK_HEADER), size));
          GrownAfterNothing(bl, bl1, file.blocks, multiset{r.span});
          HeapOnlyTrans(bl, bl1, file.blocks);
          HeapOnlyTypes(bl1, file.blocks);
        case NoRoom => return Unreachable;
        case _ => return Corruption;
      }
    }

    /** The search through the heap blocks in chain order. */
    method HeapSearch(size: nat) returns (r: SearchResult)
      requires HeapValid()
      modifies file
      ensures HeapValid() && !r.Corrupt?
      ensures r.Found? ==>
                && HeapOnly(old(file.blocks), file.blocks)
                && Grown(old(file.blocks), file.blocks, multiset{Span(r.at, size)})
                && Fits(size, file.blockSize)
                && GapStep(old(file.blocks), file.blocks, size)
                && !NoFit(old(file.blocks), r.at.block, size)
                && forall b: nat | b < r.at.block :: NoFit(old(file.blocks), b, size)
      ensures r.Exhausted? ==> file.blocks == old(file.blocks) && forall b: nat :: NoFit(file.blocks, b, size)
    {
      hide Val, H.Tiled, H.FirstFit, Payload, Grown, M.Maps, WithPayload, Gap;
      ghost var bl := file.blocks;
      var current := 2;
      while true
        invariant file.blocks == bl && HeapValid() && IsType(bl, current, HEAP)
        invariant forall b: nat | b < current :: NoFit(bl, b, size)
        decreases |bl| - current
      {
        var ty := file.Read(Ptr(current, 0), 1);
        if ty[0] != HEAP {
          return Corrupt;
        }
        var a := TryBlock(current, size);
        match a {
          case At(o) => return Found(Ptr(current, o + BLOCK_HEADER));
          case NoRoom =>
          case _ => return Corrupt;
        }
        assert NoFit(bl, current, size);
        var next := file.Read(Ptr(current, 5), 4);
        NextInChain(bl, current, lastHeapBlock, size);
        if Val(next) == 0 {
          return Exhausted;
        }
        current := Val(next);
      }
    }

    /** `Heap::free`: the chunk `at`, whose span is `sp`, becomes available again. */
    method HeapFree(at: Ptr, ghost sp: Span)
      requires HeapValid() && InUse(file.blocks, sp) && sp.ptr == at
      modifies file
      ensures HeapValid() && HeapOnly(old(file.blocks), file.blocks)
      ensures Shrunk(old(file.blocks), file.blocks, multiset{sp})
    {
      hide Type, M.Maps, H.MarkFreed, WithPayload, Payload;
      ghost var bl := file.blocks;
      var b := at.block;
      FreeShrinks(bl, sp);
      var blk := file.Read(Ptr(b, 0), file.blockSize);
      assert blk == At(bl, b);
      var heapBlock := new H.HeapBlock(Payload(blk));
      heapBlock.Free(at.off - BLOCK_HEADER);
      BlockFlush(bl, b, heapBlock.data[..]);
      PayloadChains(bl, b, heapBlock.data[..], lastTableBlock, lastHeapBlock);
      file.Write(Ptr(b, 0), blk[..BLOCK_HEADER] + heapBlock.data[..]);
    }

    /** `copy_to_heap`: allocates exactly the bytes of `s` and fills them. */
    method CopyToHeap(s: seq<byte>) returns (r: HeapResult)
      requires HeapValid()
      modifies file, `lastTableBlock, `lastHeapBlock
      ensures lastTableBlock == old(lastTableBlock)
      ensures HeapValid() && HeapOnly(old(file.blocks), file.blocks)
      ensures r.Allocated? ==>
                && r.span.size == |s| && Content(file.blocks, r.span) == s
                && Grown(old(file.blocks), file.blocks, multiset{r.span})
                && InUse(file.blocks, r.span)
      ensures !r.Allocated? ==> Grown(old(file.blocks), file.blocks, multiset{})
      ensures r.Allocated? ==> Fits(|s|, file.blockSize)
      ensures if r.Allocated? then GapStep(old(file.blocks), file.blocks, |s|) else GapFull(old(file.blocks), |s|)
      ensures !r.Allocated? ==> (if r.DiskFull? then |file.blocks| == file.capacity else !Fits(|s|, file.blockSize))
      ensures !r.Corruption?
    {
      hide Type, M.Maps, Grown, HeapOnly, Chains, InUse, Content, Written, GapStep;
      ghost var bl := file.blocks;
      r := HeapAllocate(|s|);
      HeapOnlyTypes(bl, file.blocks);
      if r.Allocated? {
        ghost var bl1 := file.blocks;
        FillGrows(bl, bl1, r.span, s);
        InUseSized(bl1, r.span);
        FillChains(bl1, r.span, s, lastTableBlock, lastHeapBlock);
        FillSpan(bl1, r.span, s, r.span);
        GapCopied(bl, bl1, r.span, s);
        file.Write(r.span.ptr, s);
        HeapOnlyTrans(bl, bl1, file.blocks);
        HeapOnlyTypes(bl1, file.blocks);
      }
    }

    /** The stored form of one value; a varchar is copied to the heap. */
    method MakeField(c: Column, v: Value) returns (r: HeapResult, f: Field)
      requires HeapValid() && ValueOk(c, v)
      modifies file, `lastTableBlock, `lastHeapBlock
      ensures lastTableBlock == old(lastTableBlock)
      ensures HeapValid() && HeapOnly(old(file.blocks), file.blocks)
      ensures Grown(old(file.blocks), file.blocks, if r.Allocated? then SpanOf(f) else multiset{})
      ensures r.Allocated? ==> FieldOk(c, f) && ValueOf(file.blocks, f) == Stored(v) && StaysSame(file.blocks, f)
      ensures r.Allocated? ==> (f.SpanField? <==> v.Varchar?)
      ensures r.Allocated? && v.Varchar? ==> Fits(|v.s|, file.blockSize)
      ensures !r.Allocated? ==>
                v.Varchar? && if r.DiskFull? then |file.blocks| == file.capacity else !Fits(|v.s|, file.blockSize)
      ensures !v.Varchar? ==> file.blocks == old(file.blocks)
    {
      hide Chains, Grown, HeapOnly, InUse, Content, M.Maps;
      if v.Varchar? {
        r := CopyToHeap(v.s);
        if r.Allocated? {
          f := SpanField(r.span);
          InUseSized(file.blocks, r.span);
        } else {
          f := NullField;
        }
      } else {
        f := ScalarField(v);
        ScalarFieldStores(c, v, file.blocks);
        GrownRefl(file.blocks);
        r := Allocated(Span(NULL, 0));
      }
    }

    /** `Serializer::write_row`: emits the row's bytes and copies its varchars to the heap. When it
        fails, the varchars copied so far stay in use; `fs` says which they are. */
    method WriteRow(t: Tuple) returns (r: WriteResult, ghost fs: seq<Field>)
      requires HeapValid() && TupleOk(columns, t)
      modifies file, `lastTableBlock, `lastHeapBlock
      ensures lastTableBlock == old(lastTableBlock)
      ensures HeapValid() && HeapOnly(old(file.blocks), file.blocks)
      ensures Grown(old(file.blocks), file.blocks, SpansOf(fs))
      ensures r.RowBytes? ==>
                && FieldsOk(columns, fs) && r.bytes == EncodeRow(columns, fs)
                && ValuesOf(file.blocks, fs) == StoredTuple(t)
                && VarcharsFit(t, file.blockSize)
      ensures r.RowBytes? ==>
                |t| == |fs| && forall c | 0 <= c < |t| ::
                  && (!t[c].Time? ==> ValueOf(file.blocks, fs[c]) == t[c])
                  && (t[c].Time? ==>
                        ValueOf(file.blocks, fs[c]) ==
                        Time(Date(t[c].t.year % 0x1_0000, t[c].t.month % 0x100, t[c].t.day % 0x100, 0, 0, 0)))
      ensures NoVarchar(t) ==> file.blocks == old(file.blocks)
      ensures r.Failed? ==> |SpansOf(fs)| < VarcharCount(t) && !NoVarchar(t)
      ensures r.Failed? && r.error.DiskFull? ==> |file.blocks| == file.capacity
      ensures r.Failed? && !r.error.DiskFull? ==>
                !VarcharsFit(t, file.blockSize) && |SpansOf(fs)| == LeakCount(t, file.blockSize)
    {
      hide Chains, Grown, HeapOnly, M.Maps, SpanOf, FieldOk, ValueOf, Stored, ValueOk, EncodeField, StaysSame;
      ghost var bl := file.blocks;
      GrownRefl(bl);
      fs := [];
      var bytes: seq<byte> := [];
      var s := 0;
      while s < |columns|
        invariant 0 <= s <= |columns| && |fs| == s
        invariant HeapValid() && HeapOnly(bl, file.blocks) && lastTableBlock == old(lastTableBlock)
        invariant Grown(bl, file.blocks, SpansOf(fs))
        invariant RowSoFar(columns, t, s, fs, bytes, file.blocks)
        invariant forall i | 0 <= i < s :: t[i].Varchar? ==> Fits(|t[i].s|, file.blockSize)
        invariant NoVarchar(t) ==> file.blocks == bl
      {
        ghost var bl1 := file.blocks;
        var a, f := MakeField(columns[s], t[s]);
        HeapOnlyTrans(bl, bl1, file.blocks);
        if !a.Allocated? {
          GrownThenNothing(bl, bl1, file.blocks, SpansOf(fs));
          VarcharCountPrefix(t, s);
          if !a.DiskFull? {
            LeakAt(t, file.blockSize, s);
          }
          return Failed(a), fs;
        }
        RowStep(columns, t, s, fs, bytes, f, bl, bl1, file.blocks);
        bytes := bytes + EncodeField(columns[s], f);
        fs := fs + [f];
        s := s + 1;
      }
      assert columns[..s] == columns && t[..s] == t;
      RowFields(t);
      assert forall c | 0 <= c < |t| :: ValueOf(file.blocks, fs[c]) == ValuesOf(file.blocks, fs)[c];
      return RowBytes(bytes), fs;
    }

    /** `RowSpec::free_data`: frees every varchar of a row. It keeps its own offset, which steps over the
        null flag and then over the value; the columns it finds are those the reader finds. */
    method FreeData(row: seq<byte>)
      requires HeapValid() && |row| == RowSize(columns)
      requires OwnsOnce(file.blocks, SpansOf(DecodeRow(columns, row)))
      modifies file
      ensures HeapValid() && HeapOnly(old(file.blocks), file.blocks)
      ensures Shrunk(old(file.blocks), file.blocks, SpansOf(DecodeRow(columns, row)))
    {
      hide Chains, Shrunk, HeapOnly, M.Maps, DecodeField, DecodeRow, OwnsOnce, ReadSoFar, InUse, DecodeSpan, Width,
           ValueSize, SpansOf, RowSize, Val;
      ghost var bl := file.blocks;
      ShrunkRefl(bl);
      ghost var done: seq<Field> := [];
      var s: nat, offset: nat := 0, 0;
      ReadStart(columns, row);
      while s < |columns|
        invariant 0 <= s <= |columns| && ReadSoFar(columns, row, s, offset, done)
        invariant HeapValid() && HeapOnly(bl, file.blocks)
        invariant Shrunk(bl, file.blocks, SpansOf(done))
      {
        ghost var bl1, w := file.blocks, Width(columns[s]);
        ReadStep(columns, row, s, offset, done);
        FieldAt(columns[s], row, offset);
        ghost var f := DecodeField(columns[s], row[offset..offset + w]);
        ghost var rest := DecodeRow(columns[s + 1..], row[offset + w..]);
        var valueSize := ValueSize(columns[s].ty);
        if !columns[s].notNull {
          var isNull := row[offset];
          offset := offset + 1;
          if isNull != 0 {
            ShrunkRefl(bl1);
            FreeStep(bl, bl1, bl1, done, f);
            done := done + [f];
            offset := offset + valueSize;
            s := s + 1;
            continue;
          }
        }
        if columns[s].ty.VarcharType? {
          var span := DecodeSpan(row[offset..offset + valueSize]);
          StillInUse(bl, bl1, done, f, rest);
          HeapFree(span.ptr, span);
        } else {
          ShrunkRefl(bl1);
        }
        FreeStep(bl, bl1, file.blocks, done, f);
        done := done + [f];
        offset := offset + valueSize;
        s := s + 1;
      }
      ReadEnd(columns, row, offset, done);
    }

    // ---- Rows ----

    ghost predicate Valid()
      reads this, file
    {
      && HeapValid()
      && file.blockSize == BlockSizeFor(RowSize(columns))
      && StateOk(file.blocks, columns, rows, firstRow, lastRow, tableName, leaked)
      && rowCount == |rows|
    }

    /** What the file means: its tuples, in order. */
    ghost function Tuples(): (ts: seq<Tuple>)
      requires Valid()
      reads this, file
      ensures |ts| == |rows|
    {
      TuplesIn(file.blocks, columns, rows)
    }

    ghost function Name(): seq<byte>
      reads this, file
    {
      Content(file.blocks, tableName)
    }

    /** Step 1 of `insert`: the first slot position, over all blocks, whose flag byte is zero. */
    method FindPlace() returns (found: bool, p: Ptr, ghost s: Slot)
      requires Valid()
      ensures found ==> FirstFree(file.blocks, RowSize(columns), s) && p == PtrOf(RowSize(columns), s)
      ensures !found ==> forall x: Slot | InScan(file.blocks, x) :: Flag(file.blocks, RowSize(columns), x) != 0
    {
      hide Chains, ListOk, CountOk, Owned, M.Maps, AllUsedBefore, SlotOff, Type, Flag;
      FirstSlotOff(RowSize(columns));
      if lastRow.IsNull() {
        EmptyListIsFree(file.blocks, RowSize(columns), rows, firstRow, lastRow);
        return true, Ptr(1, FIRST_SLOT), Slot(1, 0);
      }
      found, p, s := ScanBlocks();
    }

    method ScanBlocks() returns (found: bool, p: Ptr, ghost s: Slot)
      requires file.Valid() && file.blockSize == BlockSizeFor(RowSize(columns)) && InFile(file.blocks, 1)
      ensures found ==> FirstFree(file.blocks, RowSize(columns), s) && p == PtrOf(RowSize(columns), s)
      ensures !found ==> forall x: Slot | InScan(file.blocks, x) :: Flag(file.blocks, RowSize(columns), x) != 0
    {
      hide M.Maps, AllUsedBefore, SlotOff, Type, Flag, RowSize;
      ghost var bl := file.blocks;
      var rs := RowSize(columns);
      FirstSlotOff(rs);
      p := Ptr(1, FIRST_SLOT);
      s := Slot(1, 0);
      NothingBefore(bl, rs);
      while true
        invariant InFile(bl, s.block) && s.index <= SLOTS && p == PtrOf(rs, s)
        invariant AllUsedBefore(bl, rs, s)
        decreases |bl| - s.block, SLOTS - s.index
      {
        EndOfBlock(rs, s.index);
        if p.off + SLOT_HEADER + rs > file.blockSize {
          NextBlock(bl, rs, s);
          p := Ptr(p.block + 1, FIRST_SLOT);
          s := Slot(s.block + 1, 0);
          if p.block >= file.blockCount {
            AllVisited(bl, rs, s);
            return false, p, s;
          }
        }
        EndOfBlock(rs, s.index);
        FlagByte(bl, rs, s);
        var spec := file.Read(p, SLOT_HEADER);
        if spec[8] == 0 {
          return true, p, s;
        }
        NextSlot(bl, rs, s);
        p := Ptr(p.block, p.off + SLOT_HEADER + rs);
        s := Slot(s.block, s.index + 1);
      }
    }

    /** Step 2 of `insert`: a new Table block when no position is free. */
    method AddTableBlock() returns (ok: bool, p: Ptr, ghost s: Slot)
      requires Valid()
      modifies file, `lastTableBlock, `lastHeapBlock
      ensures Valid() && Tuples() == old(Tuples()) && Name() == old(Name())
      ensures !ok ==> |file.blocks| == file.capacity
      ensures ok ==> s in Slots(file.blocks, RowSize(columns)) && Slots(file.blocks, RowSize(columns))[s].used == 0
      ensures ok ==> p == PtrOf(RowSize(columns), s)
    {
      hide Chains, ListOk, CountOk, Owned, M.Maps, SlotOff, Type, Appended, Slots, TuplesOf, RawRows, Content;
      ghost var bl := file.blocks;
      ghost var last := lastTableBlock;
      ChainsEnds(bl, lastTableBlock, lastHeapBlock);
      var b;
      ok, b := AllocateBlock(TABLE);
      p := Ptr(b, FIRST_SLOT);
      s := Slot(b, 0);
      FirstSlotOff(RowSize(columns));
      if ok {
        AppendedTypes(bl, last, file.blockSize);
        TableGrowth(bl, columns, rows, firstRow, lastRow, tableName, leaked, last);
        AppendedFirstSlot(bl, last, RowSize(columns));
      }
    }

    /** The heap part of step 3 of `insert`: until the row is linked, its varchars are leaked. */
    method StoreRow(t: Tuple) returns (r: WriteResult, ghost fs: seq<Field>)
      requires Valid() && TupleOk(columns, t)
      modifies file, `lastTableBlock, `lastHeapBlock, `leaked
      ensures Valid() && Tuples() == old(Tuples()) && Name() == old(Name())
      ensures leaked == old(leaked) + SpansOf(fs)
      ensures Slots(file.blocks, RowSize(columns)) == Slots(old(file.blocks), RowSize(columns))
      ensures SameOldTypes(old(file.blocks), file.blocks)
      ensures r.RowBytes? ==>
                && FieldsOk(columns, fs) && r.bytes == EncodeRow(columns, fs)
                && ValuesOf(file.blocks, fs) == StoredTuple(t)
                && VarcharsFit(t, file.blockSize)
      ensures NoVarchar(t) ==> r.RowBytes? && file.blocks == old(file.blocks)
      ensures r.Failed? ==> |SpansOf(fs)| < VarcharCount(t)
      ensures r.Failed? && r.error.DiskFull? ==> |file.blocks| == file.capacity
      ensures r.Failed? && !r.error.DiskFull? ==>
                !VarcharsFit(t, file.blockSize) && |SpansOf(fs)| == LeakCount(t, file.blockSize)
    {
      hide Chains, ListOk, CountOk, Owned, M.Maps, Slots, TuplesOf, RawRows, Content, Grown, HeapOnly, FieldsOk,
           EncodeRow, ValuesOf, VarcharsFit, LeakCount, SpansOf, StoredTuple, TupleOk, NoVarchar, VarcharCount;
      ghost var bl := file.blocks;
      r, fs := WriteRow(t);
      HeapGrowth(bl, file.blocks, columns, rows, firstRow, lastRow, tableName, leaked, SpansOf(fs));
      HeapOnlySlots(bl, file.blocks, RowSize(columns));
      HeapOnlyTypes(bl, file.blocks);
      leaked := leaked + SpansOf(fs);
    }

    /** Steps 3 to 5 of `insert`, once the bytes of the row are known: write the slot, point the
        last row (or the header) to it, count it. */
    method LinkRow(p: Ptr, bytes: seq<byte>, ghost s: Slot)
      requires Valid() && InScan(file.blocks, s) && p == PtrOf(RowSize(columns), s) && |bytes| == RowSize(columns)
      modifies `firstRow, `lastRow, `rowCount, file`data, file`blocks
      ensures file.Valid() && file.blocks == LinkedIn(old(file.blocks), p, old(lastRow), bytes)
      ensures firstRow == if rows == [] then p else old(firstRow)
      ensures lastRow == p
      ensures rowCount == |rows| + 1
      ensures SameTypes(old(file.blocks), file.blocks)
    {
      hide Chains, CountOk, Owned, M.Maps, Slots, SlotOff, Splice, EncodePtr, EncodeSpec, Type, ListOk, AllIn,
           InBlock, Written;
      ghost var bl := file.blocks;
      ghost var rs := RowSize(columns);
      LinkBounds(bl, rs, rows, firstRow, lastRow, s);
      RowCountFits(bl, rs, rows, firstRow, lastRow);
      LinkedInTypes(bl, p, lastRow, bytes);
      PutInBlock(bl, p, Row1(bytes));
      file.Write(p, Row1(bytes));
      if !lastRow.IsNull() {
        PutInBlock(file.blocks, lastRow, EncodePtr(p));
        file.Write(lastRow, EncodePtr(p));
      } else {
        firstRow := p;
      }
      lastRow := p;
      rowCount := (rowCount + 1) % U64_LIMIT;
      var n := file.Read(Ptr(p.block, ROWS_IN_BLOCK), 1);
      PutInBlock(file.blocks, Ptr(p.block, ROWS_IN_BLOCK), [Up(n[0])]);
      file.Write(Ptr(p.block, ROWS_IN_BLOCK), [Up(n[0])]);
    }

    /** No list of rows makes sense of the file any more. */
    ghost predicate Broken()
      reads this, file
    {
      forall l: seq<Slot>, lk: multiset<Span> :: !StateOk(file.blocks, columns, l, firstRow, lastRow, tableName, lk)
    }

    /** Every Heap block that has a zero byte where the scan reads a flag has a Table block with room in
        front of it. */
    ghost predicate PlaceSafe()
      requires Valid()
      reads this, file
    {
      RoomBeforeHoles(file.blocks, RowSize(columns))
    }

    /** `insert`, once the place is known. */
    method InsertAt(t: Tuple, p: Ptr, ghost s: Slot) returns (r: Outcome)
      requires Valid() && TupleOk(columns, t)
      requires InScan(file.blocks, s) && p == PtrOf(RowSize(columns), s)
      requires IsType(file.blocks, s.block, TABLE) ==>
                 s in Slots(file.blocks, RowSize(columns)) && Slots(file.blocks, RowSize(columns))[s].used == 0
      modifies this, file
      ensures columns == old(columns) && tableName == old(tableName)
      ensures r.Done? ==> VarcharsFit(t, file.blockSize)
      ensures r.Done? && IsType(old(file.blocks), s.block, TABLE) ==>
                && Valid() && Tuples() == old(Tuples()) + [StoredTuple(t)]
                && Name() == old(Name()) && leaked == old(leaked)
      ensures r.Done? && !IsType(old(file.blocks), s.block, TABLE) ==> Broken() && !HeapValid()
      ensures NoVarchar(t) ==> r.Done? && |file.blocks| == |old(file.blocks)|
      ensures r.Error? ==> Valid() && Tuples() == old(Tuples()) && Name() == old(Name())
      ensures r.Error? ==> old(leaked) <= leaked && |leaked| < |old(leaked)| + VarcharCount(t)
      ensures r.Error? && r.error.DiskFull? ==> |file.blocks| == file.capacity
      ensures r.Error? && !r.error.DiskFull? ==>
                !VarcharsFit(t, file.blockSize) && |leaked| == |old(leaked)| + LeakCount(t, file.blockSize)
    {
      hide NoVarchar, VarcharCount, Chains, StateOk, M.Maps, Slots, TuplesIn, Content, FieldsOk, EncodeRow, ValuesOf,
           VarcharsFit, LeakCount, SpansOf, StoredTuple, TupleOk, SlotOff, Type, Broken;
      ghost var bl := file.blocks;
      ghost var lk := leaked;
      var w, fs := StoreRow(t);
      if w.Failed? {
        return Error(w.error);
      }
      SameTypeThere(bl, file.blocks, s.block, TABLE);
      PlaceRow(p, w.bytes, s, fs, lk);
      r := Done;
    }

    /** Links the row and hands the spans allocated for it over to it. */
    method PlaceRow(p: Ptr, bytes: seq<byte>, ghost s: Slot, ghost fs: seq<Field>, ghost lk: multiset<Span>)
      requires Valid() && leaked == lk + SpansOf(fs) && FieldsOk(columns, fs) && bytes == EncodeRow(columns, fs)
      requires InScan(file.blocks, s) && p == PtrOf(RowSize(columns), s)
      requires IsType(file.blocks, s.block, TABLE) ==>
                 s in Slots(file.blocks, RowSize(columns)) && Slots(file.blocks, RowSize(columns))[s].used == 0
      modifies `firstRow, `lastRow, `rowCount, `rows, `leaked, file`data, file`blocks
      ensures |file.blocks| == |old(file.blocks)|
      ensures if IsType(old(file.blocks), s.block, TABLE)
              then Valid() && Tuples() == old(Tuples()) + [ValuesOf(old(file.blocks), fs)] && Name() == old(Name())
                  && leaked == lk
              else Broken() && !HeapValid()
    {
      hide Chains, ListOk, CountOk, M.Maps, Slots, TuplesOf, RawRows, Content, Grown, LinkedIn, FieldsOk, EncodeRow,
           ValuesOf, SpansOf, SlotOff, Type, SameTypes, Owned;
      ghost var bl := file.blocks;
      ghost var isTable := IsType(bl, s.block, TABLE);
      if isTable {
        InsertState(bl, columns, rows, firstRow, lastRow, tableName, lk, s, fs, lastTableBlock, lastHeapBlock);
      }
      LinkBounds(bl, RowSize(columns), rows, firstRow, lastRow, s);
      ghost var oldLast := lastRow;
      LinkRow(p, bytes, s);
      if isTable {
        KeptHeap(bl, file.blocks, lastTableBlock, lastHeapBlock);
      } else {
        SameTypeHere(bl, file.blocks, s.block, TABLE);
        HeapHit(bl, file.blocks, p, oldLast, bytes, s.block);
        BrokenList(file.blocks, columns, firstRow, lastRow, tableName);
      }
      leaked := lk;
      rows := rows + [s];
    }

    /** Appends a row. When it reports success the file is sound and holds the row at its end
        exactly if there was room in a Table block in front of every Heap block with a hole; otherwise
        a Heap block was overwritten: its chunks are no tiling and no list of rows explains the file.
        When it fails the tuples are unchanged, and the varchars copied before the one that is too long
        are leaked. A row without varchars for which there is a place, be it in a Heap block, never
        fails. */
    method Insert(t: Tuple) returns (r: Outcome)
      requires Valid() && TupleOk(columns, t)
      modifies this, file
      ensures columns == old(columns) && tableName == old(tableName)
      ensures r.Done? ==> VarcharsFit(t, file.blockSize)
      ensures r.Done? && old(PlaceSafe()) ==>
                && Valid() && Tuples() == old(Tuples()) + [StoredTuple(t)]
                && Name() == old(Name()) && leaked == old(leaked)
      ensures r.Done? && old(PlaceSafe()) ==>
                var n := |old(Tuples())|;
                |Tuples()| == n + 1 && |Tuples()[n]| == |t| && forall c | 0 <= c < |t| ::
                  && (!t[c].Time? ==> Tuples()[n][c] == t[c])
                  && (t[c].Time? ==>
                        Tuples()[n][c] ==
                        Time(Date(t[c].t.year % 0x1_0000, t[c].t.month % 0x100, t[c].t.day % 0x100, 0, 0, 0)))
      ensures r.Done? && !old(PlaceSafe()) ==> Broken() && !HeapValid()
      ensures NoVarchar(t) && (old(|rows|) < SLOTS || !old(PlaceSafe())) ==>
                r.Done? && |file.blocks| == |old(file.blocks)|
      ensures r.Error? ==> Valid() && Tuples() == old(Tuples()) && Name() == old(Name())
      ensures r.Error? ==> old(leaked) <= leaked && |leaked| <= |old(leaked)| + VarcharCount(t)
      ensures r.Error? && r.error.DiskFull? ==> |file.blocks| == file.capacity
      ensures r.Error? && !r.error.DiskFull? ==>
                !VarcharsFit(t, file.blockSize) && |leaked| == |old(leaked)| + LeakCount(t, file.blockSize)
    {
      hide Chains, ListOk, CountOk, M.Maps, Slots, TuplesOf, RawRows, Content, VarcharsFit, LeakCount, StoredTuple,
           TupleOk, SlotOff, Type, Flag, StateOk, PlaceIsSafe, FirstFree, RoomBeforeHoles, NoVarchar, VarcharCount;
      ghost var bl := file.blocks;
      RowFields(t);
      var found, p, s := FindPlace();
      SafeHere();
      if found {
        PlaceFound(bl, RowSize(columns), s);
      } else {
        PlaceNotFound(bl, RowSize(columns));
        var ok;
        ok, p, s := AddTableBlock();
        if !ok {
          return Error(DiskFull);
        }
      }
      r := InsertAt(t, p, s);
    }

    /** What `PlaceSafe` says of the scan, and that it finds a place below 255 rows. */
    lemma SafeHere()
      requires Valid()
      ensures PlaceSafe() <==> PlaceIsSafe(file.blocks, RowSize(columns))
      ensures |rows| < SLOTS ==>
                exists x: Slot :: InScan(file.blocks, x) && Flag(file.blocks, RowSize(columns), x) == 0
    {
      hide StateOk, Chained, Tiled, PlaceIsSafe, RoomBeforeHoles, Flag, Type, M.Maps;
      SafeExactly(file.blocks, columns, rows, firstRow, lastRow, tableName, leaked);
      if |rows| < SLOTS {
        var x := RoomInBlockOne(file.blocks, columns, rows, firstRow, lastRow, tableName, leaked);
      }
    }

    /** The row specification in a slot of a Table block. */
    method ReadSpec(p: Ptr, ghost s: Slot) returns (spec: RowSpec)
      requires file.Valid() && file.blockSize == BlockSizeFor(RowSize(columns))
      requires IsSlot(file.blocks, s) && p == PtrOf(RowSize(columns), s)
      ensures s in Slots(file.blocks, RowSize(columns)) && spec == Slots(file.blocks, RowSize(columns))[s]
      ensures |spec.row| == RowSize(columns)
    {
      hide M.Maps, SlotOff, DecodePtr, Type, SpecAt;
      SpecRead(At(file.blocks, s.block), RowSize(columns), s.index);
      var bytes := file.Read(p, SLOT_HEADER + RowSize(columns));
      spec := DecodeSpec(bytes);
    }

    /** Steps 3 to 6 of `remove`: point the predecessor (or the header) past the row, count it out,
        write back its slot as unused. */
    method UnlinkRow(p: Ptr, prev: Ptr, spec: RowSpec, ghost i: nat)
      requires Linkable(i, p, prev) && |spec.row| == RowSize(columns)
      modifies `firstRow, `lastRow, `rowCount, file`data, file`blocks
      ensures file.Valid() && file.blocks == UnlinkedFrom(old(file.blocks), p, prev, spec)
      ensures firstRow == if i == 0 then spec.next else old(firstRow)
      ensures lastRow == if spec.next.IsNull() then prev else old(lastRow)
      ensures rowCount == old(rowCount) - 1
    {
      hide Chains, M.Maps, SlotOff, Splice, EncodePtr, EncodeSpec, Type, InBlock, Written, RowSize;
      ghost var bl := file.blocks;
      RowBounds(bl, RowSize(columns), rows, i);
      if !prev.IsNull() {
        PutInBlock(bl, prev, EncodePtr(spec.next));
        file.Write(prev, EncodePtr(spec.next));
      } else {
        firstRow := spec.next;
      }
      var n := file.Read(Ptr(p.block, ROWS_IN_BLOCK), 1);
      PutInBlock(file.blocks, Ptr(p.block, ROWS_IN_BLOCK), [Down(n[0])]);
      file.Write(Ptr(p.block, ROWS_IN_BLOCK), [Down(n[0])]);
      if spec.next.IsNull() {
        lastRow := prev;
      }
      rowCount := rowCount - 1;
      PutInBlock(file.blocks, p, EncodeSpec(spec.(used := 0)));
      file.Write(p, EncodeSpec(spec.(used := 0)));
    }

    /** `p` is the slot of row `i`, and `prev` that of its predecessor (null for the first row). */
    ghost predicate Linkable(i: nat, p: Ptr, prev: Ptr)
      reads this, file
    {
      && file.Valid() && file.blockSize == BlockSizeFor(RowSize(columns)) && rowCount == |rows|
      && i < |rows| && (forall j: nat | j < |rows| :: IsSlot(file.blocks, rows[j]))
      && p == PtrOf(RowSize(columns), rows[i])
      && prev == if i == 0 then NULL else PtrOf(RowSize(columns), rows[i - 1])
    }

    /** Reads the specification of row `i` and frees what the row refers to. */
    method FreeRow(p: Ptr, ghost i: nat) returns (spec: RowSpec)
      requires Valid() && i < |rows| && p == PtrOf(RowSize(columns), rows[i])
      modifies file
      ensures HeapValid() && HeapOnly(old(file.blocks), file.blocks)
      ensures Shrunk(old(file.blocks), file.blocks,
                     SpansIn(columns, RawRows(old(file.blocks), RowSize(columns), rows)[i]))
      ensures Slots(file.blocks, RowSize(columns)) == Slots(old(file.blocks), RowSize(columns))
      ensures forall j: nat | j < |rows| :: IsSlot(file.blocks, rows[j])
      ensures rows[i] in Slots(file.blocks, RowSize(columns))
      ensures spec == Slots(file.blocks, RowSize(columns))[rows[i]] && |spec.row| == RowSize(columns)
    {
      hide Chains, ListOk, CountOk, M.Maps, TuplesOf, RawRows, Content, Grown, Shrunk, SlotOff, Type, Owned, SpansIn,
           SpansOf, DecodeRow, HeapOnly, SpecAt, InUse, Slots, RowSize;
      ghost var bl := file.blocks;
      ListedSlots(bl, RowSize(columns), rows, firstRow, lastRow);
      RowOwns(bl, columns, rows, firstRow, lastRow, tableName, leaked, i);
      spec := ReadSpec(p, rows[i]);
      FreeData(spec.row);
      HeapOnlySlots(bl, file.blocks, RowSize(columns));
      HeapOnlyTypes(bl, file.blocks);
    }

    /** Removes row `i`, given by its slot and its predecessor's. */
    method Remove(p: Ptr, prev: Ptr, ghost i: nat)
      requires Valid() && i < |rows| && p == PtrOf(RowSize(columns), rows[i])
      requires prev == if i == 0 then NULL else PtrOf(RowSize(columns), rows[i - 1])
      modifies `firstRow, `lastRow, `rowCount, `rows, file
      ensures Valid()
      ensures rows == old(rows)[..i] + old(rows)[i + 1..]
      ensures Tuples() == old(Tuples())[..i] + old(Tuples())[i + 1..]
      ensures Name() == old(Name())
    {
      hide Chains, ListOk, CountOk, M.Maps, TuplesOf, RawRows, Content, Grown, Shrunk, UnlinkedFrom, SlotOff, Type,
           SameTypes, Owned, SpansIn, SpansOf, DecodeRow, HeapOnly, SpecAt, InUse, Slots, RowSize;
      ghost var bl := file.blocks;
      var spec := FreeRow(p, i);
      ghost var bl1 := file.blocks;
      RemoveState(bl, bl1, columns, rows, firstRow, lastRow, tableName, leaked, i, lastTableBlock, lastHeapBlock);
      UnlinkRow(p, prev, spec, i);
      KeptHeap(bl1, file.blocks, lastTableBlock, lastHeapBlock);
      rows := rows[..i] + rows[i + 1..];
    }

    /** The write-back of a row reference: frees the old row's heap data, writes the new row to the
        heap, and replaces the bytes of the slot. The slot is taken to be written through the file,
        not through a mapping that the heap may have outgrown. When it fails, the file is sound exactly
        if the old row had no varchars; otherwise the row still refers to chunks that were freed. */
    method WriteBack(p: Ptr, t: Tuple, ghost i: nat) returns (r: Outcome)
      requires Valid() && i < |rows| && p == PtrOf(RowSize(columns), rows[i]) && TupleOk(columns, t)
      modifies file, `lastTableBlock, `lastHeapBlock, `leaked
      ensures r.Done? ==>
                && Valid() && Tuples() == old(Tuples())[i := StoredTuple(t)]
                && Name() == old(Name()) && leaked == old(leaked)
      ensures r.Done? ==>
                |Tuples()[i]| == |t| && forall c | 0 <= c < |t| ::
                  && (!t[c].Time? ==> Tuples()[i][c] == t[c])
                  && (t[c].Time? ==>
                        Tuples()[i][c] ==
                        Time(Date(t[c].t.year % 0x1_0000, t[c].t.month % 0x100, t[c].t.day % 0x100, 0, 0, 0)))
      ensures r.Done? ==> VarcharsFit(t, file.blockSize)
      ensures r.Error? ==> if r.error.DiskFull? then |file.blocks| == file.capacity else !VarcharsFit(t, file.blockSize)
      ensures r.Error? && NoVarchar(old(Tuples())[i]) ==>
                && Valid() && Tuples() == old(Tuples()) && Name() == old(Name())
                && old(leaked) <= leaked && |leaked| < |old(leaked)| + VarcharCount(t)
                && (!r.error.DiskFull? ==> |leaked| == |old(leaked)| + LeakCount(t, file.blockSize))
      ensures r.Error? && !NoVarchar(old(Tuples())[i]) ==> Broken()
    {
      hide Chains, ListOk, CountOk, M.Maps, TuplesOf, RawRows, Content, Grown, Shrunk, SlotOff, Type, SameTypes,
           Owned, SpansIn, SpansOf, DecodeRow, HeapOnly, SpecAt, InUse, FieldsOk, EncodeRow, EncodeSpec, ValuesOf,
           VarcharsFit, LeakCount, StoredTuple, TupleOk, NoVarchar, VarcharCount, Slots, RowSize;
      ghost var bl := file.blocks;
      ghost var rs := RowSize(columns);
      RowFields(t);
      var spec := FreeRow(p, i);
      ghost var bl1 := file.blocks;
      RowBounds(bl1, rs, rows, i);
      var w, fs := WriteRow(t);
      HeapOnlyTypes(bl1, file.blocks);
      if w.Failed? {
        WriteBackFailed(bl, bl1, i, SpansOf(fs));
        leaked := leaked + SpansOf(fs);
        return Error(w.error);
      }
      RewriteState(bl, bl1, file.blocks, columns, rows, firstRow, lastRow, tableName, leaked, i, fs, lastTableBlock,
          lastHeapBlock);
      WriteSlot(p, spec.(row := w.bytes), rows[i]);
      r := Done;
    }

    lemma WriteBackFailed(bl: seq<Block>, bl1: seq<Block>, i: nat, n: multiset<Span>)
      requires StateOk(bl, columns, rows, firstRow, lastRow, tableName, leaked) && i < |rows|
      requires HeapOnly(bl, bl1) && Shrunk(bl, bl1, SpansIn(columns, RawRows(bl, RowSize(columns), rows)[i]))
      requires HeapOnly(bl1, file.blocks) && Grown(bl1, file.blocks, n)
      requires Sized(bl1, BlockSizeFor(RowSize(columns))) && Sized(file.blocks, BlockSizeFor(RowSize(columns)))
      ensures if NoVarchar(TuplesIn(bl, columns, rows)[i])
              then
                && StateOk(file.blocks, columns, rows, firstRow, lastRow, tableName, leaked + n)
                && TuplesIn(file.blocks, columns, rows) == TuplesIn(bl, columns, rows)
                && Content(file.blocks, tableName) == Content(bl, tableName)
              else Broken()
    {
      hide ListOk, CountOk, Owned, HeapOnly, Shrunk, Grown, SpansIn, RawRows, NoVarchar, Content, FieldsOf, SpansOf,
           TuplesOf, Slots, InUse;
      var row := RawRows(bl, RowSize(columns), rows)[i];
      OwnsNothing(bl, FieldsOf(columns, row));
      RowTuple(bl, columns, rows, i);
      RowSpans(columns, row);
      if NoVarchar(TuplesIn(bl, columns, rows)[i]) {
        ShrunkByNothing(bl, bl1);
        HeapGrowth(bl, bl1, columns, rows, firstRow, lastRow, tableName, leaked, multiset{});
        assert leaked + multiset{} == leaked;
        HeapGrowth(bl1, file.blocks, columns, rows, firstRow, lastRow, tableName, leaked, n);
      } else {
        LostSpans(bl, bl1, file.blocks, columns, rows, firstRow, lastRow, tableName, leaked, i, n);
      }
    }

    method WriteSlot(p: Ptr, spec: RowSpec, ghost s: Slot)
      requires HeapValid() && file.blockSize == BlockSizeFor(RowSize(columns)) && |spec.row| == RowSize(columns)
      requires InFile(file.blocks, s.block) && p == PtrOf(RowSize(columns), s)
               && p.off + SLOT_HEADER + |spec.row| <= file.blockSize
      requires KeepsRest(file.blocks, Put(file.blocks, p, EncodeSpec(spec)), lastTableBlock, lastHeapBlock)
      modifies file`data, file`blocks
      ensures HeapValid() && file.blocks == Put(old(file.blocks), p, EncodeSpec(spec))
    {
      hide Chains, M.Maps, SlotOff, Type, SameTypes, EncodeSpec, Written, InBlock, Grown;
      ghost var bl := file.blocks;
      PutInBlock(bl, p, EncodeSpec(spec));
      file.Write(p, EncodeSpec(spec));
      KeptHeap(bl, file.blocks, lastTableBlock, lastHeapBlock);
    }

    /** Renames the table. The old name is freed before the new one is allocated, so a name that
        does not fit leaves the header pointing to a freed chunk. */
    method Rename(name: seq<byte>) returns (r: Outcome)
      requires Valid()
      modifies file, `lastTableBlock, `lastHeapBlock, `tableName
      ensures r.Done? ==> Valid() && Tuples() == old(Tuples()) && Name() == name && Fits(|name|, file.blockSize)
      ensures r.Error? ==> Broken()
      ensures r.Error? ==> (if r.error.DiskFull? then |file.blocks| == file.capacity else !Fits(|name|, file.blockSize))
    {
      hide Chains, ListOk, CountOk, M.Maps, TuplesOf, RawRows, Content, Grown, Shrunk, Type, Owned, HeapOnly, InUse,
           Slots;
      ghost var bl := file.blocks;
      NameInUse(bl, columns, rows, firstRow, lastRow, tableName, leaked);
      HeapFree(tableName.ptr, tableName);
      ghost var bl1 := file.blocks;
      var a := CopyToHeap(name);
      if a.Allocated? {
        RenameState(bl, bl1, file.blocks, columns, rows, firstRow, lastRow, tableName, a.span, leaked);
        tableName := a.span;
        r := Done;
      } else {
        DanglingName(bl, bl1, file.blocks, columns, firstRow, lastRow, tableName);
        r := Error(a);
      }
    }

    /** `read_heap` of a span in use. */
    method ReadHeap(sp: Span) returns (s: seq<byte>)
      requires file.Valid() && InUse(file.blocks, sp)
      ensures s == Content(file.blocks, sp)
    {
      hide M.Maps, InUse, Type;
      InUseSized(file.blocks, sp);
      s := file.Read(sp.ptr, sp.size);
    }

    /** The reader's loop over the columns of one row. */
    method ReadTuple(row: seq<byte>) returns (t: Tuple)
      requires file.Valid() && |row| == RowSize(columns)
      requires forall sp | sp in SpansOf(DecodeRow(columns, row)) :: InUse(file.blocks, sp)
      ensures t == ValuesOf(file.blocks, DecodeRow(columns, row))
    {
      hide M.Maps, DecodeField, DecodeRow, ReadSoFar, InUse, Content, SpansOf;
      t := [];
      ghost var done: seq<Field> := [];
      var s: nat, offset: nat := 0, 0;
      ReadStart(columns, row);
      while s < |columns|
        invariant 0 <= s <= |columns| && ReadSoFar(columns, row, s, offset, done)
        invariant t == ValuesOf(file.blocks, done)
      {
        ReadStep(columns, row, s, offset, done);
        var w := Width(columns[s]);
        var f := DecodeField(columns[s], row[offset..offset + w]);
        FieldInSpans(done, f, DecodeRow(columns[s + 1..], row[offset + w..]));
        var v := ReadField(f);
        assert ValuesOf(file.blocks, done + [f]) == ValuesOf(file.blocks, done) + [v];
        t := t + [v];
        done := done + [f];
        offset := offset + w;
        s := s + 1;
      }
      ReadEnd(columns, row, offset, done);
    }

    method ReadField(f: Field) returns (v: Value)
      requires file.Valid() && (f.SpanField? ==> InUse(file.blocks, f.span))
      ensures v == ValueOf(file.blocks, f)
    {
      if f.SpanField? {
        var s := ReadHeap(f.span);
        v := Varchar(s);
      } else {
        v := ValueOf([], f);
      }
    }

    /** The row specification of row `i`: in use, and pointing to the next row of the list. */
    method RowAt(p: Ptr, ghost i: nat) returns (spec: RowSpec)
      requires Valid() && i < |rows| && p == PtrOf(RowSize(columns), rows[i])
      ensures spec.used != 0 && spec.next == LinkTo(RowSize(columns), rows, i + 1)
      ensures |spec.row| == RowSize(columns) && spec.row == RawRows(file.blocks, RowSize(columns), rows)[i]
    {
      hide Chains, ListOk, CountOk, M.Maps, SlotOff, Type, Owned, SpansIn, SpansOf, DecodeRow, SpecAt, InUse, Slots,
           RawRows;
      ListedSlot(file.blocks, RowSize(columns), rows, firstRow, lastRow, i);
      RowOwns(file.blocks, columns, rows, firstRow, lastRow, tableName, leaked, i);
      spec := ReadSpec(p, rows[i]);
    }

    /** The tuple of row `i`, read from its bytes and the heap. */
    method TupleOf(row: seq<byte>, ghost i: nat) returns (t: Tuple)
      requires Valid() && i < |rows| && |row| == RowSize(columns)
      requires row == RawRows(file.blocks, RowSize(columns), rows)[i]
      ensures t == Tuples()[i]
    {
      hide Chains, ListOk, CountOk, M.Maps, SlotOff, Type, Owned, SpansIn, SpansOf, DecodeRow, SpecAt, InUse, Slots,
           RawRows, ValuesOf;
      RowOwns(file.blocks, columns, rows, firstRow, lastRow, tableName, leaked, i);
      t := ReadTuple(row);
    }
  }

  lemma FieldInSpans(done: seq<Field>, f: Field, rest: seq<Field>)
    ensures f.SpanField? ==> f.span in SpansOf(done + [f] + rest)
  {
    if f.SpanField? {
      assert (done + [f] + rest)[|done|] == f;
      InSpans(done + [f] + rest, |done|);
    }
  }

  /** A file whose name was freed satisfies the ownership invariant for no list of rows. */
  lemma DanglingName(bl: seq<Block>, bl1: seq<Block>, bl2: seq<Block>, cs: seq<Column>, first: Ptr, last: Ptr,
                     name: Span)
    requires Shrunk(bl, bl1, multiset{name}) && Grown(bl1, bl2, multiset{})
    ensures forall l: seq<Slot>, lk: multiset<Span> :: !StateOk(bl2, cs, l, first, last, name, lk)
  {
    hide InUse, Content, ListPart, Owned;
    assert !InUse(bl2, name) by {
      assert multiset{name}[name] == 1;
      assert multiset{}[name] == 0;
    }
    forall l: seq<Slot>, lk: multiset<Span> ensures !StateOk(bl2, cs, l, first, last, name, lk) {
      if StateOk(bl2, cs, l, first, last, name, lk) {
        NameInUse(bl2, cs, l, first, last, name, lk);
      }
    }
  }

  lemma ListedSlots(bl: seq<Block>, rs: nat, l: seq<Slot>, first: Ptr, last: Ptr)
    requires ListPart(bl, rs, l, first, last)
    ensures forall j: nat | j < |l| :: IsSlot(bl, l[j])
  {
  }

  lemma RowBounds(bl: seq<Block>, rs: nat, l: seq<Slot>, i: nat)
    requires i < |l| && forall j: nat | j < |l| :: IsSlot(bl, l[j])
    ensures PtrOf(rs, l[i]).off + SLOT_HEADER + rs <= BlockSizeFor(rs) && InFile(bl, l[i].block)
    ensures i > 0 ==> PtrOf(rs, l[i - 1]).off + SLOT_HEADER + rs <= BlockSizeFor(rs) && InFile(bl, l[i - 1].block)
  {
    hide SlotOff, Type;
    assert IsSlot(bl, l[i]);
    SlotInBlock(rs, l[i].index);
    if i > 0 {
      assert IsSlot(bl, l[i - 1]);
      SlotInBlock(rs, l[i - 1].index);
    }
  }

  datatype Outcome = Done | Error(error: HeapResult)

  lemma KeptHeap(bl: seq<Block>, bl': seq<Block>, lastTable: nat, lastHeap: nat)
    requires KeepsRest(bl, bl', lastTable, lastHeap)
    ensures Chains(bl', lastTable, lastHeap)
    ensures IsType(bl, 1, TABLE) ==> IsType(bl', 1, TABLE)
    ensures IsType(bl, 2, HEAP) ==> IsType(bl', 2, HEAP)
  {
  }

  lemma SameTypeThere(bl: seq<Block>, bl': seq<Block>, b: nat, t: byte)
    requires SameOldTypes(bl, bl') && InFile(bl, b)
    ensures InFile(bl', b) && (IsType(bl', b, t) <==> IsType(bl, b, t))
  {
    hide Type;
    assert IsType(bl, b, Type(At(bl, b)));
  }

  lemma SameTypeHere(bl: seq<Block>, bl': seq<Block>, b: nat, t: byte)
    requires SameTypes(bl, bl') && InFile(bl, b)
    ensures IsType(bl', b, t) <==> IsType(bl, b, t)
  {
    hide Type;
  }

  /** A last row outside the Table blocks: no list ends there. */
  lemma BrokenList(bl: seq<Block>, cs: seq<Column>, first: Ptr, last: Ptr, name: Span)
    requires !last.IsNull() && !IsType(bl, last.block, TABLE)
    ensures forall l: seq<Slot>, lk: multiset<Span> :: !StateOk(bl, cs, l, first, last, name, lk)
  {
    hide Owned, ListOk, CountOk, SlotOff;
    forall l: seq<Slot>, lk: multiset<Span> ensures !StateOk(bl, cs, l, first, last, name, lk) {
      if StateOk(bl, cs, l, first, last, name, lk) {
        ListEnd(bl, RowSize(cs), l, first, last);
      }
    }
  }

  lemma PlaceFound(bl: seq<Block>, rs: nat, s: Slot)
    requires Sized(bl, BlockSizeFor(rs)) && FirstFree(bl, rs, s)
    ensures InScan(bl, s)
    ensures PlaceIsSafe(bl, rs) <==> IsType(bl, s.block, TABLE)
    ensures IsType(bl, s.block, TABLE) ==> s in Slots(bl, rs) && Slots(bl, rs)[s].used == 0
  {
    hide Flag, AllUsedBefore, SpecAt, Type;
    forall x: Slot | FirstFree(bl, rs, x) ensures x == s {
      FirstFreeUnique(bl, rs, s, x);
    }
    if IsType(bl, s.block, TABLE) {
      FlagOfSlot(bl, rs, s);
    }
  }

  lemma PlaceNotFound(bl: seq<Block>, rs: nat)
    requires Sized(bl, BlockSizeFor(rs))
    requires forall x: Slot | InScan(bl, x) :: Flag(bl, rs, x) != 0
    ensures PlaceIsSafe(bl, rs)
  {
  }

  lemma PutInBlock(bl: seq<Block>, p: Ptr, bs: seq<byte>)
    requires InFile(bl, p.block)
    ensures p.off + |bs| <= |At(bl, p.block)| ==> Put(bl, p, bs) == Written(bl, p, bs)
    ensures forall b: nat :: InFile(Put(bl, p, bs), b) <==> InFile(bl, b)
  {
  }

  /** The places `insert` writes to lie in their blocks, behind the block header. */
  lemma LinkBounds(bl: seq<Block>, rs: nat, l: seq<Slot>, first: Ptr, last: Ptr, s: Slot)
    requires ListPart(bl, rs, l, first, last) && InScan(bl, s)
    ensures FIRST_SLOT <= PtrOf(rs, s).off && PtrOf(rs, s).off + SLOT_HEADER + rs <= BlockSizeFor(rs)
    ensures last.IsNull() <==> l == []
    ensures !last.IsNull() ==>
              InFile(bl, last.block) && FIRST_SLOT <= last.off && last.off + SLOT_HEADER <= BlockSizeFor(rs)
  {
    hide SlotOff, SpecAt, CountOk, NodeOk;
    SlotInBlock(rs, s.index);
    if l != [] {
      assert l[|l| - 1] in Slots(bl, rs);
      SlotInBlock(rs, l[|l| - 1].index);
    }
  }

  lemma RowCountFits(bl: seq<Block>, rs: nat, l: seq<Slot>, first: Ptr, last: Ptr)
    requires ListPart(bl, rs, l, first, last) && |bl| < U32_LIMIT
    ensures |l| + 1 < U64_LIMIT
  {
    hide SpecAt, CountOk, NodeOk, Type;
    RowCountBound(Slots(bl, rs), l, |bl|);
  }

  lemma LinkedInTypes(bl: seq<Block>, p: Ptr, last: Ptr, row: seq<byte>)
    requires 1 <= p.off && (last.IsNull() || 1 <= last.off)
    ensures SameTypes(bl, LinkedIn(bl, p, last, row))
  {
    hide Splice, Type, EncodePtr, EncodeSpec;
    var b1 := Put(bl, p, Row1(row));
    PutTypes(bl, p, Row1(row));
    var b2 := if last.IsNull() then b1 else Put(b1, last, EncodePtr(p));
    if !last.IsNull() {
      PutTypes(b1, last, EncodePtr(p));
    }
    PutTypes(b2, Ptr(p.block, ROWS_IN_BLOCK), [Up(CountAt(b2, p.block))]);
    var b3 := LinkedIn(bl, p, last, row);
    forall b: nat | InFile(bl, b) ensures Type(At(b3, b)) == Type(At(bl, b)) {
      assert InFile(b1, b) && InFile(b2, b);
    }
  }

  /** Counting a row in a Heap block damages the header of its first chunk. */
  lemma HeapHit(bl: seq<Block>, bl': seq<Block>, p: Ptr, last: Ptr, row: seq<byte>, b: nat)
    requires bl' == LinkedIn(bl, p, last, row) && p.block == b && SameTypes(bl, bl')
    requires FIRST_SLOT <= p.off && (last.IsNull() || FIRST_SLOT <= last.off)
    requires InFile(bl, b) && !IsType(bl, b, TABLE) && exists lt, lh :: Chains(bl, lt, lh)
    ensures forall lt, lh :: !Chains(bl', lt, lh)
  {
    hide Type, Chained, H.Tiled, LinkedIn;
    assert IsType(bl, b, HEAP);
    SameTypeHere(bl, bl', b, HEAP);
    LinkedCount(bl, p, last, row);
    H.FirstByteHit(Payload(At(bl, b)), Payload(At(bl', b)));
  }

  lemma LinkedCount(bl: seq<Block>, p: Ptr, last: Ptr, row: seq<byte>)
    requires FIRST_SLOT <= p.off && (last.IsNull() || FIRST_SLOT <= last.off) && InFile(bl, p.block)
    ensures var bl' := LinkedIn(bl, p, last, row);
            && |At(bl', p.block)| == |At(bl, p.block)|
            && At(bl', p.block)[ROWS_IN_BLOCK] == Up(At(bl, p.block)[ROWS_IN_BLOCK])
  {
    hide EncodeSpec, EncodePtr, Splice;
    PutCount(bl, p, Row1(row), p.block);
    var b1 := Put(bl, p, Row1(row));
    if !last.IsNull() {
      PutCount(b1, last, EncodePtr(p), p.block);
    }
    var b2 := if last.IsNull() then b1 else Put(b1, last, EncodePtr(p));
    SpliceGet(At(b2, p.block), ROWS_IN_BLOCK, [Up(CountAt(b2, p.block))]);
  }

  lemma PutCount(bl: seq<Block>, p: Ptr, bs: seq<byte>, b: nat)
    requires FIRST_SLOT <= p.off && InFile(bl, b)
    ensures var r := Put(bl, p, bs);
            |At(r, b)| == |At(bl, b)| && At(r, b)[ROWS_IN_BLOCK] == At(bl, b)[ROWS_IN_BLOCK]
  {
    if InBlock(bl, p, |bs|) {
      SpliceFrame(At(bl, p.block), p.off, bs, ROWS_IN_BLOCK, FIRST_SLOT);
    }
  }

  lemma PutTypes(bl: seq<Block>, p: Ptr, bs: seq<byte>)
    requires 1 <= p.off
    ensures SameTypes(bl, Put(bl, p, bs))
  {
  }

  ghost predicate SameOldTypes(bl: seq<Block>, bl': seq<Block>) {
    |bl| <= |bl'| && forall b: nat, t: byte | IsType(bl, b, t) :: IsType(bl', b, t)
  }

  lemma AppendedTypes(bl: seq<Block>, last: nat, size: nat)
    requires BLOCK_HEADER + 2 * H.HEADER <= size < U32_LIMIT && |bl| + 1 < U32_LIMIT
    requires last == 0 || IsType(bl, last, TABLE)
    ensures SameOldTypes(bl, Appended(bl, TABLE, last, size))
  {
    hide Type, Appended;
    var r := Appended(bl, TABLE, last, size);
    forall b: nat, t: byte | IsType(bl, b, t) ensures IsType(r, b, t) {
      AppendedOld(bl, TABLE, last, size, b);
    }
  }

  lemma AppendedFirstSlot(bl: seq<Block>, last: nat, rs: nat)
    requires Sized(bl, BlockSizeFor(rs)) && BlockSizeFor(rs) < U32_LIMIT && |bl| + 1 < U32_LIMIT
    requires last == 0 || IsType(bl, last, TABLE)
    ensures var bl' := Appended(bl, TABLE, last, BlockSizeFor(rs));
            && Sized(bl', BlockSizeFor(rs))
            && Slot(|bl| + 1, 0) in Slots(bl', rs) && Slots(bl', rs)[Slot(|bl| + 1, 0)].used == 0
  {
    hide Type, Appended, SpecAt;
    AppendedSlots(bl, last, rs);
    assert Slot(|bl| + 1, 0) !in Slots(bl, rs);
  }

  lemma FlagByte(bl: seq<Block>, rs: nat, s: Slot)
    requires Sized(bl, BlockSizeFor(rs)) && InScan(bl, s)
    ensures SlotOff(rs, s.index) + SLOT_HEADER <= |At(bl, s.block)|
    ensures Flag(bl, rs, s) == At(bl, s.block)[SlotOff(rs, s.index)..SlotOff(rs, s.index) + SLOT_HEADER][8]
    ensures Flag(bl, rs, s) == 0 && AllUsedBefore(bl, rs, s) ==> FirstFree(bl, rs, s)
  {
    hide SlotOff, AllUsedBefore;
    SlotInBlock(rs, s.index);
  }

  lemma FirstSlotOff(rs: nat)
    ensures SlotOff(rs, 0) == FIRST_SLOT
  {
  }

  /** The scan leaves a block exactly after its 255th slot. */
  lemma EndOfBlock(rs: nat, k: nat)
    requires k <= SLOTS
    ensures SlotOff(rs, k) + SLOT_HEADER + rs > BlockSizeFor(rs) <==> k == SLOTS
    ensures SlotOff(rs, k + 1) == SlotOff(rs, k) + SLOT_HEADER + rs
  {
    if k < SLOTS {
      SlotInBlock(rs, k);
    } else {
      ExactlyFull(rs);
    }
  }

  lemma NothingBefore(bl: seq<Block>, rs: nat)
    requires Sized(bl, BlockSizeFor(rs))
    ensures AllUsedBefore(bl, rs, Slot(1, 0))
  {
  }

  lemma NextBlock(bl: seq<Block>, rs: nat, s: Slot)
    requires Sized(bl, BlockSizeFor(rs)) && AllUsedBefore(bl, rs, s) && s.index == SLOTS
    ensures AllUsedBefore(bl, rs, Slot(s.block + 1, 0))
  {
  }

  lemma NextSlot(bl: seq<Block>, rs: nat, s: Slot)
    requires Sized(bl, BlockSizeFor(rs)) && AllUsedBefore(bl, rs, s) && InScan(bl, s) && Flag(bl, rs, s) != 0
    ensures AllUsedBefore(bl, rs, Slot(s.block, s.index + 1))
  {
  }

  lemma AllVisited(bl: seq<Block>, rs: nat, s: Slot)
    requires Sized(bl, BlockSizeFor(rs)) && AllUsedBefore(bl, rs, s) && s.block == |bl| + 1
    ensures forall x: Slot | InScan(bl, x) :: Flag(bl, rs, x) != 0
  {
  }

  /** The last row is null exactly for the empty list. */
  lemma ListEnd(bl: seq<Block>, rs: nat, l: seq<Slot>, first: Ptr, last: Ptr)
    requires ListPart(bl, rs, l, first, last)
    ensures last.IsNull() <==> l == []
    ensures l != [] ==> IsType(bl, last.block, TABLE)
  {
    hide SlotOff, SpecAt, CountOk, NodeOk;
    if l != [] {
      assert l[|l| - 1] in Slots(bl, rs);
    }
  }

  /** An empty file has no used slot, so the scan would stop at the first slot of block 1 too. */
  lemma EmptyListIsFree(bl: seq<Block>, rs: nat, l: seq<Slot>, first: Ptr, last: Ptr)
    requires ListPart(bl, rs, l, first, last) && last.IsNull() && IsType(bl, 1, TABLE)
    ensures FirstFree(bl, rs, Slot(1, 0))
  {
    hide SlotOff, SpecAt, CountOk, NodeOk;
    ListEnd(bl, rs, l, first, last);
    FlagOfSlot(bl, rs, Slot(1, 0));
    NothingBefore(bl, rs);
  }
}
