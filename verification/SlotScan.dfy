/** The scan for a free slot in `insert` (db/storage/edb/EDBFile.cpp:378-403). It walks all blocks
    in index order and reads a used flag at every slot position, whatever the type of the block. */
module SlotScan {
  import opened Bytes
  import opened Blocks
  import opened RowCodec
  import opened RowList
  import opened TableStates
  import opened TableOps
  import opened Ownership
  import H = HeapBlocks

  /** A slot position of some block, not necessarily of a Table block. */
  ghost predicate InScan(bl: seq<Block>, s: Slot) {
    InFile(bl, s.block) && s.index < SLOTS
  }

  /** The byte the scan reads as the used flag at `s`. */
  ghost function Flag(bl: seq<Block>, rs: nat, s: Slot): byte
    requires Sized(bl, BlockSizeFor(rs)) && InScan(bl, s)
  {
    SlotInBlock(rs, s.index);
    At(bl, s.block)[SlotOff(rs, s.index) + 8]
  }

  ghost predicate Before(x: Slot, s: Slot) {
    x.block < s.block || (x.block == s.block && x.index < s.index)
  }

  /** Every position the scan visits before `s` reads as used. */
  ghost predicate AllUsedBefore(bl: seq<Block>, rs: nat, s: Slot)
    requires Sized(bl, BlockSizeFor(rs))
  {
    forall x: Slot | InScan(bl, x) && Before(x, s) :: Flag(bl, rs, x) != 0
  }

  /** `s` is the position the scan stops at. */
  ghost predicate FirstFree(bl: seq<Block>, rs: nat, s: Slot)
    requires Sized(bl, BlockSizeFor(rs))
  {
    InScan(bl, s) && Flag(bl, rs, s) == 0 && AllUsedBefore(bl, rs, s)
  }

  /** The scan stops in a Table block, or not at all. */
  ghost predicate PlaceIsSafe(bl: seq<Block>, rs: nat)
    requires Sized(bl, BlockSizeFor(rs))
  {
    forall s: Slot | FirstFree(bl, rs, s) :: IsType(bl, s.block, TABLE)
  }

  /** In a Table block the flag is the slot's used field. */
  lemma FlagOfSlot(bl: seq<Block>, rs: nat, s: Slot)
    requires Sized(bl, BlockSizeFor(rs)) && IsSlot(bl, s)
    ensures s in Slots(bl, rs) && Flag(bl, rs, s) == Slots(bl, rs)[s].used
  {
  }

  lemma FirstFreeUnique(bl: seq<Block>, rs: nat, s: Slot, x: Slot)
    requires Sized(bl, BlockSizeFor(rs)) && FirstFree(bl, rs, s) && FirstFree(bl, rs, x)
    ensures s == x
  {
    hide Flag;
    assert !Before(x, s) && !Before(s, x);
  }

  /** With fewer than 255 rows the scan ends in the first block, which is a Table block. */
  lemma FewRowsAreSafe(bl: seq<Block>, cs: seq<Column>, l: seq<Slot>, first: Ptr, last: Ptr, name: Span,
                       leaked: multiset<Span>)
    requires StateOk(bl, cs, l, first, last, name, leaked) && IsType(bl, 1, TABLE)
    requires |l| < SLOTS
    ensures PlaceIsSafe(bl, RowSize(cs))
  {
    hide ListPart, Owned, Flag, Type, SlotOff;
    var x := RoomInBlockOne(bl, cs, l, first, last, name, leaked);
  }

  lemma RoomInBlockOne(bl: seq<Block>, cs: seq<Column>, l: seq<Slot>, first: Ptr, last: Ptr, name: Span,
                       leaked: multiset<Span>) returns (x: Slot)
    requires StateOk(bl, cs, l, first, last, name, leaked) && IsType(bl, 1, TABLE)
    requires |l| < SLOTS
    ensures x.block == 1 && InScan(bl, x) && Flag(bl, RowSize(cs), x) == 0
  {
    hide SpecAt, Flag, Type, CountOk, NodeOk;
    var rs := RowSize(cs);
    forall k: nat | k < SLOTS ensures Slot(1, k) in Slots(bl, rs) {
      assert IsSlot(bl, Slot(1, k));
    }
    FewRowsLeaveRoom(Slots(bl, rs), l);
    var k: nat :| k < SLOTS && Slots(bl, rs)[Slot(1, k)].used == 0;
    x := Slot(1, k);
    FlagOfSlot(bl, rs, x);
  }

  /** The last bytes of a Heap block are zero: they are the size of the end edge. So for rows of
      at most three bytes the scan never gets past the first Heap block. */
  lemma HeapBlockHasZeroFlag(bl: seq<Block>, rs: nat, b: nat)
    requires Sized(bl, BlockSizeFor(rs)) && rs <= 3
    requires IsType(bl, b, HEAP) && H.Tiled(Payload(At(bl, b)), 0)
    ensures InScan(bl, Slot(b, SLOTS - 1)) && Flag(bl, rs, Slot(b, SLOTS - 1)) == 0
  {
    hide Type, SlotOff, Val;
    var blk := At(bl, b);
    var p := Payload(blk);
    H.EndsWithEdge(p, 0);
    ZeroWord(p[|p| - 4..|p|]);
    assert SlotOff(rs, SLOTS - 1) + SLOT_HEADER + rs == |blk| by {
      ExactlyFull(rs);
      LastSlot(rs);
    }
    var i := SlotOff(rs, SLOTS - 1) + 8;
    assert blk[i] == p[i - BLOCK_HEADER] == p[|p| - 4..|p|][i - BLOCK_HEADER - (|p| - 4)];
  }

  lemma LastSlot(rs: nat)
    ensures SlotOff(rs, SLOTS) == SlotOff(rs, SLOTS - 1) + SLOT_HEADER + rs
  {
  }

  lemma ZeroWord(s: seq<byte>)
    requires |s| == 4 && Val(s) == 0
    ensures forall i | 0 <= i < 4 :: s[i] == 0
  {
    assert Val(s) == s[0] as nat + 256 * Val(s[1..]);
    assert Val(s[1..]) == s[1] as nat + 256 * Val(s[1..][1..]);
    assert s[1..][1..] == s[2..];
    assert Val(s[2..]) == s[2] as nat + 256 * Val(s[2..][1..]);
    assert s[2..][1..] == s[3..];
    assert Val(s[3..]) == s[3] as nat + 256 * Val(s[3..][1..]);
  }

  /** The scan stops at the first zero flag, if there is one up to `s`. */
  lemma FirstFreeExists(bl: seq<Block>, rs: nat, s: Slot, k: nat) returns (x: Slot)
    requires Sized(bl, BlockSizeFor(rs)) && InScan(bl, s) && Flag(bl, rs, s) == 0
    requires k <= s.index && AllUsedBefore(bl, rs, Slot(s.block, k))
    ensures FirstFree(bl, rs, x) && x.block == s.block
    decreases s.index - k
  {
    hide Flag;
    x := Slot(s.block, k);
    if Flag(bl, rs, x) != 0 {
      x := FirstFreeExists(bl, rs, s, k + 1);
    }
  }

  /** A defect of the scan: for rows of at most three bytes, as soon as the first Table block is
      full the next row is placed in Heap block 2. */
  lemma SmallRowsOverflowIntoHeap(bl: seq<Block>, rs: nat)
    requires Sized(bl, BlockSizeFor(rs)) && rs <= 3
    requires IsType(bl, 1, TABLE) && IsType(bl, 2, HEAP) && Tiled(bl)
    requires forall k: nat | k < SLOTS :: Flag(bl, rs, Slot(1, k)) != 0
    ensures !PlaceIsSafe(bl, rs)
  {
    hide Flag, Type, H.Tiled, Payload;
    HeapBlockHasZeroFlag(bl, rs, 2);
    forall x: Slot | InScan(bl, x) && Before(x, Slot(2, 0)) ensures Flag(bl, rs, x) != 0 {
      assert x == Slot(1, x.index);
    }
    var x := FirstFreeExists(bl, rs, Slot(2, SLOTS - 1), 0);
    assert !IsType(bl, 2, TABLE);
  }

  /** A Heap block with a zero byte where the scan reads a flag. */
  ghost predicate Hole(bl: seq<Block>, rs: nat, b: nat)
    requires Sized(bl, BlockSizeFor(rs))
  {
    IsType(bl, b, HEAP) && exists k: nat :: k < SLOTS && Flag(bl, rs, Slot(b, k)) == 0
  }

  /** A Table block whose counter says that there is room in it. */
  ghost predicate HasRoom(bl: seq<Block>, b: nat)
    requires forall i | 0 <= i < |bl| :: |bl[i]| > ROWS_IN_BLOCK
  {
    IsType(bl, b, TABLE) && At(bl, b)[ROWS_IN_BLOCK] as nat < SLOTS
  }

  /** In front of every hole there is a Table block with room. */
  ghost predicate RoomBeforeHoles(bl: seq<Block>, rs: nat)
    requires Sized(bl, BlockSizeFor(rs))
  {
    forall b: nat | Hole(bl, rs, b) :: exists c: nat :: c < b && HasRoom(bl, c)
  }

  /** The scan stops at a row slot, or not at all, exactly if there is room in front of every hole. */
  lemma SafeExactly(bl: seq<Block>, cs: seq<Column>, l: seq<Slot>, first: Ptr, last: Ptr, name: Span,
                    leaked: multiset<Span>)
    requires StateOk(bl, cs, l, first, last, name, leaked)
    requires forall b: nat | InFile(bl, b) :: IsType(bl, b, TABLE) || IsType(bl, b, HEAP)
    ensures PlaceIsSafe(bl, RowSize(cs)) <==> RoomBeforeHoles(bl, RowSize(cs))
  {
    hide Slots, ListOk, AllIn, Flag, Type, Owned, CountOk;
    var rs := RowSize(cs);
    if RoomBeforeHoles(bl, rs) {
      forall s: Slot | FirstFree(bl, rs, s) ensures IsType(bl, s.block, TABLE) {
        if IsType(bl, s.block, HEAP) {
          assert Hole(bl, rs, s.block);
          var c: nat :| c < s.block && HasRoom(bl, c);
          var k := FreeSlotIn(bl, rs, l, first, last, c);
          NotBefore(bl, rs, s, Slot(c, k));
        }
      }
    }
    if PlaceIsSafe(bl, rs) {
      forall b: nat | Hole(bl, rs, b) ensures exists c: nat :: c < b && HasRoom(bl, c) {
        var k: nat :| k < SLOTS && Flag(bl, rs, Slot(b, k)) == 0;
        NothingBefore1(bl, rs);
        var x := FirstFreeFrom(bl, rs, Slot(b, k), 1);
        UsedSlotCounts(bl, rs, l, first, last, x);
        assert HasRoom(bl, x.block) && x.block != b;
      }
    }
  }

  lemma NotBefore(bl: seq<Block>, rs: nat, s: Slot, x: Slot)
    requires Sized(bl, BlockSizeFor(rs)) && FirstFree(bl, rs, s) && InScan(bl, x) && Flag(bl, rs, x) == 0
    ensures !Before(x, s)
  {
    hide Flag;
  }

  lemma NothingBefore1(bl: seq<Block>, rs: nat)
    requires Sized(bl, BlockSizeFor(rs))
    ensures AllUsedBefore(bl, rs, Slot(1, 0))
  {
  }

  /** A block whose counter is below 255 has a free slot. */
  lemma FreeSlotIn(bl: seq<Block>, rs: nat, l: seq<Slot>, first: Ptr, last: Ptr, b: nat) returns (k: nat)
    requires ListPart(bl, rs, l, first, last) && HasRoom(bl, b)
    ensures k < SLOTS && InScan(bl, Slot(b, k)) && Flag(bl, rs, Slot(b, k)) == 0
  {
    hide SpecAt, Flag, Type, ListOk, AllIn;
    var t := Slots(bl, rs);
    forall k: nat | k < SLOTS ensures Slot(b, k) in t {
      assert IsSlot(bl, Slot(b, k));
    }
    if forall k: nat | k < SLOTS :: t[Slot(b, k)].used != 0 {
      AllSlotsUsed(t, b);
      assert false;
    }
    k :| k < SLOTS && t[Slot(b, k)].used == 0;
    FlagOfSlot(bl, rs, Slot(b, k));
  }

  lemma AllSlotsUsed(t: map<Slot, RowSpec>, b: nat)
    requires forall k: nat | k < SLOTS :: Slot(b, k) in t && t[Slot(b, k)].used != 0
    ensures UsedCount(t, b) >= SLOTS
  {
    FullSize(UsedIn(t, b), SLOTS);
  }

  lemma {:induction false} FullSize(s: set<nat>, n: nat)
    requires forall k: nat | k < n :: k in s
    ensures |s| >= n
  {
    if n > 0 {
      FullSize(s - {n - 1}, n - 1);
    }
  }

  /** A block with a free slot has a counter below 255. */
  lemma UsedSlotCounts(bl: seq<Block>, rs: nat, l: seq<Slot>, first: Ptr, last: Ptr, x: Slot)
    requires ListPart(bl, rs, l, first, last) && IsType(bl, x.block, TABLE) && InScan(bl, x) && Flag(bl, rs, x) == 0
    ensures HasRoom(bl, x.block)
  {
    hide SpecAt, Flag, Type, ListOk, AllIn;
    FlagOfSlot(bl, rs, x);
    UsedInSize(Slots(bl, rs), x.block);
  }

  /** The scan stops no later than at any zero flag. */
  lemma {:induction false} FirstFreeFrom(bl: seq<Block>, rs: nat, s: Slot, b: nat) returns (x: Slot)
    requires Sized(bl, BlockSizeFor(rs)) && InScan(bl, s) && Flag(bl, rs, s) == 0
    requires 1 <= b <= s.block && AllUsedBefore(bl, rs, Slot(b, 0))
    ensures FirstFree(bl, rs, x) && x.block <= s.block
    decreases s.block - b
  {
    hide Flag;
    if k: nat :| k < SLOTS && Flag(bl, rs, Slot(b, k)) == 0 {
      x := FirstFreeExists(bl, rs, Slot(b, k), 0);
    } else {
      assert b < s.block by {
        assert b == s.block ==> s == Slot(b, s.index);
      }
      forall y: Slot | InScan(bl, y) && Before(y, Slot(b + 1, 0)) ensures Flag(bl, rs, y) != 0 {
        assert y.block == b ==> y == Slot(b, y.index);
        assert y.block < b ==> Before(y, Slot(b, 0));
      }
      x := FirstFreeFrom(bl, rs, s, b + 1);
    }
  }

  /** For rows of at most three bytes every Heap block has a hole, so the next place is a row slot
      exactly if the counter of block 1 is below 255, whatever other blocks there are. */
  lemma TheRow256(bl: seq<Block>, cs: seq<Column>, l: seq<Slot>, first: Ptr, last: Ptr, name: Span,
                  leaked: multiset<Span>)
    requires StateOk(bl, cs, l, first, last, name, leaked) && RowSize(cs) <= 3
    requires IsType(bl, 1, TABLE) && IsType(bl, 2, HEAP) && Tiled(bl)
    requires forall b: nat | InFile(bl, b) :: IsType(bl, b, TABLE) || IsType(bl, b, HEAP)
    ensures PlaceIsSafe(bl, RowSize(cs)) <==> At(bl, 1)[ROWS_IN_BLOCK] as nat < SLOTS
  {
    hide ListOk, AllIn, CountOk, Slots, Flag, Type, Owned, H.Tiled, Payload, PlaceIsSafe, SlotOff;
    var rs := RowSize(cs);
    SafeExactly(bl, cs, l, first, last, name, leaked);
    HeapBlockHasZeroFlag(bl, rs, 2);
    assert Hole(bl, rs, 2);
    assert !IsType(bl, 2, TABLE);
    if At(bl, 1)[ROWS_IN_BLOCK] as nat < SLOTS {
      assert HasRoom(bl, 1);
    }
  }

  /** The same, from the number of rows: a file of two blocks takes 255 such rows and no more. */
  lemma TwoBlocksTake255(bl: seq<Block>, cs: seq<Column>, l: seq<Slot>, first: Ptr, last: Ptr, name: Span,
                         leaked: multiset<Span>)
    requires StateOk(bl, cs, l, first, last, name, leaked) && RowSize(cs) <= 3
    requires |bl| == 2 && IsType(bl, 1, TABLE) && IsType(bl, 2, HEAP) && Tiled(bl)
    ensures PlaceIsSafe(bl, RowSize(cs)) <==> |l| < SLOTS
  {
    hide SpecAt, Flag, Type, NodeOk, H.Tiled, Payload;
    var rs := RowSize(cs);
    if |l| < SLOTS {
      FewRowsAreSafe(bl, cs, l, first, last, name, leaked);
    } else {
      AllOfBlockOne(bl, rs, l, first, last);
      SmallRowsOverflowIntoHeap(bl, rs);
    }
  }

  lemma AllOfBlockOne(bl: seq<Block>, rs: nat, l: seq<Slot>, first: Ptr, last: Ptr)
    requires ListPart(bl, rs, l, first, last) && |l| >= SLOTS
    requires |bl| == 2 && !IsType(bl, 2, TABLE)
    ensures forall k: nat | k < SLOTS :: InScan(bl, Slot(1, k)) && Flag(bl, rs, Slot(1, k)) != 0
  {
    hide SpecAt, Flag, Type, CountOk, NodeOk, Slots, ListPart, SlotOff;
    DistinctList(bl, rs, l, first, last);
    forall i: nat | i < |l| ensures l[i] == Slot(1, l[i].index) && l[i].index < SLOTS && InScan(bl, l[i])
        && Flag(bl, rs, l[i]) != 0 {
      ListedSlot(bl, rs, l, first, last, i);
      FlagOfSlot(bl, rs, l[i]);
    }
    forall k: nat | k < SLOTS ensures InScan(bl, Slot(1, k)) && Flag(bl, rs, Slot(1, k)) != 0 {
      var i := HitsIndex(l, k);
    }
  }

  lemma DistinctList(bl: seq<Block>, rs: nat, l: seq<Slot>, first: Ptr, last: Ptr)
    requires ListPart(bl, rs, l, first, last)
    ensures Sized(bl, BlockSizeFor(rs)) && Distinct(l)
  {
    hide SpecAt, CountOk, NodeOk;
  }

  /** 255 different slots of one block are all slots of it. */
  lemma HitsIndex(l: seq<Slot>, k: nat) returns (i: nat)
    requires |l| >= SLOTS && k < SLOTS && Distinct(l)
    requires forall i: nat | i < |l| :: l[i] == Slot(1, l[i].index) && l[i].index < SLOTS
    ensures i < |l| && l[i] == Slot(1, k)
  {
    var code := seq(|l|, i requires 0 <= i < |l| => l[i].index);
    if k !in code {
      var more := code + [k];
      Pigeonhole(more, SLOTS);
      assert false;
    }
    i :| 0 <= i < |code| && code[i] == k;
  }
}
