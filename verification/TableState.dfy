/** The state of a table file as a whole: the row list, the per-block counts and who owns which
    heap span, and how each step of insert and remove changes them. */
module TableStates {
  import opened Bytes
  import opened Blocks
  import opened RowCodec
  import opened RowList
  import opened Values
  import H = HeapBlocks

  // ---- Counting ----

  /** Distinct numbers below `m` are at most `m` many. */
  lemma {:induction false} Pigeonhole(s: seq<nat>, m: nat)
    requires forall i | 0 <= i < |s| :: s[i] < m
    requires forall i, j | 0 <= i < j < |s| :: s[i] != s[j]
    ensures |s| <= m
  {
    if |s| > 0 {
      assert s[0] < m;
      if i :| 0 <= i < |s| && s[i] == m - 1 {
        Pigeonhole(s[..i] + s[i + 1..], m - 1);
      } else {
        Pigeonhole(s, m - 1);
      }
    }
  }

  /** The used slots of block `b`. */
  ghost function UsedIn(t: map<Slot, RowSpec>, b: nat): set<nat> {
    set k: nat | k < SLOTS && Slot(b, k) in t && t[Slot(b, k)].used != 0
  }

  ghost function UsedCount(t: map<Slot, RowSpec>, b: nat): nat {
    |UsedIn(t, b)|
  }

  /** `rows_in_block` of every Table block is the number of its used slots. */
  ghost predicate CountOk(bl: seq<Block>, t: map<Slot, RowSpec>) {
    forall b: nat | IsType(bl, b, TABLE) :: At(bl, b)[ROWS_IN_BLOCK] as nat == UsedCount(t, b)
  }

  lemma {:induction false} SubrangeSize(s: set<nat>, n: nat)
    requires forall k | k in s :: k < n
    ensures |s| <= n
  {
    if n == 0 {
      assert s == {};
    } else {
      SubrangeSize(s - {n - 1}, n - 1);
    }
  }

  /** A count of used slots fits a byte, and stays below the limit while a slot is free. */
  lemma UsedInSize(t: map<Slot, RowSpec>, b: nat)
    ensures |UsedIn(t, b)| <= SLOTS
    ensures forall s | s in t && s.block == b && s.index < SLOTS && t[s].used == 0 :: |UsedIn(t, b)| < SLOTS
  {
    SubrangeSize(UsedIn(t, b), SLOTS);
    forall s | s in t && s.block == b && s.index < SLOTS && t[s].used == 0 ensures |UsedIn(t, b)| < SLOTS {
      var u := UsedIn(t, b) + {s.index};
      SubrangeSize(u, SLOTS);
    }
  }

  /** With fewer than 255 rows the first Table block has a free slot. */
  lemma FewRowsLeaveRoom(t: map<Slot, RowSpec>, l: seq<Slot>)
    requires Complete(t, l) && |l| < SLOTS
    requires forall k: nat | k < SLOTS :: Slot(1, k) in t
    ensures exists k: nat :: k < SLOTS && t[Slot(1, k)].used == 0
  {
    if forall k: nat | k < SLOTS :: t[Slot(1, k)].used != 0 {
      forall k: nat | k < SLOTS ensures Slot(1, k) in l {
        assert Slot(1, k) in t && t[Slot(1, k)].used != 0;
      }
      var pos := seq(SLOTS, k requires 0 <= k < SLOTS => var i: nat :| i < |l| && l[i] == Slot(1, k); i);
      assert forall i, j | 0 <= i < j < SLOTS :: l[pos[i]] == Slot(1, i) && l[pos[j]] == Slot(1, j);
      Pigeonhole(pos, |l|);
    }
  }

  /** There are never more rows than slots, so the 64-bit row count does not wrap. */
  lemma RowCountBound(t: map<Slot, RowSpec>, l: seq<Slot>, n: nat)
    requires Distinct(l) && AllIn(t, l)
    requires forall s | s in t :: s.block <= n && s.index < SLOTS
    ensures |l| <= (n + 1) * SLOTS
  {
    var code := seq(|l|, i requires 0 <= i < |l| => l[i].block * SLOTS + l[i].index);
    forall i | 0 <= i < |l| ensures code[i] < (n + 1) * SLOTS {
      assert l[i] in t;
    }
    forall i, j | 0 <= i < j < |l| ensures code[i] != code[j] {
      assert l[i] in t && l[j] in t;
    }
    Pigeonhole(code, (n + 1) * SLOTS);
  }

  // ---- Which blocks matter ----

  lemma SpecByPayload(b: Block, b': Block, rs: nat, k: nat)
    requires k < SLOTS && |b| == |b'| == BlockSizeFor(rs) && Payload(b) == Payload(b')
    ensures SpecAt(b, rs, k) == SpecAt(b', rs, k) && b[ROWS_IN_BLOCK] == b'[ROWS_IN_BLOCK]
  {
    hide SlotOff, DecodePtr;
    SlotInBlock(rs, k);
    var o := SlotOff(rs, k);
    H.SliceOfSuffix(b, BLOCK_HEADER, o, o + 8);
    H.SliceOfSuffix(b', BLOCK_HEADER, o, o + 8);
    H.SliceOfSuffix(b, BLOCK_HEADER, o + SLOT_HEADER, o + SLOT_HEADER + rs);
    H.SliceOfSuffix(b', BLOCK_HEADER, o + SLOT_HEADER, o + SLOT_HEADER + rs);
    assert b[o + 8] == Payload(b)[o + 8 - BLOCK_HEADER];
    assert b'[o + 8] == Payload(b')[o + 8 - BLOCK_HEADER];
    assert b[ROWS_IN_BLOCK] == Payload(b)[0] && b'[ROWS_IN_BLOCK] == Payload(b')[0];
  }

  /** Heap operations leave the slots and the counts alone. */
  lemma HeapOnlySlots(bl: seq<Block>, bl': seq<Block>, rs: nat)
    requires HeapOnly(bl, bl') && Sized(bl, BlockSizeFor(rs)) && Sized(bl', BlockSizeFor(rs))
    ensures Slots(bl', rs) == Slots(bl, rs)
    ensures CountOk(bl, Slots(bl, rs)) ==> CountOk(bl', Slots(bl', rs))
  {
    hide SpecAt, Type;
    forall s: Slot
      ensures IsSlot(bl', s) <==> IsSlot(bl, s)
      ensures IsSlot(bl, s) ==> At(bl', s.block) == At(bl, s.block)
    {
      assert InFile(bl, s.block) || !InFile(bl, s.block);
    }
    forall b: nat ensures IsType(bl', b, TABLE) <==> IsType(bl, b, TABLE) {
      assert IsSlot(bl', Slot(b, 0)) <==> IsSlot(bl, Slot(b, 0));
    }
  }

  /** Appending a Table block adds 255 unused slots. */
  lemma AppendedSlots(bl: seq<Block>, last: nat, rs: nat)
    requires Sized(bl, BlockSizeFor(rs)) && BlockSizeFor(rs) < U32_LIMIT && |bl| + 1 < U32_LIMIT
    requires last == 0 || InFile(bl, last)
    ensures var bl' := Appended(bl, TABLE, last, BlockSizeFor(rs));
            && Sized(bl', BlockSizeFor(rs))
            && (forall s | s in Slots(bl, rs) :: s in Slots(bl', rs) && Slots(bl', rs)[s] == Slots(bl, rs)[s])
            && (forall s | s in Slots(bl', rs) && s !in Slots(bl, rs) ::
                 s.block == |bl| + 1 && Slots(bl', rs)[s].used == 0)
            && At(bl', |bl| + 1)[ROWS_IN_BLOCK] == 0
            && (forall b: nat | InFile(bl, b) :: At(bl', b)[ROWS_IN_BLOCK] == At(bl, b)[ROWS_IN_BLOCK])
            && (forall s: Slot | s.block == |bl| + 1 && s.index < SLOTS :: IsSlot(bl', s))
  {
    hide SpecAt, Type, Appended, SlotOff, Payload, Slots, Splice;
    var bl' := Appended(bl, TABLE, last, BlockSizeFor(rs));
    AppendedNew(bl, TABLE, last, BlockSizeFor(rs));
    forall b: nat | InFile(bl', b) ensures |At(bl', b)| == BlockSizeFor(rs) {
      AppendedSize(bl, last, rs, b);
    }
    forall i | 0 <= i < |bl'| ensures |bl'[i]| == BlockSizeFor(rs) {
      assert InFile(bl', i + 1) && bl'[i] == At(bl', i + 1);
    }
    forall s: Slot | IsSlot(bl', s)
      ensures if InFile(bl, s.block)
              then IsSlot(bl, s) && SpecAt(At(bl', s.block), rs, s.index) == SpecAt(At(bl, s.block), rs, s.index)
              else s.block == |bl| + 1 && SpecAt(At(bl', s.block), rs, s.index).used == 0
    {
      if InFile(bl, s.block) {
        AppendedOld(bl, TABLE, last, BlockSizeFor(rs), s.block);
        SpecByPayload(At(bl, s.block), At(bl', s.block), rs, s.index);
      } else {
        ZeroSpec(At(bl', s.block), rs, s.index);
      }
    }
    forall s: Slot | IsSlot(bl, s) ensures IsSlot(bl', s) {
      AppendedOld(bl, TABLE, last, BlockSizeFor(rs), s.block);
    }
    ZeroSpec(At(bl', |bl| + 1), rs, 0);
    forall b: nat | InFile(bl, b) ensures At(bl', b)[ROWS_IN_BLOCK] == At(bl, b)[ROWS_IN_BLOCK] {
      AppendedOld(bl, TABLE, last, BlockSizeFor(rs), b);
      SpecByPayload(At(bl, b), At(bl', b), rs, 0);
    }
  }

  lemma AppendedSize(bl: seq<Block>, last: nat, rs: nat, b: nat)
    requires Sized(bl, BlockSizeFor(rs))
    requires last == 0 || InFile(bl, last)
    requires 1 <= b <= |bl| + 1
    ensures |At(Appended(bl, TABLE, last, BlockSizeFor(rs)), b)| == BlockSizeFor(rs)
  {
  }

  lemma ZeroSpec(b: Block, rs: nat, k: nat)
    requires k < SLOTS && |b| == BlockSizeFor(rs) && Payload(b) == Zeros(|b| - BLOCK_HEADER)
    ensures SpecAt(b, rs, k).used == 0 && b[ROWS_IN_BLOCK] == 0
  {
    hide SlotOff;
    SlotInBlock(rs, k);
    assert b[SlotOff(rs, k) + 8] == Payload(b)[SlotOff(rs, k) + 8 - BLOCK_HEADER];
    assert b[ROWS_IN_BLOCK] == Payload(b)[0];
  }

  /** New unused slots change neither the list nor the counts. */
  lemma MoreSlots(t: map<Slot, RowSpec>, t': map<Slot, RowSpec>, rs: nat, l: seq<Slot>, first: Ptr, last: Ptr)
    requires ListOk(t, rs, l, first, last)
    requires forall s | s in t :: s in t' && t'[s] == t[s]
    requires forall s | s in t' && s !in t :: t'[s].used == 0
    ensures ListOk(t', rs, l, first, last)
    ensures AllIn(t, l) && AllIn(t', l) && Rows(t', l) == Rows(t, l)
    ensures forall b: nat :: UsedIn(t', b) == UsedIn(t, b)
  {
    ListIn(t, rs, l);
    forall i: nat | i < |l| ensures NodeOk(t', rs, l, i) && l[i] in t' && t'[l[i]] == t[l[i]] {
      assert NodeOk(t, rs, l, i) && l[i] in t;
    }
  }

  // ---- Writing to a Table block ----

  /** Bytes behind the block header of a Table block may be overwritten without touching the
      chains, the heap, or what is in use. */
  lemma TableWrite(bl: seq<Block>, p: Ptr, bs: seq<byte>, lastTable: nat, lastHeap: nat)
    requires Chains(bl, lastTable, lastHeap) && IsType(bl, p.block, TABLE)
    requires BLOCK_HEADER <= p.off && p.off + |bs| <= |At(bl, p.block)|
    ensures var bl' := Written(bl, p, bs);
            && Chains(bl', lastTable, lastHeap) && SameTypes(bl, bl') && Grown(bl, bl', multiset{})
  {
    hide Type, Prev, Next, Payload, Splice, WithPayload, Chained, InUse, Content, Gone;
    var bl' := Written(bl, p, bs);
    forall b: nat | InFile(bl, b)
      ensures Type(At(bl', b)) == Type(At(bl, b)) && Prev(At(bl', b)) == Prev(At(bl, b))
              && Next(At(bl', b)) == Next(At(bl, b))
      ensures Type(At(bl, b)) == HEAP ==> At(bl', b) == At(bl, b)
    {
      TableBlockWrite(bl, p, bs, b);
    }
    LinksFrame(bl, bl', TABLE, lastTable);
    LinksFrame(bl, bl', HEAP, lastHeap);
    forall b: nat | InFile(bl', b)
      ensures IsType(bl', b, TABLE) || IsType(bl', b, HEAP)
      ensures IsType(bl', b, HEAP) ==> H.Tiled(Payload(At(bl', b)), 0)
    {
      assert InFile(bl, b);
      assert IsType(bl, b, TABLE) || IsType(bl, b, HEAP);
    }
    forall sp: Span
      ensures InUse(bl', sp) <==> InUse(bl, sp)
      ensures InUse(bl, sp) ==> Content(bl', sp) == Content(bl, sp)
      ensures Gone(bl, sp) ==> Gone(bl', sp)
    {
      TableSpanWrite(bl, p, bs, sp);
    }
  }

  lemma TableBlockWrite(bl: seq<Block>, p: Ptr, bs: seq<byte>, b: nat)
    requires IsType(bl, p.block, TABLE) && InFile(bl, b)
    requires BLOCK_HEADER <= p.off && p.off + |bs| <= |At(bl, p.block)|
    ensures var bl' := Written(bl, p, bs);
            && Type(At(bl', b)) == Type(At(bl, b)) && Prev(At(bl', b)) == Prev(At(bl, b))
               && Next(At(bl', b)) == Next(At(bl, b))
            && (b != p.block ==> At(bl', b) == At(bl, b))
  {
    if b == p.block {
      WrittenPayload(At(bl, b), p.off, bs);
      WithPayloadFields(At(bl, b), Splice(Payload(At(bl, b)), p.off - BLOCK_HEADER, bs));
    }
  }

  lemma TableSpanWrite(bl: seq<Block>, p: Ptr, bs: seq<byte>, sp: Span)
    requires IsType(bl, p.block, TABLE)
    requires BLOCK_HEADER <= p.off && p.off + |bs| <= |At(bl, p.block)|
    ensures var bl' := Written(bl, p, bs);
            && (InUse(bl', sp) <==> InUse(bl, sp))
            && (InUse(bl, sp) ==> Content(bl', sp) == Content(bl, sp))
            && (Gone(bl, sp) ==> Gone(bl', sp))
  {
    hide Type, H.Tiled, H.Used, Payload, Splice, H.Outgrown;
    if InFile(bl, sp.ptr.block) {
      TableBlockWrite(bl, p, bs, sp.ptr.block);
    }
  }

  // ---- The list part of the state ----

  ghost predicate ListPart(bl: seq<Block>, rs: nat, l: seq<Slot>, first: Ptr, last: Ptr) {
    && Sized(bl, BlockSizeFor(rs))
    && ListOk(Slots(bl, rs), rs, l, first, last)
    && AllIn(Slots(bl, rs), l)
    && CountOk(bl, Slots(bl, rs))
  }

  ghost function RawRows(bl: seq<Block>, rs: nat, l: seq<Slot>): (r: seq<seq<byte>>)
    requires Sized(bl, BlockSizeFor(rs)) && AllIn(Slots(bl, rs), l)
    ensures |r| == |l|
  {
    Rows(Slots(bl, rs), l)
  }

  lemma HeapOnlyList(bl: seq<Block>, bl': seq<Block>, rs: nat, l: seq<Slot>, first: Ptr, last: Ptr)
    requires ListPart(bl, rs, l, first, last) && HeapOnly(bl, bl') && Sized(bl', BlockSizeFor(rs))
    ensures ListPart(bl', rs, l, first, last) && RawRows(bl', rs, l) == RawRows(bl, rs, l)
  {
    hide Slots, HeapOnly, CountOk, ListOk;
    HeapOnlySlots(bl, bl', rs);
  }

  lemma AppendedList(bl: seq<Block>, lastTable: nat, rs: nat, l: seq<Slot>, first: Ptr, last: Ptr)
    requires ListPart(bl, rs, l, first, last)
    requires BlockSizeFor(rs) < U32_LIMIT && |bl| + 1 < U32_LIMIT
    requires lastTable == 0 || InFile(bl, lastTable)
    ensures var bl' := Appended(bl, TABLE, lastTable, BlockSizeFor(rs));
            ListPart(bl', rs, l, first, last) && RawRows(bl', rs, l) == RawRows(bl, rs, l)
  {
    hide Slots, Appended, ListOk, CountOk;
    AppendedSlots(bl, lastTable, rs);
    var bl' := Appended(bl, TABLE, lastTable, BlockSizeFor(rs));
    MoreSlots(Slots(bl, rs), Slots(bl', rs), rs, l, first, last);
    AppendedCounts(bl, lastTable, rs, l, first, last);
  }

  lemma AppendedCounts(bl: seq<Block>, lastTable: nat, rs: nat, l: seq<Slot>, first: Ptr, last: Ptr)
    requires ListPart(bl, rs, l, first, last)
    requires BlockSizeFor(rs) < U32_LIMIT && |bl| + 1 < U32_LIMIT
    requires lastTable == 0 || InFile(bl, lastTable)
    ensures var bl' := Appended(bl, TABLE, lastTable, BlockSizeFor(rs));
            Sized(bl', BlockSizeFor(rs)) && CountOk(bl', Slots(bl', rs))
  {
    hide Slots, Appended, ListOk, UsedIn, Type;
    AppendedSlots(bl, lastTable, rs);
    var bl' := Appended(bl, TABLE, lastTable, BlockSizeFor(rs));
    MoreSlots(Slots(bl, rs), Slots(bl', rs), rs, l, first, last);
    forall b: nat | IsType(bl', b, TABLE) ensures At(bl', b)[ROWS_IN_BLOCK] as nat == UsedCount(Slots(bl', rs), b) {
      if InFile(bl, b) {
        AppendedOld(bl, TABLE, lastTable, BlockSizeFor(rs), b);
      } else {
        NoneUsed(bl, rs, b);
      }
    }
  }

  lemma NoneUsed(bl: seq<Block>, rs: nat, b: nat)
    requires Sized(bl, BlockSizeFor(rs)) && !InFile(bl, b)
    ensures UsedIn(Slots(bl, rs), b) == {}
  {
  }

  /** The count byte lies in front of every slot. */
  lemma CountByte(bl: seq<Block>, rs: nat, b: nat, n: byte)
    requires Sized(bl, BlockSizeFor(rs)) && IsType(bl, b, TABLE)
    ensures ROWS_IN_BLOCK + 1 <= |At(bl, b)|
    ensures var bl' := Written(bl, Ptr(b, ROWS_IN_BLOCK), [n]);
            && Sized(bl', BlockSizeFor(rs)) && SameTypes(bl, bl')
            && Slots(bl', rs) == Slots(bl, rs)
            && forall c: nat | InFile(bl, c) :: At(bl', c)[ROWS_IN_BLOCK] == if c == b then n
               else At(bl, c)[ROWS_IN_BLOCK]
  {
    hide SpecAt, SlotOff;
    var bl' := Written(bl, Ptr(b, ROWS_IN_BLOCK), [n]);
    forall s: Slot
      ensures IsSlot(bl', s) <==> IsSlot(bl, s)
      ensures IsSlot(bl, s) ==> SpecAt(At(bl', s.block), rs, s.index) == SpecAt(At(bl, s.block), rs, s.index)
    {
      if IsSlot(bl, s) && s.block == b {
        SlotInBlock(rs, s.index);
        SpecFrame(At(bl, b), rs, s.index, ROWS_IN_BLOCK, [n]);
      }
    }
  }

  /** Writing a slot leaves all count bytes alone. */
  lemma SlotCountBytes(bl: seq<Block>, rs: nat, s: Slot, bs: seq<byte>, b: nat)
    requires Sized(bl, BlockSizeFor(rs)) && IsSlot(bl, s) && |bs| <= SLOT_HEADER + rs && InFile(bl, b)
    ensures SlotOff(rs, s.index) + |bs| <= |At(bl, s.block)|
    ensures At(Written(bl, PtrOf(rs, s), bs), b)[ROWS_IN_BLOCK] == At(bl, b)[ROWS_IN_BLOCK]
  {
    hide SlotOff;
    SlotInBlock(rs, s.index);
  }

  /** `sp` written over slot `s`. */
  ghost function PutRow(bl: seq<Block>, rs: nat, s: Slot, spec: RowSpec): (r: seq<Block>)
    requires Sized(bl, BlockSizeFor(rs)) && IsSlot(bl, s) && |spec.row| == rs
    ensures |r| == |bl|
  {
    SlotInBlock(rs, s.index);
    Written(bl, PtrOf(rs, s), EncodeSpec(spec))
  }

  ghost function PutNext(bl: seq<Block>, rs: nat, s: Slot, next: Ptr): (r: seq<Block>)
    requires Sized(bl, BlockSizeFor(rs)) && IsSlot(bl, s)
    ensures |r| == |bl|
  {
    SlotInBlock(rs, s.index);
    Written(bl, PtrOf(rs, s), EncodePtr(next))
  }

  /** `bl'` has the slots `t` and otherwise the block sizes, types and count bytes of `bl`. */
  ghost predicate OnlySlots(bl: seq<Block>, bl': seq<Block>, rs: nat, t: map<Slot, RowSpec>) {
    && Sized(bl', BlockSizeFor(rs)) && SameTypes(bl, bl') && Slots(bl', rs) == t
    && forall b: nat | InFile(bl, b) :: At(bl', b)[ROWS_IN_BLOCK] == At(bl, b)[ROWS_IN_BLOCK]
  }

  lemma PutRowEffect(bl: seq<Block>, rs: nat, s: Slot, spec: RowSpec)
    requires Sized(bl, BlockSizeFor(rs)) && IsSlot(bl, s) && |spec.row| == rs && spec.next.Encodable()
    ensures OnlySlots(bl, PutRow(bl, rs, s, spec), rs, Slots(bl, rs)[s := spec])
  {
    hide SlotOff, SpecAt, Slots, EncodeSpec;
    var bs := EncodeSpec(spec);
    SlotsWritten(bl, rs, s, bs);
    SpecWritten(At(bl, s.block), rs, s.index, spec);
    forall b: nat | InFile(bl, b) ensures At(PutRow(bl, rs, s, spec), b)[ROWS_IN_BLOCK] == At(bl, b)[ROWS_IN_BLOCK] {
      SlotCountBytes(bl, rs, s, bs, b);
    }
  }

  lemma PutNextEffect(bl: seq<Block>, rs: nat, s: Slot, next: Ptr)
    requires Sized(bl, BlockSizeFor(rs)) && IsSlot(bl, s) && next.Encodable()
    ensures s in Slots(bl, rs)
    ensures OnlySlots(bl, PutNext(bl, rs, s, next), rs, Slots(bl, rs)[s := Slots(bl, rs)[s].(next := next)])
  {
    hide SlotOff, SpecAt, EncodePtr;
    var bs := EncodePtr(next);
    SlotsWritten(bl, rs, s, bs);
    NextWritten(At(bl, s.block), rs, s.index, next);
    forall b: nat | InFile(bl, b) ensures At(PutNext(bl, rs, s, next), b)[ROWS_IN_BLOCK] == At(bl, b)[ROWS_IN_BLOCK] {
      SlotCountBytes(bl, rs, s, bs, b);
    }
  }

  /** `bl'` differs from `bl` in the count byte of block `b`, which is `n`, as far as rows go. */
  ghost predicate OnlyCount(bl: seq<Block>, bl': seq<Block>, rs: nat, b: nat, n: byte) {
    && Sized(bl', BlockSizeFor(rs)) && SameTypes(bl, bl') && Sized(bl, BlockSizeFor(rs))
       && Slots(bl', rs) == Slots(bl, rs)
    && forall c: nat | InFile(bl, c) :: At(bl', c)[ROWS_IN_BLOCK] == if c == b then n else At(bl, c)[ROWS_IN_BLOCK]
  }

  lemma OnlySlotsTrans(a: seq<Block>, b: seq<Block>, c: seq<Block>, rs: nat, t1: map<Slot, RowSpec>,
                       t2: map<Slot, RowSpec>)
    requires OnlySlots(a, b, rs, t1) && OnlySlots(b, c, rs, t2)
    ensures OnlySlots(a, c, rs, t2)
  {
  }

  /** The counts are right when the only changed one is the count of the only block whose used
      slots changed. */
  lemma CountsRight(bl: seq<Block>, bl': seq<Block>, t: map<Slot, RowSpec>, t': map<Slot, RowSpec>, b: nat, n: byte)
    requires CountOk(bl, t) && SameTypes(bl, bl')
    requires forall c: nat | InFile(bl, c) :: At(bl', c)[ROWS_IN_BLOCK] == if c == b then n
             else At(bl, c)[ROWS_IN_BLOCK]
    requires n as nat == UsedCount(t', b)
    requires forall c: nat | c != b :: UsedCount(t', c) == UsedCount(t, c)
    ensures CountOk(bl', t')
  {
  }

  // ---- insert, after the row's bytes are known ----

  lemma InsertedUsed(t: map<Slot, RowSpec>, rs: nat, l: seq<Slot>, s: Slot, row: seq<byte>, b: nat)
    requires AllIn(t, l) && s in t && t[s].used == 0 && s.index < SLOTS
    requires forall i: nat | i < |l| :: NodeOk(t, rs, l, i)
    ensures UsedCount(Inserted(t, rs, l, s, row), b) == UsedCount(t, b) + if b == s.block then 1 else 0
  {
    if l != [] {
      assert NodeOk(t, rs, l, |l| - 1);
    }
    var t' := Inserted(t, rs, l, s, row);
    assert UsedIn(t', b) == if b == s.block then UsedIn(t, b) + {s.index} else UsedIn(t, b);
  }

  lemma NotUsed(t: map<Slot, RowSpec>, s: Slot)
    requires s in t && t[s].used == 0 && s.index < SLOTS
    ensures UsedCount(t, s.block) < SLOTS
  {
    UsedInSize(t, s.block);
  }

  /** The byte-sized count of the block that takes the row does not wrap. */
  lemma InsertRoom(bl: seq<Block>, bl2: seq<Block>, rs: nat, l: seq<Slot>, first: Ptr, last: Ptr, s: Slot,
                   t': map<Slot, RowSpec>)
    requires ListPart(bl, rs, l, first, last) && OnlySlots(bl, bl2, rs, t')
    requires s in Slots(bl, rs) && Slots(bl, rs)[s].used == 0
    ensures IsType(bl2, s.block, TABLE) && At(bl2, s.block)[ROWS_IN_BLOCK] < 255
    ensures At(bl2, s.block)[ROWS_IN_BLOCK] as nat == UsedCount(Slots(bl, rs), s.block)
  {
    NotUsed(Slots(bl, rs), s);
    assert InFile(bl, s.block);
  }

  /** The list part after `insert`: the row is the new last one and its block counts one more. */
  lemma InsertListPart(bl: seq<Block>, bl2: seq<Block>, bl3: seq<Block>, rs: nat, l: seq<Slot>, first: Ptr, last: Ptr,
                       s: Slot, row: seq<byte>)
    requires ListPart(bl, rs, l, first, last)
    requires s in Slots(bl, rs) && Slots(bl, rs)[s].used == 0
    requires OnlySlots(bl, bl2, rs, Inserted(Slots(bl, rs), rs, l, s, row))
    requires IsType(bl2, s.block, TABLE) && At(bl2, s.block)[ROWS_IN_BLOCK] < 255
    requires OnlyCount(bl2, bl3, rs, s.block, At(bl2, s.block)[ROWS_IN_BLOCK] + 1)
    ensures ListPart(bl3, rs, l + [s], if l == [] then PtrOf(rs, s) else first, PtrOf(rs, s))
    ensures RawRows(bl3, rs, l + [s]) == RawRows(bl, rs, l) + [row]
  {
    hide Slots, Inserted, UsedCount, Type, CountOk, SameTypes, OnlySlots, OnlyCount;
    InsertList(Slots(bl, rs), rs, l, first, last, s, row);
    InsertCounts(bl, bl2, bl3, rs, l, s, row);
  }

  lemma InsertCounts(bl: seq<Block>, bl2: seq<Block>, bl3: seq<Block>, rs: nat, l: seq<Slot>, s: Slot, row: seq<byte>)
    requires Sized(bl, BlockSizeFor(rs)) && CountOk(bl, Slots(bl, rs)) && AllIn(Slots(bl, rs), l)
    requires forall i: nat | i < |l| :: NodeOk(Slots(bl, rs), rs, l, i)
    requires s in Slots(bl, rs) && Slots(bl, rs)[s].used == 0
    requires OnlySlots(bl, bl2, rs, Inserted(Slots(bl, rs), rs, l, s, row))
    requires IsType(bl2, s.block, TABLE) && At(bl2, s.block)[ROWS_IN_BLOCK] < 255
    requires OnlyCount(bl2, bl3, rs, s.block, At(bl2, s.block)[ROWS_IN_BLOCK] + 1)
    ensures Sized(bl3, BlockSizeFor(rs)) && Slots(bl3, rs) == Inserted(Slots(bl, rs), rs, l, s, row)
    ensures CountOk(bl3, Slots(bl3, rs))
  {
    hide Slots, Inserted, UsedCount, Type, CountOk, SameTypes, OnlySlots, OnlyCount, NodeOk, Sized, AllIn;
    var t := Slots(bl, rs);
    var t' := Inserted(t, rs, l, s, row);
    SlotBlockCount(bl, bl2, rs, t', s.block);
    var n := At(bl2, s.block)[ROWS_IN_BLOCK] + 1;
    SameCounts(bl, bl2, bl3, rs, t', s.block, n);
    forall b: nat ensures UsedCount(t', b) == UsedCount(t, b) + if b == s.block then 1 else 0 {
      InsertedUsed(t, rs, l, s, row, b);
    }
    CountsRight(bl, bl3, t, t', s.block, n);
  }

  lemma SlotBlockCount(bl: seq<Block>, bl2: seq<Block>, rs: nat, t': map<Slot, RowSpec>, b: nat)
    requires Sized(bl, BlockSizeFor(rs)) && CountOk(bl, Slots(bl, rs)) && OnlySlots(bl, bl2, rs, t')
    requires IsType(bl, b, TABLE)
    ensures IsType(bl2, b, TABLE) && At(bl2, b)[ROWS_IN_BLOCK] as nat == UsedCount(Slots(bl, rs), b)
  {
    hide Slots, UsedCount, Type;
    assert InFile(bl, b);
  }

  lemma SameCounts(bl: seq<Block>, bl2: seq<Block>, bl3: seq<Block>, rs: nat, t: map<Slot, RowSpec>, b: nat, n: byte)
    requires OnlySlots(bl, bl2, rs, t) && OnlyCount(bl2, bl3, rs, b, n)
    ensures SameTypes(bl, bl3) && Sized(bl3, BlockSizeFor(rs)) && Slots(bl3, rs) == t
    ensures forall c: nat | InFile(bl, c) :: At(bl3, c)[ROWS_IN_BLOCK] == if c == b then n else At(bl, c)[ROWS_IN_BLOCK]
  {
  }

  // ---- remove, after the row's heap data was freed ----

  /** The pointers in a sound list can be stored. */
  lemma LinkEncodable(bl: seq<Block>, rs: nat, l: seq<Slot>, i: nat)
    requires |bl| < U32_LIMIT && BlockSizeFor(rs) < U32_LIMIT
    requires Sized(bl, BlockSizeFor(rs)) && AllIn(Slots(bl, rs), l)
    requires i <= |l|
    ensures LinkTo(rs, l, i).Encodable()
  {
    hide SlotOff;
    if i < |l| {
      assert l[i] in Slots(bl, rs);
      SlotInBlock(rs, l[i].index);
    }
  }

  /** The table after the predecessor of row `i` was pointed past it. */
  ghost function Unlinked(t: map<Slot, RowSpec>, l: seq<Slot>, i: nat): map<Slot, RowSpec>
    requires AllIn(t, l) && i < |l|
  {
    if i == 0 then t else t[l[i - 1] := t[l[i - 1]].(next := t[l[i]].next)]
  }

  /** The order of the two writes to the table does not matter. */
  lemma RemovedMap(t: map<Slot, RowSpec>, l: seq<Slot>, i: nat)
    requires AllIn(t, l) && i < |l| && Distinct(l)
    ensures Removed(t, l, i) == Unlinked(t, l, i)[l[i] := t[l[i]].(used := 0)]
  {
  }

  lemma RemovedUsed(t: map<Slot, RowSpec>, l: seq<Slot>, i: nat, b: nat)
    requires AllIn(t, l) && i < |l| && t[l[i]].used != 0 && l[i].index < SLOTS && Distinct(l)
    ensures UsedCount(Removed(t, l, i), b) == UsedCount(t, b) - if b == l[i].block then 1 else 0
  {
    assert l[i] == Slot(l[i].block, l[i].index);
    assert l[i].index in UsedIn(t, l[i].block);
    assert UsedIn(Removed(t, l, i), b) == if b == l[i].block then UsedIn(t, b) - {l[i].index} else UsedIn(t, b);
  }

  lemma ListedSlot(bl: seq<Block>, rs: nat, l: seq<Slot>, first: Ptr, last: Ptr, i: nat)
    requires ListPart(bl, rs, l, first, last) && i < |l|
    ensures l[i] in Slots(bl, rs) && IsSlot(bl, l[i]) && Slots(bl, rs)[l[i]].used != 0
    ensures Slots(bl, rs)[l[i]].next == LinkTo(rs, l, i + 1)
    ensures At(bl, l[i].block)[ROWS_IN_BLOCK] as nat == UsedCount(Slots(bl, rs), l[i].block)
    ensures 0 < At(bl, l[i].block)[ROWS_IN_BLOCK]
  {
    var t := Slots(bl, rs);
    assert NodeOk(t, rs, l, i);
    assert l[i] == Slot(l[i].block, l[i].index);
    assert l[i].index in UsedIn(t, l[i].block);
  }

  /** The list part after `remove`: the row is gone, the others stay in order, and its block counts
      one less. */
  lemma RemoveListPart(bl: seq<Block>, bl1: seq<Block>, bl2: seq<Block>, bl3: seq<Block>, rs: nat, l: seq<Slot>,
                       first: Ptr, last: Ptr, i: nat, n: byte)
    requires ListPart(bl, rs, l, first, last) && i < |l| && l[i] in Slots(bl, rs)
    requires OnlySlots(bl, bl1, rs, Unlinked(Slots(bl, rs), l, i))
    requires n as nat == UsedCount(Slots(bl, rs), l[i].block) - 1
    requires OnlyCount(bl1, bl2, rs, l[i].block, n)
    requires OnlySlots(bl2, bl3, rs, Unlinked(Slots(bl, rs), l, i)[l[i] := Slots(bl, rs)[l[i]].(used := 0)])
    ensures var next := Slots(bl, rs)[l[i]].next;
            ListPart(bl3, rs, l[..i] + l[i + 1..], if i == 0 then next else first,
                     if next.IsNull() then (if i == 0 then NULL else PtrOf(rs, l[i - 1])) else last)
    ensures RawRows(bl3, rs, l[..i] + l[i + 1..]) == RawRows(bl, rs, l)[..i] + RawRows(bl, rs, l)[i + 1..]
  {
    ListedSlot(bl, rs, l, first, last, i);
    RemoveList(Slots(bl, rs), rs, l, first, last, i);
    RemoveCounts(bl, bl1, bl2, bl3, rs, l, i, n);
  }

  lemma RemoveCounts(bl: seq<Block>, bl1: seq<Block>, bl2: seq<Block>, bl3: seq<Block>, rs: nat, l: seq<Slot>, i: nat,
                     n: byte)
    requires Sized(bl, BlockSizeFor(rs)) && CountOk(bl, Slots(bl, rs)) && Distinct(l) && AllIn(Slots(bl, rs), l)
    requires i < |l| && l[i] in Slots(bl, rs) && Slots(bl, rs)[l[i]].used != 0
    requires OnlySlots(bl, bl1, rs, Unlinked(Slots(bl, rs), l, i))
    requires n as nat == UsedCount(Slots(bl, rs), l[i].block) - 1
    requires OnlyCount(bl1, bl2, rs, l[i].block, n)
    requires OnlySlots(bl2, bl3, rs, Unlinked(Slots(bl, rs), l, i)[l[i] := Slots(bl, rs)[l[i]].(used := 0)])
    ensures Sized(bl3, BlockSizeFor(rs)) && Slots(bl3, rs) == Removed(Slots(bl, rs), l, i)
    ensures CountOk(bl3, Slots(bl3, rs))
  {
    hide Slots, Removed, Unlinked, UsedCount, Type, CountOk, SameTypes, OnlySlots, OnlyCount, Sized, AllIn, Distinct;
    var t := Slots(bl, rs);
    forall b: nat ensures UsedCount(Removed(t, l, i), b) == UsedCount(t, b) - if b == l[i].block then 1 else 0 {
      RemovedUsed(t, l, i, b);
    }
    RemovedMap(t, l, i);
    SameCounts(bl, bl1, bl2, rs, Unlinked(t, l, i), l[i].block, n);
    SameCountsLater(bl, bl2, bl3, rs, Removed(t, l, i), l[i].block, n);
    CountsRight(bl, bl3, t, Removed(t, l, i), l[i].block, n);
  }

  lemma SameCountsLater(bl: seq<Block>, bl2: seq<Block>, bl3: seq<Block>, rs: nat, t: map<Slot, RowSpec>, b: nat,
                        n: byte)
    requires SameTypes(bl, bl2) && OnlySlots(bl2, bl3, rs, t)
    requires forall c: nat | InFile(bl, c) :: At(bl2, c)[ROWS_IN_BLOCK] == if c == b then n
             else At(bl, c)[ROWS_IN_BLOCK]
    ensures SameTypes(bl, bl3) && Sized(bl3, BlockSizeFor(rs)) && Slots(bl3, rs) == t
    ensures forall c: nat | InFile(bl, c) :: At(bl3, c)[ROWS_IN_BLOCK] == if c == b then n else At(bl, c)[ROWS_IN_BLOCK]
  {
  }

  // ---- The writes of insert and remove, as functions of the blocks ----

  /** Bytes written at `p`, if they lie in the file. */
  function Put(bl: seq<Block>, p: Ptr, bs: seq<byte>): (r: seq<Block>)
    ensures |r| == |bl|
  {
    if InBlock(bl, p, |bs|) then Written(bl, p, bs) else bl
  }

  predicate InBlock(bl: seq<Block>, p: Ptr, n: nat) {
    InFile(bl, p.block) && p.off + n <= |At(bl, p.block)|
  }

  function CountAt(bl: seq<Block>, b: nat): byte {
    if InFile(bl, b) then At(bl, b)[ROWS_IN_BLOCK] else 0
  }

  /** `rows_in_block++` and `rows_in_block--` on a byte. */
  function Up(n: byte): byte { if n == 255 then 0 else n + 1 }

  function Down(n: byte): byte { if n == 0 then 255 else n - 1 }

  function Row1(row: seq<byte>): seq<byte> { EncodeSpec(RowSpec(NULL, 1, row)) }

  function LinkedIn(bl: seq<Block>, p: Ptr, last: Ptr, row: seq<byte>): seq<Block> {
    var b1 := Put(bl, p, Row1(row));
    var b2 := if last.IsNull() then b1 else Put(b1, last, EncodePtr(p));
    Put(b2, Ptr(p.block, ROWS_IN_BLOCK), [Up(CountAt(b2, p.block))])
  }

  function UnlinkedFrom(bl: seq<Block>, p: Ptr, prev: Ptr, spec: RowSpec): seq<Block> {
    var b1 := if prev.IsNull() then bl else Put(bl, prev, EncodePtr(spec.next));
    var b2 := Put(b1, Ptr(p.block, ROWS_IN_BLOCK), [Down(CountAt(b1, p.block))]);
    Put(b2, p, EncodeSpec(spec.(used := 0)))
  }

  /** What every write to a Table block keeps. */
  ghost predicate KeepsRest(bl: seq<Block>, bl': seq<Block>, lastTable: nat, lastHeap: nat) {
    Chains(bl', lastTable, lastHeap) && SameTypes(bl, bl') && Grown(bl, bl', multiset{})
  }

  lemma KeepsTrans(a: seq<Block>, b: seq<Block>, c: seq<Block>, lastTable: nat, lastHeap: nat)
    requires KeepsRest(a, b, lastTable, lastHeap) && KeepsRest(b, c, lastTable, lastHeap)
    ensures KeepsRest(a, c, lastTable, lastHeap)
  {
    hide Grown, Chains, Type;
    GrownAfterNothing(a, b, c, multiset{});
    forall i: nat | InFile(a, i) ensures Type(At(c, i)) == Type(At(a, i)) {
      assert InFile(b, i);
    }
  }

  lemma PutRowStep(bl: seq<Block>, rs: nat, s: Slot, spec: RowSpec, lastTable: nat, lastHeap: nat)
    requires Sized(bl, BlockSizeFor(rs)) && IsSlot(bl, s) && |spec.row| == rs && spec.next.Encodable()
    requires Chains(bl, lastTable, lastHeap)
    ensures var bl' := Put(bl, PtrOf(rs, s), EncodeSpec(spec));
            && OnlySlots(bl, bl', rs, Slots(bl, rs)[s := spec]) && KeepsRest(bl, bl', lastTable, lastHeap)
  {
    hide SlotOff, OnlySlots, Chains, Grown, EncodeSpec, Slots, Written;
    SlotInBlock(rs, s.index);
    PutRowEffect(bl, rs, s, spec);
    TableWrite(bl, PtrOf(rs, s), EncodeSpec(spec), lastTable, lastHeap);
  }

  lemma PutNextStep(bl: seq<Block>, rs: nat, s: Slot, next: Ptr, lastTable: nat, lastHeap: nat)
    requires Sized(bl, BlockSizeFor(rs)) && s in Slots(bl, rs) && next.Encodable()
    requires Chains(bl, lastTable, lastHeap)
    ensures var bl' := Put(bl, PtrOf(rs, s), EncodePtr(next));
            && OnlySlots(bl, bl', rs, Slots(bl, rs)[s := Slots(bl, rs)[s].(next := next)])
            && KeepsRest(bl, bl', lastTable, lastHeap)
  {
    hide SlotOff, OnlySlots, Chains, Grown, EncodePtr, Written;
    SlotInBlock(rs, s.index);
    PutNextEffect(bl, rs, s, next);
    TableWrite(bl, PtrOf(rs, s), EncodePtr(next), lastTable, lastHeap);
  }

  lemma PutCountStep(bl: seq<Block>, rs: nat, b: nat, n: byte, lastTable: nat, lastHeap: nat)
    requires Sized(bl, BlockSizeFor(rs)) && IsType(bl, b, TABLE)
    requires Chains(bl, lastTable, lastHeap)
    ensures var bl' := Put(bl, Ptr(b, ROWS_IN_BLOCK), [n]);
            OnlyCount(bl, bl', rs, b, n) && KeepsRest(bl, bl', lastTable, lastHeap)
  {
    hide Slots, Chains, Grown, Written;
    CountByte(bl, rs, b, n);
    TableWrite(bl, Ptr(b, ROWS_IN_BLOCK), [n], lastTable, lastHeap);
  }

  lemma SlotEncodable(bl: seq<Block>, rs: nat, s: Slot)
    requires |bl| < U32_LIMIT && BlockSizeFor(rs) < U32_LIMIT && IsSlot(bl, s)
    ensures PtrOf(rs, s).Encodable() && !PtrOf(rs, s).IsNull()
  {
    hide SlotOff;
    SlotInBlock(rs, s.index);
  }

  /** Linking a row into a free slot of a Table block. */
  lemma LinkedInCorrect(bl: seq<Block>, rs: nat, l: seq<Slot>, first: Ptr, last: Ptr, s: Slot, row: seq<byte>,
                        lastTable: nat, lastHeap: nat)
    requires ListPart(bl, rs, l, first, last) && Chains(bl, lastTable, lastHeap)
    requires |bl| < U32_LIMIT && BlockSizeFor(rs) < U32_LIMIT
    requires s in Slots(bl, rs) && Slots(bl, rs)[s].used == 0 && |row| == rs && IsSlot(bl, s)
    ensures var bl' := LinkedIn(bl, PtrOf(rs, s), last, row);
            && ListPart(bl', rs, l + [s], if l == [] then PtrOf(rs, s) else first, PtrOf(rs, s))
            && RawRows(bl', rs, l + [s]) == RawRows(bl, rs, l) + [row]
            && KeepsRest(bl, bl', lastTable, lastHeap)
  {
    hide SlotOff, Slots, Chains, Put, EncodePtr, EncodeSpec, KeepsRest, OnlySlots, OnlyCount, ListOk, CountOk, AllIn,
         Inserted, Sized, RawRows;
    var p := PtrOf(rs, s);
    var t := Slots(bl, rs);
    SlotEncodable(bl, rs, s);
    var b1 := Put(bl, p, Row1(row));
    PutRowStep(bl, rs, s, RowSpec(NULL, 1, row), lastTable, lastHeap);
    var b2 := if last.IsNull() then b1 else Put(b1, last, EncodePtr(p));
    LinkSecond(bl, b1, rs, l, first, last, s, row, lastTable, lastHeap);
    InsertRoom(bl, b2, rs, l, first, last, s, Inserted(t, rs, l, s, row));
    PutCountStep(b2, rs, s.block, Up(CountAt(b2, p.block)), lastTable, lastHeap);
    var b3 := LinkedIn(bl, p, last, row);
    InsertListPart(bl, b2, b3, rs, l, first, last, s, row);
    KeepsTrans(bl, b2, b3, lastTable, lastHeap);
  }

  lemma LinkSecond(bl: seq<Block>, b1: seq<Block>, rs: nat, l: seq<Slot>, first: Ptr, last: Ptr, s: Slot,
                   row: seq<byte>,
                   lastTable: nat, lastHeap: nat)
    requires ListPart(bl, rs, l, first, last)
    requires |bl| < U32_LIMIT && BlockSizeFor(rs) < U32_LIMIT
    requires s in Slots(bl, rs) && PtrOf(rs, s).Encodable()
    requires OnlySlots(bl, b1, rs, Slots(bl, rs)[s := RowSpec(NULL, 1, row)]) && KeepsRest(bl, b1, lastTable, lastHeap)
    ensures var b2 := if last.IsNull() then b1 else Put(b1, last, EncodePtr(PtrOf(rs, s)));
            && OnlySlots(bl, b2, rs, Inserted(Slots(bl, rs), rs, l, s, row))
            && KeepsRest(bl, b2, lastTable, lastHeap)
            && Chains(b2, lastTable, lastHeap) && Sized(b2, BlockSizeFor(rs))
  {
    hide SlotOff, Chains, Grown, Type, Put, EncodePtr, CountOk, Distinct, Complete;
    if l != [] {
      var z := l[|l| - 1];
      assert z in Slots(bl, rs);
      SlotEncodable(bl, rs, z);
      PutNextStep(b1, rs, z, PtrOf(rs, s), lastTable, lastHeap);
      var b2 := Put(b1, last, EncodePtr(PtrOf(rs, s)));
      OnlySlotsTrans(bl, b1, b2, rs, Slots(b1, rs), Inserted(Slots(bl, rs), rs, l, s, row));
      KeepsTrans(bl, b1, b2, lastTable, lastHeap);
    }
  }

  lemma UnlinkFirst(bl: seq<Block>, rs: nat, l: seq<Slot>, first: Ptr, last: Ptr, i: nat, lastTable: nat, lastHeap: nat)
    requires ListPart(bl, rs, l, first, last) && Chains(bl, lastTable, lastHeap) && i < |l|
    requires |bl| < U32_LIMIT && BlockSizeFor(rs) < U32_LIMIT
    ensures l[i] in Slots(bl, rs)
    ensures var b1 := if i == 0 then bl else Put(bl, PtrOf(rs, l[i - 1]), EncodePtr(Slots(bl, rs)[l[i]].next));
            && OnlySlots(bl, b1, rs, Unlinked(Slots(bl, rs), l, i))
            && KeepsRest(bl, b1, lastTable, lastHeap)
            && Chains(b1, lastTable, lastHeap) && Sized(b1, BlockSizeFor(rs)) && IsSlot(b1, l[i])
            && CountAt(b1, l[i].block) as nat == UsedCount(Slots(bl, rs), l[i].block)
            && Slots(bl, rs)[l[i]].next.Encodable()
            && 0 < UsedCount(Slots(bl, rs), l[i].block) < 256
  {
    hide SlotOff, Chains, Grown, Type, Put, EncodePtr, CountOk, Distinct, Complete, Slots, UsedCount;
    ListedSlot(bl, rs, l, first, last, i);
    LinkEncodable(bl, rs, l, i + 1);
    if i == 0 {
      KeepsRefl(bl, lastTable, lastHeap);
    } else {
      ListedSlot(bl, rs, l, first, last, i - 1);
      PutNextStep(bl, rs, l[i - 1], Slots(bl, rs)[l[i]].next, lastTable, lastHeap);
    }
    assert InFile(bl, l[i].block);
  }

  lemma KeepsRefl(bl: seq<Block>, lastTable: nat, lastHeap: nat)
    requires Chains(bl, lastTable, lastHeap)
    ensures KeepsRest(bl, bl, lastTable, lastHeap)
  {
    hide Chains;
    GrownRefl(bl);
  }

  /** Taking row `i` out of the list. */
  lemma UnlinkedFromCorrect(bl: seq<Block>, rs: nat, l: seq<Slot>, first: Ptr, last: Ptr, i: nat, lastTable: nat,
                            lastHeap: nat)
    requires ListPart(bl, rs, l, first, last) && Chains(bl, lastTable, lastHeap) && i < |l|
    requires |bl| < U32_LIMIT && BlockSizeFor(rs) < U32_LIMIT
    ensures l[i] in Slots(bl, rs)
    ensures var spec := Slots(bl, rs)[l[i]];
            var prev := if i == 0 then NULL else PtrOf(rs, l[i - 1]);
            var bl' := UnlinkedFrom(bl, PtrOf(rs, l[i]), prev, spec);
            && ListPart(bl', rs, l[..i] + l[i + 1..], if i == 0 then spec.next else first,
                        if spec.next.IsNull() then prev else last)
            && RawRows(bl', rs, l[..i] + l[i + 1..]) == RawRows(bl, rs, l)[..i] + RawRows(bl, rs, l)[i + 1..]
            && KeepsRest(bl, bl', lastTable, lastHeap)
  {
    hide SlotOff, Slots, Chains, Put, EncodePtr, EncodeSpec, KeepsRest, OnlySlots, OnlyCount, ListOk, CountOk, AllIn,
         Unlinked, Sized, RawRows, UsedCount;
    UnlinkFirst(bl, rs, l, first, last, i, lastTable, lastHeap);
    var spec := Slots(bl, rs)[l[i]];
    var p, prev := PtrOf(rs, l[i]), if i == 0 then NULL else PtrOf(rs, l[i - 1]);
    if i > 0 {
      ListedSlot(bl, rs, l, first, last, i - 1);
    }
    var b1 := if prev.IsNull() then bl else Put(bl, prev, EncodePtr(spec.next));
    var n := Down(CountAt(b1, p.block));
    PutCountStep(b1, rs, l[i].block, n, lastTable, lastHeap);
    var b2 := Put(b1, Ptr(p.block, ROWS_IN_BLOCK), [n]);
    UnlinkLast(bl, b1, b2, rs, l, first, last, i, n, lastTable, lastHeap);
    KeepsTrans(bl, b1, b2, lastTable, lastHeap);
    KeepsTrans(bl, b2, UnlinkedFrom(bl, p, prev, spec), lastTable, lastHeap);
  }

  lemma UnlinkLast(bl: seq<Block>, b1: seq<Block>, b2: seq<Block>, rs: nat, l: seq<Slot>, first: Ptr, last: Ptr,
                   i: nat, n: byte,
                   lastTable: nat, lastHeap: nat)
    requires ListPart(bl, rs, l, first, last) && i < |l| && l[i] in Slots(bl, rs)
    requires OnlySlots(bl, b1, rs, Unlinked(Slots(bl, rs), l, i))
    requires OnlyCount(b1, b2, rs, l[i].block, n) && KeepsRest(b1, b2, lastTable, lastHeap)
    requires n as nat == UsedCount(Slots(bl, rs), l[i].block) - 1
    requires Slots(bl, rs)[l[i]].next.Encodable()
    ensures var spec := Slots(bl, rs)[l[i]];
            var b3 := Put(b2, PtrOf(rs, l[i]), EncodeSpec(spec.(used := 0)));
            && KeepsRest(b2, b3, lastTable, lastHeap)
            && ListPart(b3, rs, l[..i] + l[i + 1..], if i == 0 then spec.next else first,
                     if spec.next.IsNull() then (if i == 0 then NULL else PtrOf(rs, l[i - 1])) else last)
            && RawRows(b3, rs, l[..i] + l[i + 1..]) == RawRows(bl, rs, l)[..i] + RawRows(bl, rs, l)[i + 1..]
  {
    hide SlotOff, Slots, Chains, Put, EncodeSpec, KeepsRest, OnlySlots, OnlyCount, ListOk, CountOk, AllIn, Unlinked,
         Sized, RawRows, UsedCount, SpecAt;
    var spec := Slots(bl, rs)[l[i]];
    var b3 := Put(b2, PtrOf(rs, l[i]), EncodeSpec(spec.(used := 0)));
    SlotKept(bl, b1, b2, rs, l, i, n, lastTable, lastHeap);
    PutRowStep(b2, rs, l[i], spec.(used := 0), lastTable, lastHeap);
    RemoveListPart(bl, b1, b2, b3, rs, l, first, last, i, n);
  }

  lemma SlotKept(bl: seq<Block>, b1: seq<Block>, b2: seq<Block>, rs: nat, l: seq<Slot>, i: nat, n: byte,
                 lastTable: nat, lastHeap: nat)
    requires Sized(bl, BlockSizeFor(rs)) && AllIn(Slots(bl, rs), l) && i < |l| && l[i] in Slots(bl, rs)
    requires OnlySlots(bl, b1, rs, Unlinked(Slots(bl, rs), l, i))
    requires OnlyCount(b1, b2, rs, l[i].block, n) && KeepsRest(b1, b2, lastTable, lastHeap)
    ensures IsSlot(b2, l[i]) && Sized(b2, BlockSizeFor(rs)) && Chains(b2, lastTable, lastHeap)
    ensures Slots(b2, rs) == Unlinked(Slots(bl, rs), l, i)
    ensures |Slots(bl, rs)[l[i]].row| == rs
  {
    hide Type, Grown, Chains, SlotOff, Unlinked;
    SlotInBlock(rs, l[i].index);
    assert InFile(bl, l[i].block) && InFile(b1, l[i].block);
  }

  /** Rewriting row `i` in place. */
  lemma RewrittenCorrect(bl: seq<Block>, rs: nat, l: seq<Slot>, first: Ptr, last: Ptr, i: nat, row: seq<byte>,
                         lastTable: nat, lastHeap: nat)
    requires ListPart(bl, rs, l, first, last) && Chains(bl, lastTable, lastHeap) && i < |l| && |row| == rs
    requires |bl| < U32_LIMIT && BlockSizeFor(rs) < U32_LIMIT
    ensures l[i] in Slots(bl, rs)
    ensures var bl' := Put(bl, PtrOf(rs, l[i]), EncodeSpec(Slots(bl, rs)[l[i]].(row := row)));
            && ListPart(bl', rs, l, first, last)
            && RawRows(bl', rs, l) == RawRows(bl, rs, l)[i := row]
            && KeepsRest(bl, bl', lastTable, lastHeap)
  {
    hide SlotOff, Slots, Chains, Put, EncodeSpec, KeepsRest, ListOk, CountOk, AllIn, Sized, UsedCount, SpecAt;
    ListedSlot(bl, rs, l, first, last, i);
    LinkEncodable(bl, rs, l, i + 1);
    var spec := Slots(bl, rs)[l[i]].(row := row);
    PutRowStep(bl, rs, l[i], spec, lastTable, lastHeap);
    RewriteList(Slots(bl, rs), rs, l, first, last, i, row);
    RewriteCounts(bl, Put(bl, PtrOf(rs, l[i]), EncodeSpec(spec)), rs, l[i], row);
  }

  lemma RewriteCounts(bl: seq<Block>, bl': seq<Block>, rs: nat, s: Slot, row: seq<byte>)
    requires Sized(bl, BlockSizeFor(rs)) && CountOk(bl, Slots(bl, rs)) && s in Slots(bl, rs)
    requires OnlySlots(bl, bl', rs, Slots(bl, rs)[s := Slots(bl, rs)[s].(row := row)])
    ensures Sized(bl', BlockSizeFor(rs)) && CountOk(bl', Slots(bl', rs))
  {
    hide SpecAt, Type;
    forall b: nat | IsType(bl', b, TABLE) ensures At(bl', b)[ROWS_IN_BLOCK] as nat == UsedCount(Slots(bl', rs), b) {
      assert InFile(bl, b) && IsType(bl, b, TABLE);
      assert UsedIn(Slots(bl', rs), b) == UsedIn(Slots(bl, rs), b);
    }
  }
}
