/** Row slots of Table blocks and the singly linked list of rows threaded through them
    (db/storage/edb/Definitions.hpp:88-105, db/storage/edb/EDBFile.cpp:375-474). */
module RowList {
  import opened Bytes
  import opened Blocks
  import opened RowCodec

  /** `sizeof(RowSpec)`: the pointer to the next row and the used flag. */
  const SLOT_HEADER: nat := 9
  /** Block header, then the `rows_in_block` byte. */
  const ROWS_IN_BLOCK: nat := 9
  const FIRST_SLOT: nat := 10
  const SLOTS: nat := 255

  datatype Slot = Slot(block: nat, index: nat)

  datatype RowSpec = RowSpec(next: Ptr, used: byte, row: seq<byte>)

  /** Offset of slot `k` in its block, for rows of `rs` bytes. */
  ghost function SlotOff(rs: nat, k: nat): nat {
    if k == 0 then FIRST_SLOT else SlotOff(rs, k - 1) + SLOT_HEADER + rs
  }

  /** The block size `write_header_first_pass` computes. */
  function BlockSizeFor(rs: nat): nat {
    (SLOT_HEADER + rs) * 255 + FIRST_SLOT
  }

  lemma {:induction false} SlotOffLinear(rs: nat, k: nat)
    ensures SlotOff(rs, k) == 10 + (9 + rs) * k
  {
    if k > 0 {
      SlotOffLinear(rs, k - 1);
      assert (SLOT_HEADER + rs) * k == (SLOT_HEADER + rs) * (k - 1) + SLOT_HEADER + rs;
    }
  }

  /** A block has room for exactly 255 slots. */
  lemma ExactlyFull(rs: nat)
    ensures SlotOff(rs, SLOTS) == BlockSizeFor(rs)
  {
    SlotOffLinear(rs, SLOTS);
  }

  lemma {:induction false} SlotsApart(rs: nat, j: nat, k: nat)
    requires j < k
    ensures SlotOff(rs, j) + SLOT_HEADER + rs <= SlotOff(rs, k)
  {
    if j < k - 1 {
      SlotsApart(rs, j, k - 1);
    }
  }

  lemma {:induction false} SlotInBlock(rs: nat, k: nat)
    requires k < SLOTS
    ensures FIRST_SLOT <= SlotOff(rs, k) && SlotOff(rs, k) + SLOT_HEADER + rs <= BlockSizeFor(rs)
  {
    ExactlyFull(rs);
    SlotsApart(rs, k, SLOTS);
    if k > 0 {
      SlotsApart(rs, 0, k);
    }
  }

  ghost function PtrOf(rs: nat, s: Slot): Ptr {
    Ptr(s.block, SlotOff(rs, s.index))
  }

  lemma PtrOfInjective(rs: nat, s: Slot, t: Slot)
    requires PtrOf(rs, s) == PtrOf(rs, t)
    ensures s == t
  {
    if s.index < t.index {
      SlotsApart(rs, s.index, t.index);
    } else if t.index < s.index {
      SlotsApart(rs, t.index, s.index);
    }
  }

  ghost predicate IsSlot(bl: seq<Block>, s: Slot) {
    IsType(bl, s.block, TABLE) && s.index < SLOTS
  }

  /** The row specification found at slot `k` of a block. */
  ghost function SpecAt(b: Block, rs: nat, k: nat): RowSpec
    requires k < SLOTS && |b| == BlockSizeFor(rs)
  {
    SlotInBlock(rs, k);
    var o := SlotOff(rs, k);
    RowSpec(DecodePtr(b[o..o + 8]), b[o + 8], b[o + SLOT_HEADER..o + SLOT_HEADER + rs])
  }

  /** All slots of all Table blocks. */
  ghost function Slots(bl: seq<Block>, rs: nat): (t: map<Slot, RowSpec>)
    requires Sized(bl, BlockSizeFor(rs))
    ensures forall s | s in t :: IsSlot(bl, s)
    ensures forall s | IsSlot(bl, s) :: s in t && t[s] == SpecAt(At(bl, s.block), rs, s.index)
  {
    map b: nat, k: nat | b <= |bl| && k < SLOTS && IsSlot(bl, Slot(b, k)) :: Slot(b, k) := SpecAt(At(bl, b), rs, k)
  }

  /** In bytes: a slot of a block of type 1 begins with the pointer to the next row, the used flag and the
      row. */
  lemma SlotBytes(bl: seq<Block>, rs: nat, s: Slot)
    requires Sized(bl, BlockSizeFor(rs)) && s in Slots(bl, rs)
    ensures 1 <= s.block <= |bl| && bl[s.block - 1][0] == 1 && s.index < 255
    ensures var b, o := bl[s.block - 1], SlotOff(rs, s.index);
            && o + 9 + rs <= |b|
            && Slots(bl, rs)[s] == RowSpec(Ptr(Val(b[o..o + 4]), Val(b[o + 4..o + 8])), b[o + 8], b[o + 9..o + 9 + rs])
  {
    hide Val, SlotOff;
    SlotInBlock(rs, s.index);
    var b, o := bl[s.block - 1], SlotOff(rs, s.index);
    assert b[o..o + 8][..4] == b[o..o + 4] && b[o..o + 8][4..] == b[o + 4..o + 8];
  }

  lemma SpecFrame(b: Block, rs: nat, k: nat, off: nat, bs: seq<byte>)
    requires k < SLOTS && |b| == BlockSizeFor(rs) && off + |bs| <= |b|
    requires off + |bs| <= SlotOff(rs, k) || SlotOff(rs, k) + SLOT_HEADER + rs <= off
    ensures SpecAt(Splice(b, off, bs), rs, k) == SpecAt(b, rs, k)
  {
    hide SlotOff, DecodePtr;
    SlotInBlock(rs, k);
    var o := SlotOff(rs, k);
    var r := Splice(b, off, bs);
    SpliceFrame(b, off, bs, o, o + 8);
    SpliceFrame(b, off, bs, o + 8, o + SLOT_HEADER);
    assert r[o + 8] == r[o + 8..o + SLOT_HEADER][0] == b[o + 8..o + SLOT_HEADER][0];
    SpliceFrame(b, off, bs, o + SLOT_HEADER, o + SLOT_HEADER + rs);
  }

  /** The bytes of a row specification. */
  function EncodeSpec(spec: RowSpec): (s: seq<byte>)
    ensures |s| == SLOT_HEADER + |spec.row|
  {
    EncodePtr(spec.next) + [spec.used] + spec.row
  }

  function DecodeSpec(s: seq<byte>): RowSpec
    requires SLOT_HEADER <= |s|
  {
    RowSpec(DecodePtr(s[..8]), s[8], s[SLOT_HEADER..])
  }

  lemma SpecRead(b: Block, rs: nat, k: nat)
    requires k < SLOTS && |b| == BlockSizeFor(rs)
    ensures SlotOff(rs, k) + SLOT_HEADER + rs <= |b|
    ensures DecodeSpec(b[SlotOff(rs, k)..SlotOff(rs, k) + SLOT_HEADER + rs]) == SpecAt(b, rs, k)
  {
    hide SlotOff, DecodePtr;
    SlotInBlock(rs, k);
    var o := SlotOff(rs, k);
    var s := b[o..o + SLOT_HEADER + rs];
    assert s[..8] == b[o..o + 8];
    assert s[SLOT_HEADER..] == b[o + SLOT_HEADER..o + SLOT_HEADER + rs];
  }

  lemma SpecWritten(b: Block, rs: nat, k: nat, spec: RowSpec)
    requires k < SLOTS && |b| == BlockSizeFor(rs) && |spec.row| == rs && spec.next.Encodable()
    ensures SlotOff(rs, k) + SLOT_HEADER + rs <= |b|
    ensures SpecAt(Splice(b, SlotOff(rs, k), EncodeSpec(spec)), rs, k) == spec
  {
    hide SlotOff, DecodePtr, EncodePtr;
    SlotInBlock(rs, k);
    var o := SlotOff(rs, k);
    var r := Splice(b, o, EncodeSpec(spec));
    PtrRoundTrip(spec.next);
    SpliceGet(b, o, EncodeSpec(spec));
    var w := r[o..o + SLOT_HEADER + rs];
    assert w == EncodePtr(spec.next) + [spec.used] + spec.row;
    assert r[o..o + 8] == w[..8] == EncodePtr(spec.next);
    assert r[o + 8] == w[8] == spec.used;
    assert r[o + SLOT_HEADER..o + SLOT_HEADER + rs] == w[SLOT_HEADER..] == spec.row;
  }

  lemma NextWritten(b: Block, rs: nat, k: nat, next: Ptr)
    requires k < SLOTS && |b| == BlockSizeFor(rs) && next.Encodable()
    ensures SlotOff(rs, k) + SLOT_HEADER + rs <= |b|
    ensures SpecAt(Splice(b, SlotOff(rs, k), EncodePtr(next)), rs, k) == SpecAt(b, rs, k).(next := next)
  {
    hide SlotOff, DecodePtr, EncodePtr;
    SlotInBlock(rs, k);
    var o := SlotOff(rs, k);
    var r := Splice(b, o, EncodePtr(next));
    PtrRoundTrip(next);
    SpliceGet(b, o, EncodePtr(next));
    SpliceFrame(b, o, EncodePtr(next), o + 8, o + SLOT_HEADER);
    assert r[o + 8] == r[o + 8..o + SLOT_HEADER][0] == b[o + 8..o + SLOT_HEADER][0];
    SpliceFrame(b, o, EncodePtr(next), o + SLOT_HEADER, o + SLOT_HEADER + rs);
  }

  /** Overwriting bytes inside slot `s` of a Table block changes no other slot. */
  lemma SlotsWritten(bl: seq<Block>, rs: nat, s: Slot, bs: seq<byte>)
    requires Sized(bl, BlockSizeFor(rs)) && IsSlot(bl, s) && |bs| <= SLOT_HEADER + rs
    ensures SlotOff(rs, s.index) + |bs| <= |At(bl, s.block)|
    ensures var bl' := Written(bl, PtrOf(rs, s), bs);
            && Sized(bl', BlockSizeFor(rs)) && SameTypes(bl, bl')
            && Slots(bl', rs) == Slots(bl, rs)[s := SpecAt(At(bl', s.block), rs, s.index)]
  {
    hide SlotOff, SpecAt, Splice;
    SlotInBlock(rs, s.index);
    var bl' := Written(bl, PtrOf(rs, s), bs);
    SpliceType(At(bl, s.block), SlotOff(rs, s.index), bs);
    forall x: Slot | IsSlot(bl, x) && x != s
      ensures SpecAt(At(bl', x.block), rs, x.index) == SpecAt(At(bl, x.block), rs, x.index)
    {
      if x.block == s.block {
        if x.index < s.index {
          SlotsApart(rs, x.index, s.index);
        } else {
          SlotsApart(rs, s.index, x.index);
        }
        SpecFrame(At(bl, s.block), rs, x.index, SlotOff(rs, s.index), bs);
      }
    }
    forall x: Slot ensures IsSlot(bl', x) <==> IsSlot(bl, x) {
    }
  }

  ghost predicate SameTypes(bl: seq<Block>, bl': seq<Block>) {
    |bl| == |bl'| && forall b: nat | InFile(bl, b) :: Type(At(bl', b)) == Type(At(bl, b))
  }

  lemma SpliceType(b: Block, off: nat, bs: seq<byte>)
    requires 1 <= off && off + |bs| <= |b|
    ensures Type(Splice(b, off, bs)) == Type(b)
  {
  }

  // ---- The list ----

  /** What `next_row` of row `i - 1` (or the header's first row) has to be. */
  ghost function LinkTo(rs: nat, l: seq<Slot>, i: nat): Ptr
    requires i <= |l|
  {
    if i == |l| then NULL else PtrOf(rs, l[i])
  }

  ghost function LastLink(rs: nat, l: seq<Slot>): Ptr {
    if l == [] then NULL else PtrOf(rs, l[|l| - 1])
  }

  ghost predicate Distinct(l: seq<Slot>) {
    forall i, j | 0 <= i < j < |l| :: l[i] != l[j]
  }

  ghost predicate NodeOk(t: map<Slot, RowSpec>, rs: nat, l: seq<Slot>, i: nat)
    requires i < |l|
  {
    l[i] in t && t[l[i]].used != 0 && t[l[i]].next == LinkTo(rs, l, i + 1)
  }

  ghost predicate Complete(t: map<Slot, RowSpec>, l: seq<Slot>) {
    forall s | s in t && t[s].used != 0 :: s in l
  }

  /** The list from `first` runs through the slots `l`, each once, ends at `last`, and passes
      through every used slot of the table. */
  ghost predicate ListOk(t: map<Slot, RowSpec>, rs: nat, l: seq<Slot>, first: Ptr, last: Ptr) {
    && Distinct(l)
    && first == LinkTo(rs, l, 0) && last == LastLink(rs, l)
    && (forall i: nat | i < |l| :: NodeOk(t, rs, l, i))
    && Complete(t, l)
  }

  ghost predicate AllIn(t: map<Slot, RowSpec>, l: seq<Slot>) {
    forall i: nat | i < |l| :: l[i] in t
  }

  lemma ListIn(t: map<Slot, RowSpec>, rs: nat, l: seq<Slot>)
    requires forall i: nat | i < |l| :: NodeOk(t, rs, l, i)
    ensures AllIn(t, l)
  {
    forall i: nat | i < |l| ensures l[i] in t {
      assert NodeOk(t, rs, l, i);
    }
  }

  /** In numbers: the header points to the slot of the first row, each row to that of the next one, the
      last one nowhere; the rows are those of the slots. */
  lemma ListInSlots(t: map<Slot, RowSpec>, rs: nat, l: seq<Slot>, first: Ptr, last: Ptr, i: nat)
    requires ListOk(t, rs, l, first, last) && i < |l|
    ensures l[i] in t && t[l[i]].used != 0
    ensures t[l[i]].next ==
            if i + 1 < |l| then Ptr(l[i + 1].block, 10 + (9 + rs) * l[i + 1].index) else Ptr(0, 0)
    ensures i == 0 ==> first == Ptr(l[0].block, 10 + (9 + rs) * l[0].index)
    ensures i + 1 == |l| ==> last == Ptr(l[i].block, 10 + (9 + rs) * l[i].index)
    ensures AllIn(t, l) && Rows(t, l)[i] == t[l[i]].row
    ensures forall x | x in t && t[x].used != 0 :: x in l
    ensures forall j | 0 <= j < |l| && j != i :: l[j] != l[i]
  {
    hide SlotOff;
    assert NodeOk(t, rs, l, i);
    ListIn(t, rs, l);
    SlotOffLinear(rs, l[i].index);
    if i + 1 < |l| {
      SlotOffLinear(rs, l[i + 1].index);
    }
  }

  /** The raw rows in list order. */
  ghost function Rows(t: map<Slot, RowSpec>, l: seq<Slot>): (r: seq<seq<byte>>)
    requires AllIn(t, l)
    ensures |r| == |l|
  {
    seq(|l|, i requires 0 <= i < |l| => t[l[i]].row)
  }

  /** The table after a row was put into free slot `s` and the old last row was pointed to it. */
  ghost function Inserted(t: map<Slot, RowSpec>, rs: nat, l: seq<Slot>, s: Slot, row: seq<byte>): map<Slot, RowSpec>
    requires AllIn(t, l) && s in t
  {
    var t1 := t[s := RowSpec(NULL, 1, row)];
    if l == [] then t1 else
      var z := l[|l| - 1];
      t1[z := t1[z].(next := PtrOf(rs, s))]
  }

  lemma InsertNode(t: map<Slot, RowSpec>, rs: nat, l: seq<Slot>, s: Slot, row: seq<byte>, i: nat)
    requires Distinct(l) && s !in l && AllIn(t, l) && s in t && i <= |l|
    requires i < |l| ==> NodeOk(t, rs, l, i)
    ensures var t' := Inserted(t, rs, l, s, row);
            NodeOk(t', rs, l + [s], i) && t'[(l + [s])[i]].row == (if i < |l| then t[l[i]].row else row)
  {
    hide PtrOf;
  }

  lemma InsertComplete(t: map<Slot, RowSpec>, rs: nat, l: seq<Slot>, s: Slot, row: seq<byte>)
    requires AllIn(t, l) && s in t && Complete(t, l)
    ensures Complete(Inserted(t, rs, l, s, row), l + [s])
  {
  }

  /** `insert` appends a row to the list. */
  lemma InsertList(t: map<Slot, RowSpec>, rs: nat, l: seq<Slot>, first: Ptr, last: Ptr, s: Slot, row: seq<byte>)
    requires ListOk(t, rs, l, first, last) && AllIn(t, l)
    requires s in t && t[s].used == 0
    ensures var t' := Inserted(t, rs, l, s, row);
            && ListOk(t', rs, l + [s], if l == [] then PtrOf(rs, s) else first, PtrOf(rs, s))
            && AllIn(t', l + [s])
            && Rows(t', l + [s]) == Rows(t, l) + [row]
  {
    hide PtrOf, NodeOk, Complete, Inserted;
    Unlisted(t, rs, l, s);
    var t' := Inserted(t, rs, l, s, row);
    var l' := l + [s];
    InsertComplete(t, rs, l, s, row);
    forall i: nat | i < |l'| ensures NodeOk(t', rs, l', i) && l'[i] in t' && t'[l'[i]].row == (Rows(t, l) + [row])[i] {
      InsertNode(t, rs, l, s, row, i);
      ListIn1(t', rs, l', i);
    }
  }

  lemma ListIn1(t: map<Slot, RowSpec>, rs: nat, l: seq<Slot>, i: nat)
    requires i < |l| && NodeOk(t, rs, l, i)
    ensures l[i] in t
  {
  }

  lemma Unlisted(t: map<Slot, RowSpec>, rs: nat, l: seq<Slot>, s: Slot)
    requires forall i: nat | i < |l| :: NodeOk(t, rs, l, i)
    requires s in t && t[s].used == 0
    ensures s !in l
  {
    forall i: nat | i < |l| ensures l[i] != s {
      assert NodeOk(t, rs, l, i);
    }
  }

  /** The table after row `i` of the list was unlinked and its slot marked unused. */
  ghost function Removed(t: map<Slot, RowSpec>, l: seq<Slot>, i: nat): map<Slot, RowSpec>
    requires AllIn(t, l) && i < |l|
  {
    var t1 := t[l[i] := t[l[i]].(used := 0)];
    if i == 0 then t1 else t1[l[i - 1] := t1[l[i - 1]].(next := t[l[i]].next)]
  }

  /** Position `j` of a list with position `i` taken out. */
  lemma Without(l: seq<Slot>, i: nat, j: nat)
    requires i < |l| && j < |l| - 1
    ensures (l[..i] + l[i + 1..])[j] == l[if j < i then j else j + 1]
  {
  }

  lemma RemoveNode(t: map<Slot, RowSpec>, rs: nat, l: seq<Slot>, i: nat, j: nat)
    requires Distinct(l) && AllIn(t, l) && i < |l| && j < |l| - 1
    requires forall k: nat | k < |l| :: NodeOk(t, rs, l, k)
    ensures var t' := Removed(t, l, i);
            var l' := l[..i] + l[i + 1..];
            && NodeOk(t', rs, l', j)
            && t'[l'[j]].row == t[l[if j < i then j else j + 1]].row
  {
    hide PtrOf;
    var k := if j < i then j else j + 1;
    Without(l, i, j);
    if j + 1 < |l| - 1 {
      Without(l, i, j + 1);
    }
    assert NodeOk(t, rs, l, i) && NodeOk(t, rs, l, k);
  }

  lemma RemoveComplete(t: map<Slot, RowSpec>, l: seq<Slot>, i: nat)
    requires AllIn(t, l) && i < |l| && Complete(t, l) && Distinct(l)
    ensures Complete(Removed(t, l, i), l[..i] + l[i + 1..])
  {
  }

  /** `remove` takes out one position of the list. */
  lemma RemoveList(t: map<Slot, RowSpec>, rs: nat, l: seq<Slot>, first: Ptr, last: Ptr, i: nat)
    requires ListOk(t, rs, l, first, last) && AllIn(t, l) && i < |l|
    requires forall s | s in t :: 1 <= s.block
    ensures var t' := Removed(t, l, i);
            var l' := l[..i] + l[i + 1..];
            && ListOk(t', rs, l', if i == 0 then t[l[i]].next else first,
                      if t[l[i]].next.IsNull() then (if i == 0 then NULL else PtrOf(rs, l[i - 1])) else last)
            && AllIn(t', l')
            && Rows(t', l') == Rows(t, l)[..i] + Rows(t, l)[i + 1..]
  {
    hide PtrOf, NodeOk, Complete, Removed;
    var t' := Removed(t, l, i);
    var l' := l[..i] + l[i + 1..];
    RemoveComplete(t, l, i);
    RemoveEnds(t, rs, l, first, last, i);
    forall j: nat | j < |l'|
      ensures NodeOk(t', rs, l', j) && l'[j] in t' && t'[l'[j]].row == (Rows(t, l)[..i] + Rows(t, l)[i + 1..])[j]
    {
      RemoveNode(t, rs, l, i, j);
      ListIn1(t', rs, l', j);
    }
  }

  lemma RemoveEnds(t: map<Slot, RowSpec>, rs: nat, l: seq<Slot>, first: Ptr, last: Ptr, i: nat)
    requires ListOk(t, rs, l, first, last) && AllIn(t, l) && i < |l|
    requires forall s | s in t :: 1 <= s.block
    ensures var l' := l[..i] + l[i + 1..];
            && Distinct(l')
            && (if i == 0 then t[l[i]].next else first) == LinkTo(rs, l', 0)
            && (if t[l[i]].next.IsNull() then (if i == 0 then NULL else PtrOf(rs, l[i - 1])) else last)
               == LastLink(rs, l')
  {
    var l' := l[..i] + l[i + 1..];
    assert NodeOk(t, rs, l, i);
    if i + 1 < |l| {
      assert l[i + 1] in t;
    }
  }

  /** Rewriting the bytes of row `i` in place keeps the list. */
  lemma RewriteList(t: map<Slot, RowSpec>, rs: nat, l: seq<Slot>, first: Ptr, last: Ptr, i: nat, row: seq<byte>)
    requires ListOk(t, rs, l, first, last) && AllIn(t, l) && i < |l|
    ensures l[i] in t
    ensures var t' := t[l[i] := t[l[i]].(row := row)];
            && ListOk(t', rs, l, first, last) && AllIn(t', l)
            && Rows(t', l) == Rows(t, l)[i := row]
  {
    hide PtrOf, LinkTo, LastLink;
    assert l[i] in t;
    var t' := t[l[i] := t[l[i]].(row := row)];
    forall j: nat | j < |l| ensures NodeOk(t', rs, l, j) && l[j] in t' && t'[l[j]].row == Rows(t, l)[i := row][j] {
      assert NodeOk(t, rs, l, j) && l[j] in t;
    }
    forall x | x in t' && t'[x].used != 0 ensures x in l {
      assert x in t && t[x].used != 0;
    }
  }
}
