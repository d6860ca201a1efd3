/** The invariant of a table file, and what inserting, removing and rewriting a row does to it. */
module TableOps {
  import opened Bytes
  import opened Blocks
  import opened RowCodec
  import opened RowList
  import opened TableStates
  import opened Ownership
  import opened Values

  /** The row list is sound, and the heap spans in use are exactly those the table name, the
      columns and the listed rows refer to, plus `leaked`. */
  ghost predicate StateOk(bl: seq<Block>, cs: seq<Column>, l: seq<Slot>, first: Ptr, last: Ptr, name: Span,
                          leaked: multiset<Span>) {
    && ListPart(bl, RowSize(cs), l, first, last)
    && Owned(bl, cs, name, RawRows(bl, RowSize(cs), l), leaked)
  }

  /** The tuples of the file, in list order. */
  ghost function TuplesIn(bl: seq<Block>, cs: seq<Column>, l: seq<Slot>): (r: seq<Tuple>)
    requires Sized(bl, BlockSizeFor(RowSize(cs))) && AllIn(Slots(bl, RowSize(cs)), l)
    ensures |r| == |l|
  {
    TuplesOf(bl, cs, RawRows(bl, RowSize(cs), l))
  }

  /** A heap operation that only brings spans into use: the file's content is unchanged, and the
      new spans are leaked as long as nothing refers to them. */
  lemma HeapGrowth(bl: seq<Block>, bl': seq<Block>, cs: seq<Column>, l: seq<Slot>, first: Ptr, last: Ptr,
                   name: Span, leaked: multiset<Span>, n: multiset<Span>)
    requires StateOk(bl, cs, l, first, last, name, leaked)
    requires HeapOnly(bl, bl') && Grown(bl, bl', n) && Sized(bl', BlockSizeFor(RowSize(cs)))
    ensures StateOk(bl', cs, l, first, last, name, leaked + n)
    ensures TuplesIn(bl', cs, l) == TuplesIn(bl, cs, l) && Content(bl', name) == Content(bl, name)
  {
    hide HeapOnly, Grown, Owned, TuplesOf, ListOk, CountOk, Content, RawRows;
    HeapOnlyList(bl, bl', RowSize(cs), l, first, last);
    OwnedGrown(bl, bl', cs, name, RawRows(bl, RowSize(cs), l), leaked, n);
  }

  /** A new empty Table block changes nothing. */
  lemma TableGrowth(bl: seq<Block>, cs: seq<Column>, l: seq<Slot>, first: Ptr, last: Ptr,
                    name: Span, leaked: multiset<Span>, lastTable: nat)
    requires StateOk(bl, cs, l, first, last, name, leaked)
    requires BlockSizeFor(RowSize(cs)) < U32_LIMIT && |bl| + 1 < U32_LIMIT
    requires lastTable == 0 || IsType(bl, lastTable, TABLE)
    ensures var bl' := Appended(bl, TABLE, lastTable, BlockSizeFor(RowSize(cs)));
            && StateOk(bl', cs, l, first, last, name, leaked)
            && TuplesIn(bl', cs, l) == TuplesIn(bl, cs, l) && Content(bl', name) == Content(bl, name)
  {
    hide Appended, Owned, TuplesOf, ListOk, CountOk, Content, RawRows;
    AppendedList(bl, lastTable, RowSize(cs), l, first, last);
    AppendedGrows(bl, TABLE, lastTable, BlockSizeFor(RowSize(cs)));
    var bl' := Appended(bl, TABLE, lastTable, BlockSizeFor(RowSize(cs)));
    OwnedGrown(bl, bl', cs, name, RawRows(bl, RowSize(cs), l), leaked, multiset{});
    assert leaked + multiset{} == leaked;
  }

  /** `insert`, once the row was written to the heap: the row becomes the last tuple and owns the
      spans that were allocated for it. */
  lemma InsertState(bl: seq<Block>, cs: seq<Column>, l: seq<Slot>, first: Ptr, last: Ptr, name: Span,
                    leaked: multiset<Span>,
                    s: Slot, fs: seq<Field>, lastTable: nat, lastHeap: nat)
    requires StateOk(bl, cs, l, first, last, name, leaked + SpansOf(fs)) && Chains(bl, lastTable, lastHeap)
    requires FieldsOk(cs, fs)
    requires |bl| < U32_LIMIT && BlockSizeFor(RowSize(cs)) < U32_LIMIT
    requires s in Slots(bl, RowSize(cs)) && Slots(bl, RowSize(cs))[s].used == 0
    ensures var p := PtrOf(RowSize(cs), s);
            var bl' := LinkedIn(bl, p, last, EncodeRow(cs, fs));
            && StateOk(bl', cs, l + [s], if l == [] then p else first, p, name, leaked)
            && TuplesIn(bl', cs, l + [s]) == TuplesIn(bl, cs, l) + [ValuesOf(bl, fs)]
            && KeepsRest(bl, bl', lastTable, lastHeap) && Content(bl', name) == Content(bl, name)
  {
    hide LinkedIn, Owned, TuplesOf, ListOk, CountOk, Content, RawRows, Chains, Grown, SpansOf, FieldsOf, SlotOff,
         ValuesOf, SameTypes, EncodeRow, Slots;
    var row := EncodeRow(cs, fs);
    var rs := RowSize(cs);
    var rows := RawRows(bl, rs, l);
    LinkedInCorrect(bl, rs, l, first, last, s, row, lastTable, lastHeap);
    var bl' := LinkedIn(bl, PtrOf(rs, s), last, row);
    OwnedGrown(bl, bl', cs, name, rows, leaked + SpansOf(fs), multiset{});
    assert leaked + SpansOf(fs) + multiset{} == leaked + SpansOf(fs);
    WrittenFields(cs, fs);
    OwnedInsert(bl', cs, name, rows, leaked, row);
    NewRowValues(bl, bl', cs, name, rows, leaked, fs);
  }

  lemma NewRowValues(bl: seq<Block>, bl': seq<Block>, cs: seq<Column>, name: Span, rows: seq<seq<byte>>,
                     leaked: multiset<Span>, fs: seq<Field>)
    requires Owned(bl, cs, name, rows, leaked + SpansOf(fs)) && Grown(bl, bl', multiset{})
    ensures ValuesOf(bl', fs) == ValuesOf(bl, fs)
  {
    hide InUse, Content, SpansOf, References, ValuesOf;
    forall sp | sp in SpansOf(fs) ensures Content(bl', sp) == Content(bl, sp) {
      var m := References(cs, name, rows) + (leaked + SpansOf(fs));
      assert m[sp] == if InUse(bl, sp) then 1 else 0;
      assert InUse(bl', sp);
    }
    ValuesFrame(bl, bl', fs);
  }

  /** `remove`, in two steps: the row's heap data is freed (`bl1`), then the row is unlinked. */
  lemma RemoveState(bl: seq<Block>, bl1: seq<Block>, cs: seq<Column>, l: seq<Slot>, first: Ptr, last: Ptr, name: Span,
                    leaked: multiset<Span>,
                    i: nat, lastTable: nat, lastHeap: nat)
    requires StateOk(bl, cs, l, first, last, name, leaked) && i < |l|
    requires HeapOnly(bl, bl1) && Shrunk(bl, bl1, SpansIn(cs, RawRows(bl, RowSize(cs), l)[i]))
    requires Chains(bl1, lastTable, lastHeap) && Sized(bl1, BlockSizeFor(RowSize(cs)))
    requires |bl1| < U32_LIMIT && BlockSizeFor(RowSize(cs)) < U32_LIMIT
    ensures l[i] in Slots(bl1, RowSize(cs)) && Slots(bl1, RowSize(cs)) == Slots(bl, RowSize(cs))
    ensures var rs := RowSize(cs);
            var spec := Slots(bl1, rs)[l[i]];
            var prev := if i == 0 then NULL else PtrOf(rs, l[i - 1]);
            var bl' := UnlinkedFrom(bl1, PtrOf(rs, l[i]), prev, spec);
            var l' := l[..i] + l[i + 1..];
            && StateOk(bl', cs, l', if i == 0 then spec.next else first, if spec.next.IsNull() then prev
               else last, name, leaked)
            && TuplesIn(bl', cs, l') == TuplesIn(bl, cs, l)[..i] + TuplesIn(bl, cs, l)[i + 1..]
            && KeepsRest(bl1, bl', lastTable, lastHeap) && Content(bl', name) == Content(bl, name)
  {
    hide UnlinkedFrom, Owned, TuplesOf, ListOk, CountOk, Content, RawRows, Chains, Grown, Shrunk, SlotOff, SameTypes,
         Slots, HeapOnly, SpansIn;
    var rs := RowSize(cs);
    var rows := RawRows(bl, rs, l);
    HeapOnlySlots(bl, bl1, rs);
    HeapOnlyList(bl, bl1, rs, l, first, last);
    OwnedFreed(bl, bl1, cs, name, rows, leaked, i);
    UnlinkedFromCorrect(bl1, rs, l, first, last, i, lastTable, lastHeap);
    var bl' := UnlinkedFrom(bl1, PtrOf(rs, l[i]), if i == 0 then NULL else PtrOf(rs, l[i - 1]), Slots(bl1, rs)[l[i]]);
    OwnedGrown(bl1, bl', cs, name, rows[..i] + rows[i + 1..], leaked, multiset{});
    assert leaked + multiset{} == leaked;
  }

  /** What the row that is about to be freed owns is in use, each span once. */
  lemma RowOwns(bl: seq<Block>, cs: seq<Column>, l: seq<Slot>, first: Ptr, last: Ptr, name: Span,
                leaked: multiset<Span>, i: nat)
    requires StateOk(bl, cs, l, first, last, name, leaked) && i < |l|
    ensures l[i] in Slots(bl, RowSize(cs))
    ensures var row := Slots(bl, RowSize(cs))[l[i]].row;
            && |row| == RowSize(cs) && row == RawRows(bl, RowSize(cs), l)[i]
            && SpansIn(cs, row) == SpansOf(DecodeRow(cs, row))
            && forall sp: Span | sp in SpansIn(cs, row) :: SpansIn(cs, row)[sp] == 1 && InUse(bl, sp)
  {
    hide Owned, ListOk, CountOk, InUse, SlotOff, DecodeRow, SpansOf;
    var rows := RawRows(bl, RowSize(cs), l);
    assert l[i] in Slots(bl, RowSize(cs));
    SlotInBlock(RowSize(cs), l[i].index);
    var row := rows[i];
    forall sp: Span | sp in SpansIn(cs, row) ensures SpansIn(cs, row)[sp] == 1 && InUse(bl, sp) {
      RowOwnsOnce(bl, cs, name, rows, leaked, i, sp);
    }
  }

  /** The write-back of UPDATE, in three steps: the old row's heap data is freed (`bl1`), the new
      row is written to the heap (`bl2`), and its bytes replace the old ones. */
  lemma RewriteState(bl: seq<Block>, bl1: seq<Block>, bl2: seq<Block>, cs: seq<Column>, l: seq<Slot>, first: Ptr,
                     last: Ptr,
                     name: Span, leaked: multiset<Span>, i: nat, fs: seq<Field>, lastTable: nat, lastHeap: nat)
    requires StateOk(bl, cs, l, first, last, name, leaked) && i < |l| && FieldsOk(cs, fs)
    requires HeapOnly(bl, bl1) && Shrunk(bl, bl1, SpansIn(cs, RawRows(bl, RowSize(cs), l)[i]))
    requires HeapOnly(bl1, bl2) && Grown(bl1, bl2, SpansOf(fs))
    requires Chains(bl2, lastTable, lastHeap) && Sized(bl2, BlockSizeFor(RowSize(cs)))
    requires |bl2| < U32_LIMIT && BlockSizeFor(RowSize(cs)) < U32_LIMIT
    ensures l[i] in Slots(bl2, RowSize(cs)) && Slots(bl2, RowSize(cs)) == Slots(bl, RowSize(cs))
    ensures var rs := RowSize(cs);
            var bl' := Put(bl2, PtrOf(rs, l[i]), EncodeSpec(Slots(bl2, rs)[l[i]].(row := EncodeRow(cs, fs))));
            && StateOk(bl', cs, l, first, last, name, leaked)
            && TuplesIn(bl', cs, l) == TuplesIn(bl, cs, l)[i := ValuesOf(bl2, fs)]
            && KeepsRest(bl2, bl', lastTable, lastHeap) && Content(bl', name) == Content(bl, name)
  {
    hide Put, EncodeSpec, Owned, TuplesOf, ListOk, CountOk, Content, RawRows, Chains, Grown, Shrunk, SlotOff,
         SameTypes, Slots, HeapOnly, SpansIn, SpansOf, FieldsOf, ValuesOf, EncodeRow;
    var rs := RowSize(cs);
    var rows := RawRows(bl, rs, l);
    var row := EncodeRow(cs, fs);
    HeapOnlyTrans(bl, bl1, bl2);
    HeapOnlySlots(bl, bl2, rs);
    HeapOnlyList(bl, bl2, rs, l, first, last);
    RewrittenCorrect(bl2, rs, l, first, last, i, row, lastTable, lastHeap);
    var bl' := Put(bl2, PtrOf(rs, l[i]), EncodeSpec(Slots(bl2, rs)[l[i]].(row := row)));
    RewriteOwned(bl, bl1, bl2, bl', cs, name, rows, leaked, i, fs);
  }

  lemma RewriteOwned(bl: seq<Block>, bl1: seq<Block>, bl2: seq<Block>, bl': seq<Block>, cs: seq<Column>, name: Span,
                     rows: seq<seq<byte>>, leaked: multiset<Span>, i: nat, fs: seq<Field>)
    requires Owned(bl, cs, name, rows, leaked) && i < |rows| && FieldsOk(cs, fs)
    requires Shrunk(bl, bl1, SpansIn(cs, rows[i])) && Grown(bl1, bl2, SpansOf(fs)) && Grown(bl2, bl', multiset{})
    ensures Owned(bl', cs, name, rows[i := EncodeRow(cs, fs)], leaked)
    ensures TuplesOf(bl', cs, rows[i := EncodeRow(cs, fs)]) == TuplesOf(bl, cs, rows)[i := ValuesOf(bl2, fs)]
    ensures Content(bl', name) == Content(bl, name)
  {
    hide Owned, TuplesOf, Content, Grown, Shrunk, SpansOf, FieldsOf, ValuesOf, EncodeRow;
    var rest := rows[..i] + rows[i + 1..];
    OwnedFreed(bl, bl1, cs, name, rows, leaked, i);
    OwnedGrown(bl1, bl2, cs, name, rest, leaked, SpansOf(fs));
    OwnedGrown(bl2, bl', cs, name, rest, leaked + SpansOf(fs), multiset{});
    assert leaked + SpansOf(fs) + multiset{} == leaked + SpansOf(fs);
    WrittenFields(cs, fs);
    OwnedReplace(bl', cs, name, rows, leaked, i, EncodeRow(cs, fs));
    NewRowValues(bl2, bl', cs, name, rest, leaked, fs);
  }

  lemma RowTuple(bl: seq<Block>, cs: seq<Column>, l: seq<Slot>, i: nat)
    requires Sized(bl, BlockSizeFor(RowSize(cs))) && AllIn(Slots(bl, RowSize(cs)), l) && i < |l|
    ensures TuplesIn(bl, cs, l)[i] == ValuesOf(bl, FieldsOf(cs, RawRows(bl, RowSize(cs), l)[i]))
  {
    hide RawRows, ValuesOf, FieldsOf, Slots;
  }

  lemma RowSpans(cs: seq<Column>, row: seq<byte>)
    ensures SpansIn(cs, row) == SpansOf(FieldsOf(cs, row))
  {
  }

  /** The write-back of UPDATE that fails after it has freed (`bl1`) the heap data of the old row: the
      row stays in its slot, and the spans it refers to never come back. So no list explains the file. */
  lemma LostSpans(bl: seq<Block>, bl1: seq<Block>, bl2: seq<Block>, cs: seq<Column>, l: seq<Slot>, first: Ptr,
                  last: Ptr, name: Span, leaked: multiset<Span>, i: nat, n: multiset<Span>)
    requires StateOk(bl, cs, l, first, last, name, leaked) && i < |l|
    requires HeapOnly(bl, bl1) && Shrunk(bl, bl1, SpansIn(cs, RawRows(bl, RowSize(cs), l)[i]))
    requires HeapOnly(bl1, bl2) && Grown(bl1, bl2, n) && Sized(bl2, BlockSizeFor(RowSize(cs)))
    requires SpansIn(cs, RawRows(bl, RowSize(cs), l)[i]) != multiset{}
    ensures forall l': seq<Slot>, lk: multiset<Span> :: !StateOk(bl2, cs, l', first, last, name, lk)
  {
    hide Owned, ListOk, CountOk, InUse, SlotOff, HeapOnly, Shrunk, Grown, SpansIn, RawRows, Slots;
    var rs := RowSize(cs);
    var row := RawRows(bl, rs, l)[i];
    var sp :| sp in SpansIn(cs, row);
    HeapOnlyTrans(bl, bl1, bl2);
    HeapOnlySlots(bl, bl2, rs);
    ShrunkForGood(bl, bl1, bl2, SpansIn(cs, row), n, sp);
    forall l': seq<Slot>, lk: multiset<Span> ensures !StateOk(bl2, cs, l', first, last, name, lk) {
      if StateOk(bl2, cs, l', first, last, name, lk) {
        var j := StillListed(bl, bl2, rs, l, l', first, last, i);
        RowReferred(bl2, cs, name, RawRows(bl2, rs, l'), lk, j, sp);
      }
    }
  }

  /** As long as the slots do not change every list of rows has the same rows in it. */
  lemma StillListed(bl: seq<Block>, bl2: seq<Block>, rs: nat, l: seq<Slot>, l': seq<Slot>, first: Ptr, last: Ptr,
                    i: nat) returns (j: nat)
    requires ListPart(bl, rs, l, first, last) && i < |l|
    requires ListPart(bl2, rs, l', first, last) && Slots(bl2, rs) == Slots(bl, rs)
    ensures j < |l'| && RawRows(bl2, rs, l')[j] == RawRows(bl, rs, l)[i]
  {
    hide Slots, CountOk, SlotOff;
    var t := Slots(bl, rs);
    assert NodeOk(t, rs, l, i);
    assert l[i] in l';
    j :| 0 <= j < |l'| && l'[j] == l[i];
  }

  lemma RowReferred(bl: seq<Block>, cs: seq<Column>, name: Span, rows: seq<seq<byte>>, leaked: multiset<Span>, i: nat,
                    sp: Span)
    requires Owned(bl, cs, name, rows, leaked) && i < |rows| && sp in SpansIn(cs, rows[i])
    ensures InUse(bl, sp)
  {
    hide InUse;
    RowOwnsOnce(bl, cs, name, rows, leaked, i, sp);
  }

  /** `rename`, in two steps: the old name is freed (`bl1`), the new one copied to the heap. */
  lemma RenameState(bl: seq<Block>, bl1: seq<Block>, bl2: seq<Block>, cs: seq<Column>, l: seq<Slot>, first: Ptr,
                    last: Ptr,
                    name: Span, name': Span, leaked: multiset<Span>)
    requires StateOk(bl, cs, l, first, last, name, leaked)
    requires HeapOnly(bl, bl1) && Shrunk(bl, bl1, multiset{name})
    requires HeapOnly(bl1, bl2) && Grown(bl1, bl2, multiset{name'})
    requires Sized(bl2, BlockSizeFor(RowSize(cs)))
    ensures StateOk(bl2, cs, l, first, last, name', leaked)
    ensures TuplesIn(bl2, cs, l) == TuplesIn(bl, cs, l)
  {
    hide Owned, TuplesOf, ListOk, CountOk, RawRows, Slots, HeapOnly, Grown, Shrunk;
    HeapOnlyTrans(bl, bl1, bl2);
    HeapOnlyList(bl, bl2, RowSize(cs), l, first, last);
    RenameOwned(bl, bl1, bl2, cs, name, name', RawRows(bl, RowSize(cs), l), leaked);
  }

  lemma RenameOwned(bl: seq<Block>, bl1: seq<Block>, bl2: seq<Block>, cs: seq<Column>, name: Span, name': Span,
                    rows: seq<seq<byte>>, leaked: multiset<Span>)
    requires Owned(bl, cs, name, rows, leaked)
    requires Shrunk(bl, bl1, multiset{name}) && Grown(bl1, bl2, multiset{name'})
    ensures Owned(bl2, cs, name', rows, leaked)
    ensures TuplesOf(bl2, cs, rows) == TuplesOf(bl, cs, rows)
  {
    hide InUse, Content, OwnedBy, ColumnSpans, TuplesOf;
    var m := References(cs, name, rows) + leaked;
    ExactShrunk(bl, bl1, m, multiset{name});
    ExactGrown(bl1, bl2, m - multiset{name}, multiset{name'});
    OwnedRenamed(bl2, cs, name, name', rows, leaked);
    forall sp | sp in OwnedBy(cs, rows) ensures Content(bl2, sp) == Content(bl, sp) {
      assert m[sp] == if InUse(bl, sp) then 1 else 0;
      assert (m - multiset{name})[sp] == if InUse(bl1, sp) then 1 else 0;
      assert InUse(bl2, sp);
    }
    TuplesFrame(bl, bl2, cs, rows);
  }

  /** The name's span is in use. */
  lemma NameInUse(bl: seq<Block>, cs: seq<Column>, l: seq<Slot>, first: Ptr, last: Ptr, name: Span,
                  leaked: multiset<Span>)
    requires StateOk(bl, cs, l, first, last, name, leaked)
    ensures InUse(bl, name)
  {
    hide InUse;
    OwnedInUse(bl, cs, name, RawRows(bl, RowSize(cs), l), leaked, name);
  }

  /** What the invariant says of any slot, Table block and span: used slots are exactly the rows of
      the list, block counts are the numbers of rows in them, and a span is in use exactly if
      something refers to it, which then is the only reference. */
  lemma InvariantMeans(bl: seq<Block>, cs: seq<Column>, l: seq<Slot>, first: Ptr, last: Ptr, name: Span,
                       leaked: multiset<Span>,
                       s: Slot, b: nat, sp: Span)
    requires StateOk(bl, cs, l, first, last, name, leaked)
    ensures s in l <==> s in Slots(bl, RowSize(cs)) && Slots(bl, RowSize(cs))[s].used != 0
    ensures IsType(bl, b, TABLE) ==> At(bl, b)[ROWS_IN_BLOCK] as nat == |set k: nat | k < SLOTS && Slot(b, k) in l|
    ensures var refs := References(cs, name, RawRows(bl, RowSize(cs), l)) + leaked;
            refs[sp] == if InUse(bl, sp) then 1 else 0
  {
    hide SpecAt, InUse, References, Type, RawRows;
    var t := Slots(bl, RowSize(cs));
    forall x: Slot ensures x in l <==> x in t && t[x].used != 0 {
      if x in l {
        var i :| 0 <= i < |l| && l[i] == x;
        ListedSlot(bl, RowSize(cs), l, first, last, i);
      }
    }
    assert UsedIn(t, b) == set k: nat | k < SLOTS && Slot(b, k) in l;
  }
}
