/** Reading, deleting and rewriting rows through an iterator (db/storage/edb/EDBRelationIterator.cpp),
    and the statements built on it (db/sql/ast/Statement.cpp:33-98). */
module RelationIterators {
  import opened Bytes
  import opened Blocks
  import opened EDBFiles
  import opened HeapChain
  import opened Ownership
  import opened RowCodec
  import opened RowList
  import opened RowTransfer
  import opened TableOps
  import opened TableStates
  import opened Values

  /** A row handed out by the iterator: its tuple, its slot, and the slot before it. */
  datatype RowReference = RowReference(tuple: Tuple, row: Ptr, prev: Ptr)

  datatype NextResult = Row(ref: RowReference) | End | FreedRow

  class RelationIterator {
    const table: EDBFile
    var prevRow: Ptr
    var row: Ptr
    /** How many rows of the current list lie behind the iterator. */
    ghost var pos: nat

    ghost predicate Valid()
      reads this, table, table.file
    {
      && table.Valid() && pos <= |table.rows|
      && row == LinkTo(RowSize(table.columns), table.rows, pos)
      && prevRow == PtrBefore(RowSize(table.columns), table.rows, pos)
    }

    constructor (table: EDBFile)
      requires table.Valid()
      ensures this.table == table && Valid() && pos == 0
    {
      hide Chains, StateOk, SlotOff, Slots;
      NextLink(table.file.blocks, table.columns, table.rows, table.firstRow, table.lastRow, table.tableName,
          table.leaked, 0);
      this.table := table;
      prevRow := NULL;
      row := table.firstRow;
      pos := 0;
    }

    /** The reference `r` is to the row the iterator has just passed. */
    ghost predicate Current(r: RowReference)
      reads this, table, table.file
    {
      && Valid() && 0 < pos
      && r.row == PtrOf(RowSize(table.columns), table.rows[pos - 1])
      && r.prev == PtrBefore(RowSize(table.columns), table.rows, pos - 1)
      && r.tuple == table.Tuples()[pos - 1]
    }

    /** The next tuple of the file, in order; it never meets a freed row. */
    method Next() returns (r: NextResult)
      requires Valid()
      modifies `prevRow, `row, `pos
      ensures Valid()
      ensures if old(pos) == |table.rows| then r == End && pos == old(pos)
              else r.Row? && pos == old(pos) + 1 && Current(r.ref)
    {
      hide Chains, StateOk, SlotOff, SpecAt, RawRows, TuplesIn, Slots;
      NextLink(table.file.blocks, table.columns, table.rows, table.firstRow, table.lastRow, table.tableName,
          table.leaked, pos);
      if row.IsNull() {
        return End;
      }
      var spec := table.RowAt(row, pos);
      if spec.used == 0 {
        return FreedRow;
      }
      var before := prevRow;
      prevRow := row;
      row := spec.next;
      var t := table.TupleOf(spec.row, pos);
      pos := pos + 1;
      return Row(RowReference(t, prevRow, before));
    }

    /** Removes the row just passed. The iterator steps back to the row before it, so that it still
        is between the rows it has passed and those it has not. */
    method RemoveCurrent(r: RowReference)
      requires Current(r)
      modifies this, table`firstRow, table`lastRow, table`rowCount, table`rows, table.file
      ensures Valid() && pos == old(pos) - 1
      ensures table.Tuples() == old(table.Tuples())[..pos] + old(table.Tuples())[pos + 1..]
      ensures table.Name() == old(table.Name())
    {
      hide Chains, StateOk, SlotOff, TuplesIn;
      table.Remove(r.row, r.prev, pos - 1);
      prevRow := r.prev;
      pos := pos - 1;
    }

    /** Writes back the row just passed. When it fails the file is sound exactly if that row had no
        varchars. */
    method WriteCurrent(r: RowReference, t: Tuple) returns (o: Outcome)
      requires Current(r) && TupleOk(table.columns, t)
      modifies table`lastTableBlock, table`lastHeapBlock, table`leaked, table.file
      ensures o.Done? ==> Valid() && table.Tuples() == old(table.Tuples())[pos - 1 := StoredTuple(t)]
      ensures o.Done? ==> table.Name() == old(table.Name()) && VarcharsFit(t, table.file.blockSize)
      ensures o.Done? ==> table.leaked == old(table.leaked)
      ensures o.Error? ==> (if o.error.DiskFull? then |table.file.blocks| == table.file.capacity
                            else !VarcharsFit(t, table.file.blockSize))
      ensures o.Error? ==> if NoVarchar(r.tuple)
                then Valid() && table.Tuples() == old(table.Tuples()) && table.Name() == old(table.Name())
                else table.Broken()
    {
      hide Chains, StateOk, SlotOff, TuplesIn, StoredTuple, VarcharCount, NoVarchar;
      o := table.WriteBack(r.row, t, pos - 1);
    }
  }

  /** The pointer to the row before position `i`; null at the start. */
  ghost function PtrBefore(rs: nat, l: seq<Slot>, i: nat): Ptr
    requires i <= |l|
  {
    if i == 0 then NULL else PtrOf(rs, l[i - 1])
  }

  /** The link at a position is null at the end only. */
  lemma NextLink(bl: seq<Block>, cs: seq<Column>, l: seq<Slot>, first: Ptr, last: Ptr, name: Span,
                 leaked: multiset<Span>, i: nat)
    requires StateOk(bl, cs, l, first, last, name, leaked) && i <= |l|
    ensures first == LinkTo(RowSize(cs), l, 0)
    ensures LinkTo(RowSize(cs), l, i).IsNull() <==> i == |l|
  {
    hide SlotOff, SpecAt, CountOk, Owned;
    if i < |l| {
      ListedSlot(bl, RowSize(cs), l, first, last, i);
    }
  }
}
