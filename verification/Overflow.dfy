/** A run that overwrites the heap: rows of one byte, inserted into a new table
    (db/storage/edb/EDBFile.cpp:375-442). */
module Overflow {
  import opened Bytes
  import opened Blocks
  import opened EDBFiles
  import opened HeapChain
  import opened RowCodec
  import opened RowList
  import opened RowTransfer
  import opened SlotScan
  import opened TableOps
  import opened TableSetups
  import opened TableStates
  import opened Values
  import M = MappedFiles
  import Runs

  /** A table `t` with one column, `b BOOL NOT NULL`. */
  const FLAGS: TableSetup := TableSetup([116], [ColumnSetup([98], BoolType, false, false, true, Null)])

  const ROW: Tuple := [Bool(true)]

  lemma FlagsFit()
    ensures HeaderFits(FLAGS) && SetupOk(FLAGS.columns) && DefaultsKept(FLAGS.columns) && |FLAGS.columns| == 1
  {
    var cs := FLAGS.columns;
    assert Unnamed(cs)[1..] == [] && RowSize(Unnamed(cs)) == 1;
    assert cs[1..] == [] && ColumnDemand(cs) == Demand(Strings(cs[0]));
    DemandOf(cs[0]);
    DemandSum(FLAGS);
  }

  /** The stored column holds flags, in one byte. */
  lemma FlagColumn(bl: seq<Block>, cs: seq<Column>)
    requires ColumnsStored(bl, cs, FLAGS.columns)
    ensures RowSize(cs) == 1 && TupleOk(cs, ROW) && NoVarchar(ROW) && StoredTuple(ROW) == ROW
  {
    hide Content, InUse;
    assert ColumnStored(bl, cs[0], FLAGS.columns[0]);
    assert cs[1..] == [];
  }

  function Copies(n: nat): (ts: seq<Tuple>)
    ensures |ts| == n
  {
    seq(n, i => ROW)
  }

  /** 255 rows can be inserted, all into the first Table block. After that block is full there is no
      room in front of the hole in Heap block 2. */
  method Fill(capacity: nat) returns (table: EDBFile)
    requires 2 <= capacity && capacity + 1 < U32_LIMIT
    ensures fresh(table) && fresh(table.file) && table.Valid() && table.Tuples() == Copies(255)
    ensures TupleOk(table.columns, ROW) && NoVarchar(ROW)
    ensures !table.PlaceSafe()
  {
    hide EDBFile.Tuples, EDBFile.HeapValid, EDBFile.Name, EDBFile.PlaceSafe, StateOk, HeaderFits, TupleOk, NoVarchar,
         ColumnsStored, StoredTuple, FLAGS, ROW, EDBFile.Broken, LeakCount, VarcharCount, VarcharsFit, RowSize;
    FlagsFit();
    var c := Initialize(FLAGS, capacity);
    table := c.db;
    FlagColumn(table.file.blocks, table.columns);
    for n := 0 to 255
      invariant fresh(table) && fresh(table.file) && table.Valid() && table.Tuples() == Copies(n)
      invariant |table.file.blocks| == 2 && RowSize(table.columns) == 1 && TupleOk(table.columns, ROW)
    {
      RowsAreTuples(table);
      Runs.RoomLeft(table);
      var o := table.Insert(ROW);
      assert Copies(n + 1) == Copies(n) + [ROW];
    }
    RowsAreTuples(table);
    Full(table);
  }

  lemma RowsAreTuples(table: EDBFile)
    requires table.Valid()
    ensures |table.rows| == |table.Tuples()|
  {
    hide StateOk, TuplesIn;
  }

  lemma Full(table: EDBFile)
    requires table.Valid() && |table.rows| >= SLOTS && |table.file.blocks| == 2 && RowSize(table.columns) <= 3
    ensures !table.PlaceSafe()
  {
    hide StateOk, PlaceIsSafe, RoomBeforeHoles, Flag, Chained, Tiled, M.Maps;
    TwoBlocksTake255(table.file.blocks, table.columns, table.rows, table.firstRow, table.lastRow, table.tableName,
                     table.leaked);
    table.SafeHere();
  }

  /** The 256th insertion reports success too, and no list of rows explains the file any more. */
  method InsertRow256(capacity: nat) returns (table: EDBFile, o: Outcome)
    requires 2 <= capacity && capacity + 1 < U32_LIMIT
    ensures o.Done? && table.Broken() && !table.HeapValid()
  {
    hide EDBFile.Tuples, EDBFile.HeapValid, EDBFile.Name, EDBFile.PlaceSafe, EDBFile.Valid, EDBFile.Broken, TupleOk,
         NoVarchar;
    table := Fill(capacity);
    o := table.Insert(ROW);
  }
}
