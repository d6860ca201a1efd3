/** Runs of operations on a table file, against a plain sequence of tuples. */
module Runs {
  import opened Bytes
  import opened Blocks
  import opened EDBFiles
  import opened HeapChain
  import opened Options
  import opened RelationIterators
  import opened RowCodec
  import opened RowList
  import opened RowTransfer
  import opened SlotScan
  import opened Statements
  import opened TableOps
  import opened TableStates
  import opened Values

  datatype Command =
    | InsertRow(tuple: Tuple)
    | RemoveRow(pos: nat)
    | DeleteRows(where: Condition)
    | UpdateRows(column: nat, expr: Tuple -> Option<Value>)
    | RenameTable(name: seq<byte>)

  /** Where an update stops: at the first row that cannot be updated. */
  ghost function UpdateStop(ts: seq<Tuple>, c: nat, expr: Tuple -> Option<Value>, blockSize: nat): (n: nat)
    ensures n <= |ts|
  {
    if ts == [] || !Updates(ts[0], c, expr, blockSize) then 0 else 1 + UpdateStop(ts[1..], c, expr, blockSize)
  }

  lemma {:induction false} StopIsFirst(ts: seq<Tuple>, c: nat, expr: Tuple -> Option<Value>, blockSize: nat, n: nat)
    requires n <= |ts| && forall i | 0 <= i < n :: Updates(ts[i], c, expr, blockSize)
    ensures n <= UpdateStop(ts, c, expr, blockSize)
    ensures n == |ts| || !Updates(ts[n], c, expr, blockSize) ==> n == UpdateStop(ts, c, expr, blockSize)
  {
    hide Updates;
    if n > 0 {
      StopIsFirst(ts[1..], c, expr, blockSize, n - 1);
    }
  }

  /** What a command does to the tuples: an insertion whose varchars do not all fit is refused, a
      deletion whose condition fails on some row does nothing, an update stops at the first row on
      which its expression fails. */
  ghost function Effect(ts: seq<Tuple>, c: Command, blockSize: nat): seq<Tuple> {
    match c
    case InsertRow(t) => if VarcharsFit(t, blockSize) then ts + [StoredTuple(t)] else ts
    case RemoveRow(i) => if i < |ts| then ts[..i] + ts[i + 1..] else ts
    case DeleteRows(where) => if forall i | 0 <= i < |ts| :: where(ts[i]).Some? then Keep(ts, where) else ts
    case UpdateRows(c, expr) => Updated(ts, c, expr, UpdateStop(ts, c, expr, blockSize))
    case RenameTable(_) => ts
  }

  /** A command that does not finish because what it writes does not fit a heap block: the new name, or
      a varchar of the row the update stops at. */
  ghost predicate TooLong(ts: seq<Tuple>, c: Command, blockSize: nat) {
    match c
    case RenameTable(name) => !Fits(|name|, blockSize)
    case UpdateRows(column, expr) =>
      var n := UpdateStop(ts, column, expr, blockSize);
      n < |ts| && expr(ts[n]).Some?
    case _ => false
  }

  /** What a command that does not finish leaves of a table with tuples `ts`: renaming breaks the file,
      an update has updated the rows in front of the one it stops at and breaks the file if that one has
      varchars, an insertion changes nothing. */
  ghost predicate LeftBehind(table: EDBFile, ts: seq<Tuple>, name: seq<byte>, c: Command)
    reads table, table.file
  {
    match c
    case RenameTable(_) => table.Broken()
    case UpdateRows(column, expr) =>
      exists n: nat :: n <= UpdateStop(ts, column, expr, table.file.blockSize)
                       && HalfUpdated(table, ts, name, column, expr, n)
    case InsertRow(_) => table.Valid() && table.Tuples() == ts && table.Name() == name
    case _ => false
  }

  ghost predicate HalfUpdated(table: EDBFile, ts: seq<Tuple>, name: seq<byte>, c: nat, expr: Tuple -> Option<Value>,
                              n: nat)
    reads table, table.file
  {
    && n < |ts|
    && if NoVarchar(ts[n])
       then table.Valid() && table.Tuples() == Updated(ts, c, expr, n) && table.Name() == name
       else table.Broken()
  }

  ghost function After(ts: seq<Tuple>, cs: seq<Command>, blockSize: nat): seq<Tuple> {
    if cs == [] then ts else Effect(After(ts, cs[..|cs| - 1], blockSize), cs[|cs| - 1], blockSize)
  }

  ghost function NameAfter(name: seq<byte>, cs: seq<Command>): seq<byte> {
    if cs == [] then name
    else if cs[|cs| - 1].RenameTable? then cs[|cs| - 1].name
    else NameAfter(name, cs[..|cs| - 1])
  }

  /** How many heap chunks the refused insertions leave behind. */
  ghost function LeakOf(c: Command, blockSize: nat): nat {
    if c.InsertRow? && !VarcharsFit(c.tuple, blockSize) then LeakCount(c.tuple, blockSize) else 0
  }

  ghost function Leaks(cs: seq<Command>, blockSize: nat): nat {
    if cs == [] then 0 else Leaks(cs[..|cs| - 1], blockSize) + LeakOf(cs[|cs| - 1], blockSize)
  }

  /** Rows are inserted with values the columns can hold, while fewer than 255 rows are in the table, and
      updated to such values. */
  ghost predicate Playable(ts: seq<Tuple>, columns: seq<Column>, cs: seq<Command>, blockSize: nat) {
    forall k | 0 <= k < |cs| :: CanPlay(After(ts, cs[..k], blockSize), columns, cs[k])
  }

  ghost predicate CanPlay(ts: seq<Tuple>, columns: seq<Column>, c: Command) {
    && (c.InsertRow? ==> TupleOk(columns, c.tuple) && |ts| < SLOTS)
    && (c.UpdateRows? ==> CanUpdate(ts, columns, c.column, c.expr))
  }

  datatype RunResult = Finished | Stopped(at: nat, error: HeapResult)

  /** `RemoveRow`, by an iterator that is advanced to the row. */
  method RemoveAt(table: EDBFile, i: nat)
    requires table.Valid()
    modifies table`firstRow, table`lastRow, table`rowCount, table`rows, table.file
    ensures table.Valid() && table.Name() == old(table.Name())
    ensures var ts := old(table.Tuples()); table.Tuples() == if i < |ts| then ts[..i] + ts[i + 1..] else ts
  {
    hide EDBFile.Valid, EDBFile.Tuples, EDBFile.Name, EDBFile.HeapValid, Chains, StateOk, TuplesIn, SlotOff, LinkTo,
         PtrBefore, PtrOf;
    var it := new RelationIterator(table);
    var r := it.Next();
    var n: nat := 0;
    while r.Row? && n < i
      invariant it.table == table && n <= i && it.Valid()
      invariant table.Tuples() == old(table.Tuples()) && table.Name() == old(table.Name())
      invariant if r.Row? then it.pos == n + 1 && it.Current(r.ref) else it.pos == |table.Tuples()| == n
      decreases i - n
    {
      r := it.Next();
      n := n + 1;
    }
    if r.Row? {
      it.RemoveCurrent(r.ref);
    }
  }

  /** One command of a run. */
  method Play(table: EDBFile, c: Command) returns (o: Outcome)
    requires table.Valid() && CanPlay(table.Tuples(), table.columns, c)
    modifies table, table.file
    ensures table.columns == old(table.columns)
    ensures o.Done? ==>
              && table.Valid()
              && table.Tuples() == Effect(old(table.Tuples()), c, table.file.blockSize)
              && table.Name() == NameAfter(old(table.Name()), [c])
              && |table.leaked| == |old(table.leaked)| + LeakOf(c, table.file.blockSize)
    ensures o.Error? ==>
              if o.error.DiskFull? then |table.file.blocks| == table.file.capacity
              else TooLong(old(table.Tuples()), c, table.file.blockSize)
    ensures o.Error? ==> LeftBehind(table, old(table.Tuples()), old(table.Name()), c)
  {
    hide EDBFile.Valid, EDBFile.Tuples, EDBFile.Name, EDBFile.HeapValid, EDBFile.Broken, EDBFile.PlaceSafe, Keep,
         LeakCount, VarcharsFit, TupleOk, StoredTuple, Updates, Updated, UpdateStop, NoVarchar, CanUpdate;
    assert [c][..0] == [];
    match c {
      case InsertRow(t) =>
        RoomLeft(table);
        o := table.Insert(t);
        if o.Error? && !o.error.DiskFull? {
          o := Done;
        }
      case RemoveRow(i) =>
        RemoveAt(table, i);
        o := Done;
      case DeleteRows(where) =>
        var ok, kept := DeleteFrom(table, where);
        o := Done;
      case UpdateRows(column, expr) =>
        o := PlayUpdate(table, column, expr);
      case RenameTable(name) =>
        o := table.Rename(name);
    }
  }

  method PlayUpdate(table: EDBFile, c: nat, expr: Tuple -> Option<Value>) returns (o: Outcome)
    requires table.Valid() && CanUpdate(table.Tuples(), table.columns, c, expr)
    modifies table, table.file
    ensures table.columns == old(table.columns)
    ensures o.Done? ==>
              && table.Valid() && table.Name() == old(table.Name()) && table.leaked == old(table.leaked)
              && table.Tuples() == Effect(old(table.Tuples()), UpdateRows(c, expr), table.file.blockSize)
    ensures o.Error? ==>
              if o.error.DiskFull? then |table.file.blocks| == table.file.capacity
              else TooLong(old(table.Tuples()), UpdateRows(c, expr), table.file.blockSize)
    ensures o.Error? ==> LeftBehind(table, old(table.Tuples()), old(table.Name()), UpdateRows(c, expr))
  {
    hide EDBFile.Valid, EDBFile.Tuples, EDBFile.Name, EDBFile.HeapValid, EDBFile.Broken, VarcharsFit, Updated,
         UpdateStop, NoVarchar, CanUpdate;
    ghost var ts := table.Tuples();
    var r, n := UpdateColumn(table, c, expr, ts);
    StopIsFirst(ts, c, expr, table.file.blockSize, n);
    if r.WriteFailed? {
      assert HalfUpdated(table, ts, old(table.Name()), c, expr, n);
      return Error(r.error);
    }
    return Done;
  }

  /** Below 255 rows every insertion finds a row slot. */
  lemma RoomLeft(table: EDBFile)
    requires table.Valid() && |table.Tuples()| < SLOTS
    ensures table.PlaceSafe()
  {
    hide StateOk, TuplesIn, Chains, PlaceIsSafe, RoomBeforeHoles, Flag;
    table.SafeHere();
    FewRowsAreSafe(table.file.blocks, table.columns, table.rows, table.firstRow, table.lastRow, table.tableName,
        table.leaked);
  }

  /** Any run of commands does to the file what it does to a plain sequence of tuples. When the disk
      is not full and every new name and updated row fits, the run finishes; the name is then the last
      one given, and exactly the chunks copied for refused insertions are leaked. */
  method Replay(table: EDBFile, cs: seq<Command>) returns (r: RunResult)
    requires table.Valid() && Playable(table.Tuples(), table.columns, cs, table.file.blockSize)
    modifies table, table.file
    ensures r.Finished? ==>
              && table.Valid()
              && table.Tuples() == After(old(table.Tuples()), cs, table.file.blockSize)
              && table.Name() == NameAfter(old(table.Name()), cs)
              && |table.leaked| == |old(table.leaked)| + Leaks(cs, table.file.blockSize)
    ensures r.Stopped? ==>
              && r.at < |cs|
              && var ts := After(old(table.Tuples()), cs[..r.at], table.file.blockSize);
                 && (if r.error.DiskFull? then |table.file.blocks| == table.file.capacity
                     else TooLong(ts, cs[r.at], table.file.blockSize))
                 && LeftBehind(table, ts, NameAfter(old(table.Name()), cs[..r.at]), cs[r.at])
  {
    hide EDBFile.Valid, EDBFile.Tuples, EDBFile.Name, EDBFile.HeapValid, EDBFile.Broken, Effect, LeakOf, CanPlay,
         TooLong, LeftBehind;
    ghost var ts := table.Tuples();
    for k := 0 to |cs|
      invariant table.Valid() && table.columns == old(table.columns)
      invariant table.Tuples() == After(ts, cs[..k], table.file.blockSize)
      invariant table.Name() == NameAfter(old(table.Name()), cs[..k])
      invariant |table.leaked| == |old(table.leaked)| + Leaks(cs[..k], table.file.blockSize)
    {
      assert cs[..k + 1][..k] == cs[..k];
      ghost var name := table.Name();
      var o := Play(table, cs[k]);
      if o.Error? {
        return Stopped(k, o.error);
      }
      assert NameAfter(name, [cs[k]]) == if cs[k].RenameTable? then cs[k].name else NameAfter(name, [cs[k]][..0]);
    }
    assert cs[..|cs|] == cs;
    return Finished;
  }
}
