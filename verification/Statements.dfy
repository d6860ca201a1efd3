/** DELETE and UPDATE over a table file, and DELETE over rows kept in memory
    (db/sql/ast/Statement.cpp:33-98, db/core/Relation.hpp:167-210). */
module Statements {
  import opened Blocks
  import opened EDBFiles
  import opened HeapChain
  import opened Options
  import opened RelationIterators
  import opened RowCodec
  import opened RowList
  import opened RowTransfer
  import opened TableOps
  import opened Values

  /** A WHERE clause evaluated on a row; `None` is an evaluation error. */
  type Condition = Tuple -> Option<bool>

  predicate Selected(t: Tuple, where: Condition) {
    where(t) == Some(true)
  }

  /** The rows the condition does not select, in order. */
  ghost function Keep(ts: seq<Tuple>, where: Condition): seq<Tuple> {
    if ts == [] then [] else (if Selected(ts[0], where) then [] else [ts[0]]) + Keep(ts[1..], where)
  }

  lemma {:induction false} KeepSnoc(ts: seq<Tuple>, t: Tuple, where: Condition)
    ensures Keep(ts + [t], where) == Keep(ts, where) + if Selected(t, where) then [] else [t]
  {
    if ts == [] {
      assert ts + [t] == [t] && [t][1..] == [];
    } else {
      KeepSnoc(ts[1..], t, where);
      assert (ts + [t])[1..] == ts[1..] + [t];
    }
  }

  /** `left` are the rows of `ts` at the positions `at`: those on which the condition is not true. */
  ghost predicate LeftAt(ts: seq<Tuple>, where: Condition, left: seq<Tuple>, at: seq<nat>) {
    && |at| == |left|
    && (forall k | 0 <= k < |at| :: at[k] < |ts| && left[k] == ts[at[k]])
    && (forall j, k | 0 <= j < k < |at| :: at[j] < at[k])
    && (forall i: nat | i < |ts| :: i in at <==> where(ts[i]) != Some(true))
  }

  lemma LeftAtSnoc(ts: seq<Tuple>, t: Tuple, where: Condition, left: seq<Tuple>, at: seq<nat>)
    requires LeftAt(ts, where, left, at)
    ensures where(t) == Some(true) ==> LeftAt(ts + [t], where, left, at)
    ensures where(t) != Some(true) ==> LeftAt(ts + [t], where, left + [t], at + [|ts|])
  {
  }

  lemma {:induction false} KeepPositions(ts: seq<Tuple>, where: Condition) returns (at: seq<nat>)
    ensures LeftAt(ts, where, Keep(ts, where), at)
  {
    hide Keep, LeftAt;
    if ts == [] {
      at := [];
      KeepNothing(where);
    } else {
      var n := |ts| - 1;
      at := KeepPositions(ts[..n], where);
      KeepSnoc(ts[..n], ts[n], where);
      LeftAtSnoc(ts[..n], ts[n], where, Keep(ts[..n], where), at);
      assert ts == ts[..n] + [ts[n]];
      if where(ts[n]) == Some(true) {
        assert Keep(ts[..n], where) + [] == Keep(ts[..n], where);
      } else {
        at := at + [n];
      }
    }
  }

  lemma KeepNothing(where: Condition)
    ensures Keep([], where) == [] && LeftAt([], where, [], [])
  {
  }

  lemma {:induction false} KeepCounts(ts: seq<Tuple>, where: Condition, t: Tuple)
    ensures multiset(Keep(ts, where))[t] == if where(t) == Some(true) then 0 else multiset(ts)[t]
  {
    if ts != [] {
      KeepCounts(ts[1..], where, t);
      assert ts == [ts[0]] + ts[1..];
    }
  }

  lemma ThreeAnswers(o: Option<bool>)
    ensures o == None || o == Some(true) || o == Some(false)
  {
    if o.Some? {
      if o.value {
        assert o == Some(true);
      } else {
        assert o == Some(false);
      }
    }
  }

  /** What is left of `ts` when no condition fails: exactly the rows on which it is false, each as often as
      before, in the order of their positions `at`. */
  lemma KeepMeans(ts: seq<Tuple>, where: Condition, left: seq<Tuple>) returns (at: seq<nat>)
    requires left == Keep(ts, where) && forall i | 0 <= i < |ts| :: where(ts[i]).Some?
    ensures |at| == |left|
    ensures forall k | 0 <= k < |at| :: at[k] < |ts| && left[k] == ts[at[k]]
    ensures forall j, k | 0 <= j < k < |at| :: at[j] < at[k]
    ensures forall i: nat | i < |ts| :: i in at <==> where(ts[i]) == Some(false)
    ensures forall k | 0 <= k < |left| :: where(left[k]) == Some(false)
    ensures forall t :: multiset(left)[t] == if where(t) == Some(true) then 0 else multiset(ts)[t]
  {
    hide Keep;
    at := KeepPositions(ts, where);
    forall t ensures multiset(left)[t] == if where(t) == Some(true) then 0 else multiset(ts)[t] {
      KeepCounts(ts, where, t);
    }
    forall k | 0 <= k < |left| ensures where(left[k]) == Some(false) {
      var i := at[k];
      assert i in at;
      ThreeAnswers(where(ts[i]));
    }
  }

  /** `rows_to_remove` after the first `n` rows. */
  ghost predicate SelectedUpTo(rows: set<nat>, ts: seq<Tuple>, where: Condition, n: nat)
    requires n <= |ts|
  {
    && (forall i: nat :: i in rows <==> i < n && Selected(ts[i], where))
    && (forall i: nat | i < n :: where(ts[i]).Some?)
  }

  /** First pass: which rows are to be removed. */
  method CollectRows(table: EDBFile, where: Condition) returns (r: Option<set<nat>>)
    requires table.Valid()
    ensures r.Some? ==> SelectedUpTo(r.value, table.Tuples(), where, |table.Tuples()|)
    ensures r.None? ==> exists i :: 0 <= i < |table.Tuples()| && where(table.Tuples()[i]).None?
  {
    hide EDBFile.Valid, EDBFile.Tuples, EDBFile.Name, EDBFile.HeapValid, Chains, StateOk, TuplesIn, SlotOff, LinkTo,
         PtrBefore, PtrOf;
    var rows: set<nat> := {};
    var idx: nat := 0;
    var it := new RelationIterator(table);
    while true
      invariant it.Valid() && it.table == table && it.pos == idx
      invariant SelectedUpTo(rows, table.Tuples(), where, idx)
      decreases |table.rows| - idx
    {
      var n := it.Next();
      if !n.Row? {
        break;
      }
      var s := where(n.ref.tuple);
      if s.None? {
        return None;
      }
      if s.value {
        rows := rows + {idx};
      }
      idx := idx + 1;
    }
    return Some(rows);
  }

  /** DELETE leaves exactly the rows on which the condition is false, each as often as before, in order:
      those at the positions `kept`. If the condition fails on some row nothing is removed. */
  method DeleteFrom(table: EDBFile, where: Condition) returns (ok: bool, ghost kept: seq<nat>)
    requires table.Valid()
    modifies table`firstRow, table`lastRow, table`rowCount, table`rows, table.file
    ensures table.Valid() && table.Name() == old(table.Name())
    ensures ok <==> forall i | 0 <= i < |old(table.Tuples())| :: where(old(table.Tuples())[i]).Some?
    ensures table.Tuples() == if ok then Keep(old(table.Tuples()), where) else old(table.Tuples())
    ensures ok ==>
              var ts, left := old(table.Tuples()), table.Tuples();
              && |kept| == |left|
              && (forall k | 0 <= k < |kept| :: kept[k] < |ts| && left[k] == ts[kept[k]])
              && (forall j, k | 0 <= j < k < |kept| :: kept[j] < kept[k])
              && (forall i: nat | i < |ts| :: i in kept <==> where(ts[i]) == Some(false))
              && (forall k | 0 <= k < |left| :: where(left[k]) == Some(false))
              && forall t :: multiset(left)[t] == if where(t) == Some(true) then 0 else multiset(ts)[t]
  {
    hide EDBFile.Valid, EDBFile.Tuples, EDBFile.Name, EDBFile.HeapValid, Chains, StateOk, TuplesIn, SlotOff, Keep;
    ghost var ts := table.Tuples();
    ok := DeleteSelected(table, where);
    kept := [];
    if ok {
      kept := KeepMeans(ts, where, table.Tuples());
    }
  }

  /** The two passes. Removing while iterating skips no row. */
  method DeleteSelected(table: EDBFile, where: Condition) returns (ok: bool)
    requires table.Valid()
    modifies table`firstRow, table`lastRow, table`rowCount, table`rows, table.file
    ensures table.Valid() && table.Name() == old(table.Name())
    ensures ok <==> forall i | 0 <= i < |old(table.Tuples())| :: where(old(table.Tuples())[i]).Some?
    ensures table.Tuples() == if ok then Keep(old(table.Tuples()), where) else old(table.Tuples())
  {
    hide EDBFile.Valid, EDBFile.Tuples, EDBFile.Name, EDBFile.HeapValid, Chains, StateOk, TuplesIn, SlotOff, Keep;
    var rows := CollectRows(table, where);
    if rows.None? {
      return false;
    }
    RemoveRows(table, rows.value, where);
    return true;
  }

  /** Second pass. */
  method RemoveRows(table: EDBFile, rows: set<nat>, ghost where: Condition)
    requires table.Valid() && SelectedUpTo(rows, table.Tuples(), where, |table.Tuples()|)
    modifies table`firstRow, table`lastRow, table`rowCount, table`rows, table.file
    ensures table.Valid() && table.Name() == old(table.Name())
    ensures table.Tuples() == Keep(old(table.Tuples()), where)
  {
    hide EDBFile.Valid, EDBFile.Tuples, EDBFile.Name, EDBFile.HeapValid, Chains, StateOk, TuplesIn, SlotOff, LinkTo,
         PtrBefore, PtrOf, Selected, Keep, Progress;
    ghost var ts := table.Tuples();
    var idx: nat := 0;
    var it := new RelationIterator(table);
    ProgressStart(ts, where);
    while true
      invariant it.Valid() && it.table == table && table.Name() == old(table.Name())
      invariant Progress(table.Tuples(), it.pos, ts, idx, where) && idx <= |ts|
      decreases |ts| - idx
    {
      var more := PassRow(it, rows, idx, ts, where);
      if !more {
        break;
      }
      idx := idx + 1;
    }
  }

  /** One turn of the second pass. */
  method PassRow(it: RelationIterator, rows: set<nat>, idx: nat, ghost ts: seq<Tuple>,
                 ghost where: Condition) returns (more: bool)
    requires it.Valid() && SelectedUpTo(rows, ts, where, |ts|)
    requires Progress(it.table.Tuples(), it.pos, ts, idx, where)
    modifies it, it.table`firstRow, it.table`lastRow, it.table`rowCount, it.table`rows, it.table.file
    ensures it.Valid() && it.table.Name() == old(it.table.Name())
    ensures if more then idx < |ts| && Progress(it.table.Tuples(), it.pos, ts, idx + 1, where)
            else it.table.Tuples() == Keep(ts, where)
  {
    hide EDBFile.Valid, EDBFile.Tuples, EDBFile.Name, EDBFile.HeapValid, LinkTo, PtrBefore, PtrOf, Selected, Keep,
         Progress;
    ProgressStep(it.table.Tuples(), it.pos, ts, idx, where);
    var n := it.Next();
    if !n.Row? {
      return false;
    }
    if idx in rows {
      it.RemoveCurrent(n.ref);
    }
    return true;
  }

  /** The rows behind position `pos` are those kept of the first `n` rows of `ts`; the others are
      still to be seen. */
  ghost predicate Progress(cur: seq<Tuple>, pos: nat, ts: seq<Tuple>, n: nat, where: Condition) {
    n <= |ts| && pos == |Keep(ts[..n], where)| && cur == Keep(ts[..n], where) + ts[n..]
  }

  lemma ProgressStart(ts: seq<Tuple>, where: Condition)
    ensures Progress(ts, 0, ts, 0, where)
  {
  }

  /** Passing one more row; if it is selected it is taken out, otherwise it stays. */
  lemma ProgressStep(cur: seq<Tuple>, pos: nat, ts: seq<Tuple>, n: nat, where: Condition)
    requires Progress(cur, pos, ts, n, where)
    ensures n <= |ts| && pos <= |cur| && (pos == |cur| <==> n == |ts|)
    ensures n == |ts| ==> cur == Keep(ts, where)
    ensures n < |ts| && Selected(ts[n], where) ==> Progress(cur[..pos] + cur[pos + 1..], pos, ts, n + 1, where)
    ensures n < |ts| && !Selected(ts[n], where) ==> Progress(cur, pos + 1, ts, n + 1, where)
  {
    hide Progress;
    ProgressLengths(cur, pos, ts, n, where);
    if n < |ts| {
      if Selected(ts[n], where) {
        ProgressDrop(cur, pos, ts, n, where);
      } else {
        ProgressPass(cur, pos, ts, n, where);
      }
    }
  }

  lemma ProgressLengths(cur: seq<Tuple>, pos: nat, ts: seq<Tuple>, n: nat, where: Condition)
    requires Progress(cur, pos, ts, n, where)
    ensures n <= |ts| && |cur| == pos + |ts| - n
    ensures n == |ts| ==> cur == Keep(ts, where)
  {
    hide Keep;
    if n == |ts| {
      assert ts[..n] == ts && ts[n..] == [];
    }
  }

  lemma ProgressDrop(cur: seq<Tuple>, pos: nat, ts: seq<Tuple>, n: nat, where: Condition)
    requires Progress(cur, pos, ts, n, where) && n < |ts| && Selected(ts[n], where)
    ensures pos < |cur| && Progress(cur[..pos] + cur[pos + 1..], pos, ts, n + 1, where)
  {
    hide Keep, Selected;
    KeepSnoc(ts[..n], ts[n], where);
    assert ts[..n + 1] == ts[..n] + [ts[n]];
    var kept := Keep(ts[..n], where);
    assert kept + [] == kept;
    assert cur[..pos] == kept && cur[pos + 1..] == ts[n + 1..];
  }

  lemma ProgressPass(cur: seq<Tuple>, pos: nat, ts: seq<Tuple>, n: nat, where: Condition)
    requires Progress(cur, pos, ts, n, where) && n < |ts| && !Selected(ts[n], where)
    ensures Progress(cur, pos + 1, ts, n + 1, where)
  {
    hide Keep, Selected;
    KeepSnoc(ts[..n], ts[n], where);
    assert ts[..n + 1] == ts[..n] + [ts[n]];
    assert ts[n..] == [ts[n]] + ts[n + 1..];
    var kept := Keep(ts[..n], where);
    assert kept + ts[n..] == kept + [ts[n]] + ts[n + 1..];
  }

  // ---- UPDATE of one column ----

  ghost predicate CanUpdate(ts: seq<Tuple>, cs: seq<Column>, c: nat, expr: Tuple -> Option<Value>) {
    forall i | 0 <= i < |ts| ::
      c < |ts[i]| && (expr(ts[i]).Some? ==> TupleOk(cs, ts[i][c := expr(ts[i]).value]))
  }

  /** The new row for `t`. */
  function NewRow(t: Tuple, c: nat, expr: Tuple -> Option<Value>): Tuple
    requires c < |t| && expr(t).Some?
  {
    t[c := expr(t).value]
  }

  /** The row can be updated: it has the column, the expression does not fail, and the varchars of the
      new row fit. */
  ghost predicate Updates(t: Tuple, c: nat, expr: Tuple -> Option<Value>, blockSize: nat) {
    c < |t| && expr(t).Some? && VarcharsFit(NewRow(t, c, expr), blockSize)
  }

  /** `ts` with column `c` of the first `n` rows recomputed. */
  ghost function Updated(ts: seq<Tuple>, c: nat, expr: Tuple -> Option<Value>, n: nat): (r: seq<Tuple>)
    ensures |r| == |ts|
  {
    seq(|ts|, i requires 0 <= i < |ts| =>
      if i < n && c < |ts[i]| && expr(ts[i]).Some? then StoredTuple(NewRow(ts[i], c, expr)) else ts[i])
  }

  /** An updated row has the new value in column `c`, as far as storing keeps it, and in the others what it
      had; rows that are not reached are as they were. */
  lemma UpdatedFields(ts: seq<Tuple>, c: nat, expr: Tuple -> Option<Value>, n: nat, i: nat, k: nat)
    requires i < |ts| && c < |ts[i]| && expr(ts[i]).Some? && k < |ts[i]|
    ensures |Updated(ts, c, expr, n)| == |ts| && |Updated(ts, c, expr, n)[i]| == |ts[i]|
    ensures n <= i ==> Updated(ts, c, expr, n)[i] == ts[i]
    ensures i < n ==>
              var v := if k == c then expr(ts[i]).value else ts[i][k];
              && (!v.Time? ==> Updated(ts, c, expr, n)[i][k] == v)
              && (v.Time? ==>
                    Updated(ts, c, expr, n)[i][k] ==
                    Time(Date(v.t.year % 0x1_0000, v.t.month % 0x100, v.t.day % 0x100, 0, 0, 0)))
  {
    hide StoredTuple;
    RowFields(NewRow(ts[i], c, expr));
  }

  datatype UpdateResult = AllUpdated | ExpressionFailed | WriteFailed(error: HeapResult)

  /** UPDATE of one column: when it reports success every row has its new value in that column, and
      the rows and their order are otherwise unchanged. Otherwise it stopped at row `n`, the rows in
      front of it are updated, and either the expression failed there, or a varchar of the new row does
      not fit, or the disk is full; unless the expression failed or the old row had no varchars, the
      file is broken then. */
  method UpdateColumn(table: EDBFile, c: nat, expr: Tuple -> Option<Value>, ghost ts: seq<Tuple>)
    returns (r: UpdateResult, ghost n: nat)
    requires table.Valid() && ts == table.Tuples() && CanUpdate(ts, table.columns, c, expr)
    modifies table`lastTableBlock, table`lastHeapBlock, table`leaked, table.file
    ensures if r.AllUpdated? then n == |ts| else n < |ts| && c < |ts[n]|
    ensures forall i | 0 <= i < n :: Updates(ts[i], c, expr, table.file.blockSize)
    ensures !r.AllUpdated? ==> (r.ExpressionFailed? <==> expr(ts[n]).None?)
    ensures r.WriteFailed? ==>
              if r.error.DiskFull? then |table.file.blocks| == table.file.capacity
              else !VarcharsFit(NewRow(ts[n], c, expr), table.file.blockSize)
    ensures if !r.WriteFailed? || NoVarchar(ts[n])
            then
              && table.Valid() && table.Name() == old(table.Name())
              && table.Tuples() == Updated(ts, c, expr, n)
            else table.Broken()
    ensures !r.WriteFailed? ==> table.leaked == old(table.leaked)
  {
    hide EDBFile.Valid, EDBFile.Tuples, EDBFile.Name, EDBFile.HeapValid, EDBFile.Broken, Chains, StateOk, TuplesIn,
         SlotOff, LinkTo, PtrBefore, PtrOf, CanUpdate, Updated, Updates, VarcharsFit, NoVarchar;
    var it := new RelationIterator(table);
    n := 0;
    UpdatedNone(ts, c, expr);
    while true
      invariant it.Valid() && it.table == table && table.Name() == old(table.Name())
      invariant n <= |ts| && it.pos == n && table.Tuples() == Updated(ts, c, expr, n)
      invariant forall i | 0 <= i < n :: Updates(ts[i], c, expr, table.file.blockSize)
      invariant table.leaked == old(table.leaked)
      decreases |ts| - n
    {
      var more;
      r, more := UpdateRow(it, c, expr, ts);
      if !more || !r.AllUpdated? {
        return;
      }
      n := n + 1;
    }
  }

  lemma UpdatedNone(ts: seq<Tuple>, c: nat, expr: Tuple -> Option<Value>)
    ensures Updated(ts, c, expr, 0) == ts
  {
  }

  lemma UpdatedNext(ts: seq<Tuple>, cs: seq<Column>, c: nat, expr: Tuple -> Option<Value>, n: nat)
    requires n < |ts| && CanUpdate(ts, cs, c, expr)
    ensures |Updated(ts, c, expr, n)| == |ts| && Updated(ts, c, expr, n)[n] == ts[n] && c < |ts[n]|
    ensures expr(ts[n]).Some? ==>
              && TupleOk(cs, NewRow(ts[n], c, expr))
              && Updated(ts, c, expr, n + 1) == Updated(ts, c, expr, n)[n := StoredTuple(NewRow(ts[n], c, expr))]
  {
    hide TupleOk, StoredTuple;
  }

  /** One turn of the update. */
  method UpdateRow(it: RelationIterator, c: nat, expr: Tuple -> Option<Value>,
                   ghost ts: seq<Tuple>) returns (r: UpdateResult, more: bool)
    requires it.Valid() && it.pos <= |ts| && CanUpdate(ts, it.table.columns, c, expr)
    requires it.table.Tuples() == Updated(ts, c, expr, it.pos)
    modifies it, it.table`lastTableBlock, it.table`lastHeapBlock, it.table`leaked, it.table.file
    ensures r.AllUpdated? ==>
              && it.Valid() && it.table.Name() == old(it.table.Name())
              && if more
                 then
                   && it.pos == old(it.pos) + 1 <= |ts|
                   && it.table.Tuples() == Updated(ts, c, expr, it.pos)
                   && Updates(ts[old(it.pos)], c, expr, it.table.file.blockSize)
                 else old(it.pos) == |ts| && it.table.Tuples() == old(it.table.Tuples())
    ensures !r.AllUpdated? ==> old(it.pos) < |ts| && StoppedHere(it.table, ts[old(it.pos)], c, expr, r)
    ensures !r.AllUpdated? && (r.ExpressionFailed? || NoVarchar(ts[old(it.pos)])) ==>
              && it.table.Valid() && it.table.Name() == old(it.table.Name())
              && it.table.Tuples() == old(it.table.Tuples())
    ensures !r.WriteFailed? ==> it.table.leaked == old(it.table.leaked)
  {
    hide EDBFile.Valid, EDBFile.Tuples, EDBFile.Name, EDBFile.HeapValid, EDBFile.Broken, LinkTo, PtrBefore, PtrOf,
         TupleOk, StoredTuple, CanUpdate, Updated, VarcharsFit, NoVarchar;
    ghost var n := it.pos;
    var next := it.Next();
    if !next.Row? {
      return AllUpdated, false;
    }
    UpdatedNext(ts, it.table.columns, c, expr, n);
    var v := expr(next.ref.tuple);
    if v.None? {
      return ExpressionFailed, true;
    }
    var o := it.WriteCurrent(next.ref, next.ref.tuple[c := v.value]);
    return if o.Done? then AllUpdated else WriteFailed(o.error), true;
  }

  /** Why the update stopped at row `t`, and that the file is broken if the row had varchars. */
  ghost predicate StoppedHere(table: EDBFile, t: Tuple, c: nat, expr: Tuple -> Option<Value>, r: UpdateResult)
    reads table, table.file
  {
    && c < |t| && (r.ExpressionFailed? <==> expr(t).None?)
    && (r.WriteFailed? ==>
          && (if r.error.DiskFull? then |table.file.blocks| == table.file.capacity
              else !VarcharsFit(NewRow(t, c, expr), table.file.blockSize))
          && (!NoVarchar(t) ==> table.Broken()))
  }

  // ---- The same DELETE over rows kept in a list in memory ----

  class MemoryTable {
    var rows: seq<Tuple>

    constructor ()
      ensures rows == []
    {
      rows := [];
    }

    /** `insert_unchecked`. */
    method Append(t: Tuple)
      modifies this
      ensures rows == old(rows) + [t]
    {
      rows := rows + [t];
    }
  }

  /** An iterator of a linked list: `current` is the position of the element it points to. */
  class MemoryIterator {
    const table: MemoryTable
    var current: nat

    ghost predicate Valid()
      reads this, table
    {
      current <= |table.rows|
    }

    constructor (table: MemoryTable)
      ensures this.table == table && current == 0 && Valid()
    {
      this.table := table;
      current := 0;
    }

    method Next() returns (r: Option<nat>)
      requires Valid()
      modifies this
      ensures Valid()
      ensures if old(current) == |table.rows| then r == None && current == old(current)
              else r == Some(old(current)) && current == old(current) + 1
    {
      if current == |table.rows| {
        return None;
      }
      r := Some(current);
      current := current + 1;
    }

    /** Erases an element in front of the one pointed to; the iterator stays on its element. */
    method Erase(i: nat)
      requires Valid() && i < current
      modifies this, table
      ensures Valid() && current == old(current) - 1
      ensures table.rows == old(table.rows)[..i] + old(table.rows)[i + 1..]
    {
      table.rows := table.rows[..i] + table.rows[i + 1..];
      current := current - 1;
    }
  }

  method CollectMemoryRows(table: MemoryTable, where: Condition) returns (r: Option<set<nat>>)
    ensures r.Some? ==> SelectedUpTo(r.value, table.rows, where, |table.rows|)
    ensures r.None? ==> exists i :: 0 <= i < |table.rows| && where(table.rows[i]).None?
  {
    var rows: set<nat> := {};
    var idx: nat := 0;
    var it := new MemoryIterator(table);
    while true
      invariant it.Valid() && it.table == table && it.current == idx
      invariant SelectedUpTo(rows, table.rows, where, idx)
      decreases |table.rows| - idx
    {
      var n := it.Next();
      if n.None? {
        break;
      }
      var s := where(table.rows[n.value]);
      if s.None? {
        return None;
      }
      if s.value {
        rows := rows + {idx};
      }
      idx := idx + 1;
    }
    return Some(rows);
  }

  /** DELETE on the memory engine means the same as on table files. */
  method DeleteFromMemory(table: MemoryTable, where: Condition) returns (ok: bool, ghost kept: seq<nat>)
    modifies table
    ensures ok <==> forall i | 0 <= i < |old(table.rows)| :: where(old(table.rows)[i]).Some?
    ensures table.rows == if ok then Keep(old(table.rows), where) else old(table.rows)
    ensures ok ==>
              var ts, left := old(table.rows), table.rows;
              && |kept| == |left|
              && (forall k | 0 <= k < |kept| :: kept[k] < |ts| && left[k] == ts[kept[k]])
              && (forall j, k | 0 <= j < k < |kept| :: kept[j] < kept[k])
              && (forall i: nat | i < |ts| :: i in kept <==> where(ts[i]) == Some(false))
              && (forall k | 0 <= k < |left| :: where(left[k]) == Some(false))
              && forall t :: multiset(left)[t] == if where(t) == Some(true) then 0 else multiset(ts)[t]
  {
    hide Keep;
    ghost var ts := table.rows;
    ok := DeleteInMemory(table, where);
    kept := [];
    if ok {
      kept := KeepMeans(ts, where, table.rows);
    }
  }

  method DeleteInMemory(table: MemoryTable, where: Condition) returns (ok: bool)
    modifies table
    ensures ok <==> forall i | 0 <= i < |old(table.rows)| :: where(old(table.rows)[i]).Some?
    ensures table.rows == if ok then Keep(old(table.rows), where) else old(table.rows)
  {
    hide Selected, Keep, Progress;
    ghost var ts := table.rows;
    var rows := CollectMemoryRows(table, where);
    if rows.None? {
      return false;
    }
    var idx: nat := 0;
    var it := new MemoryIterator(table);
    ProgressStart(ts, where);
    while true
      invariant it.Valid() && it.table == table
      invariant Progress(table.rows, it.current, ts, idx, where)
      decreases |ts| - idx
    {
      ProgressStep(table.rows, it.current, ts, idx, where);
      var n := it.Next();
      if n.None? {
        break;
      }
      if idx in rows.value {
        it.Erase(n.value);
      }
      idx := idx + 1;
    }
    return true;
  }
}
