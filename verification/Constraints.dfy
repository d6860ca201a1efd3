/** Inserting into a table kept in memory: filling in values, the checks, and what they keep true
    (db/core/Table.cpp:25-153, db/core/Table.hpp:85-93, db/core/Relation.cpp:5-20). */
module Constraints {
  import opened Options
  import opened Values
  import opened Ordering
  import opened Statements

  datatype Column = Column(ty: ValueType, autoIncrement: bool, unique: bool, notNull: bool, default: Value)

  /** Columns of a key are given by position; a position that is none is a name that is none. */
  datatype ForeignKey = ForeignKey(local: nat, table: Table, column: nat)

  datatype InsertError =
    | AutoIncrementOnNonInt | CountMismatch | NoSuchColumn
    | NullKey | DuplicateKey | TypeMismatch | NullNotAllowed | NotUnique | NoMatchingRow | ComparisonFailed | Abort

  // ---- Filling in ----

  /** The value for column `c` of a row that gives NULL. */
  function Supplied(column: Column, counter: int): Option<Value> {
    if column.autoIncrement then (if column.ty.IntType? then Some(Int(counter + 1)) else None) else Some(column.default)
  }

  predicate CanFill(columns: seq<Column>, row: Tuple) {
    forall c | 0 <= c < |row| && c < |columns| :: row[c].Null? && columns[c].autoIncrement ==> columns[c].ty.IntType?
  }

  /** NULLs replaced by the next counter value or the default. */
  function Filled(columns: seq<Column>, counters: seq<int>, row: Tuple): (r: Tuple)
    requires |counters| == |columns| && CanFill(columns, row)
    ensures |r| == |row|
  {
    seq(|row|, c requires 0 <= c < |row| =>
      if row[c].Null? && c < |columns| then Supplied(columns[c], counters[c]).value else row[c])
  }

  /** The counters that were used are stepped on. */
  function Stepped(columns: seq<Column>, counters: seq<int>, row: Tuple): (r: seq<int>)
    requires |counters| == |columns|
    ensures |r| == |columns|
  {
    seq(|columns|, c requires 0 <= c < |columns| =>
      if c < |row| && row[c].Null? && columns[c].autoIncrement then counters[c] + 1 else counters[c])
  }

  // ---- The checks ----

  predicate Rectangular(rows: seq<Tuple>, columns: seq<Column>) {
    forall i | 0 <= i < |rows| :: |rows[i]| == |columns|
  }

  /** No row has a value in column `c` that equals `v`, or that cannot be compared with it. */
  predicate Absent(rows: seq<Tuple>, c: nat, v: Value) {
    forall i | 0 <= i < |rows| :: c < |rows[i]| ==> !CompareFails(rows[i][c], v) && !ValueEqual(rows[i][c], v)
  }

  predicate ColumnAccepts(column: Column, rows: seq<Tuple>, c: nat, v: Value) {
    && (v.Null? || HasType(v, column.ty))
    && (column.notNull ==> !v.Null?)
    && (column.unique ==> Absent(rows, c, v))
  }

  predicate KeyAccepts(key: Option<nat>, rows: seq<Tuple>, t: Tuple) {
    key.Some? ==> key.value < |t| && !t[key.value].Null? && Absent(rows, key.value, t[key.value])
  }

  predicate TableAccepts(columns: seq<Column>, key: Option<nat>, rows: seq<Tuple>, t: Tuple) {
    && |t| == |columns| && KeyAccepts(key, rows, t)
    && forall c | 0 <= c < |columns| :: ColumnAccepts(columns[c], rows, c, t[c])
  }

  predicate SameType(a: Value, b: Value) {
    match a
    case Null => b.Null?
    case Int(_) => b.Int?
    case Float(_) => b.Float?
    case Varchar(_) => b.Varchar?
    case Bool(_) => b.Bool?
    case Time(_) => b.Time?
  }

  /** `find_first_matching_tuple` finds a row: one that matches, before it meets one that cannot be
      compared. */
  predicate HasMatch(rows: seq<Tuple>, c: nat, v: Value) {
    exists i :: 0 <= i < |rows| && MatchesAt(rows, c, v, i) && forall j | 0 <= j < i :: !FailsAt(rows, c, v, j)
  }

  predicate MatchesAt(rows: seq<Tuple>, c: nat, v: Value, i: int)
    requires 0 <= i < |rows|
  {
    c < |rows[i]| && SameType(rows[i][c], v) && ValueEqual(rows[i][c], v)
  }

  predicate FailsAt(rows: seq<Tuple>, c: nat, v: Value, i: int)
    requires 0 <= i < |rows|
  {
    c < |rows[i]| && SameType(rows[i][c], v) && CompareFails(rows[i][c], v)
  }

  /** Some row has a value in column `c` that equals `v` and is of the same type. */
  ghost predicate HasEqual(rows: seq<Tuple>, c: nat, v: Value) {
    exists i :: 0 <= i < |rows| && c < |rows[i]| && ValueEqual(rows[i][c], v)
                && rows[i][c].Null? == v.Null? && rows[i][c].Int? == v.Int? && rows[i][c].Float? == v.Float?
                && rows[i][c].Varchar? == v.Varchar? && rows[i][c].Bool? == v.Bool?
  }

  /** What the search finds is such a row. If there is one it is found, unless a time beyond the range of
      `int` gets in its way. */
  lemma MatchMeans(rows: seq<Tuple>, c: nat, v: Value)
    ensures HasMatch(rows, c, v) ==> HasEqual(rows, c, v)
    ensures HasEqual(rows, c, v) && (v.Time? ==> EpochOf(v.t) < 0x8000_0000)
            && (forall j | 0 <= j < |rows| && c < |rows[j]| && rows[j][c].Time? :: EpochOf(rows[j][c].t) < 0x8000_0000)
            ==> HasMatch(rows, c, v)
  {
    hide ValueEqual, EpochOf;
    if HasMatch(rows, c, v) {
      var i :| 0 <= i < |rows| && MatchesAt(rows, c, v, i) && forall j | 0 <= j < i :: !FailsAt(rows, c, v, j);
      assert c < |rows[i]| && ValueEqual(rows[i][c], v);
    }
    if HasEqual(rows, c, v) {
      var i :| 0 <= i < |rows| && c < |rows[i]| && ValueEqual(rows[i][c], v)
                && rows[i][c].Null? == v.Null? && rows[i][c].Int? == v.Int? && rows[i][c].Float? == v.Float?
                && rows[i][c].Varchar? == v.Varchar? && rows[i][c].Bool? == v.Bool?;
      assert MatchesAt(rows, c, v, i);
    }
  }

  /** The same, row by row: the equal value has the type of the other one, and comes before any that cannot be
      compared. */
  lemma FoundMeans(rows: seq<Tuple>, c: nat, v: Value)
    ensures HasMatch(rows, c, v) ==>
              exists i: nat :: i < |rows| && c < |rows[i]| && ValueEqual(rows[i][c], v)
                               && forall ty :: HasType(rows[i][c], ty) ==> HasType(v, ty)
    ensures (exists i: nat :: i < |rows| && c < |rows[i]| && ValueEqual(rows[i][c], v)
                              && (forall ty :: HasType(rows[i][c], ty) ==> HasType(v, ty))
                              && forall j | 0 <= j < i && c < |rows[j]| :: !CompareFails(rows[j][c], v))
            ==> HasMatch(rows, c, v)
    ensures HasEqual(rows, c, v) <==>
            exists i: nat :: i < |rows| && c < |rows[i]| && ValueEqual(rows[i][c], v)
                             && forall ty :: HasType(rows[i][c], ty) ==> HasType(v, ty)
  {
    hide ValueEqual, EpochOf, HasType, CompareFails, SameType;
    SameTypes();
    if i: nat :| i < |rows| && c < |rows[i]| && ValueEqual(rows[i][c], v)
                 && (forall ty :: HasType(rows[i][c], ty) ==> HasType(v, ty))
                 && forall j | 0 <= j < i && c < |rows[j]| :: !CompareFails(rows[j][c], v) {
      EqualOfOneType(rows[i][c], v);
      assert MatchesAt(rows, c, v, i);
    }
    assert HasMatch(rows, c, v) ==> exists i: nat :: i < |rows| && MatchesAt(rows, c, v, i);
    EqualMeans(rows, c, v);
  }

  lemma EqualMeans(rows: seq<Tuple>, c: nat, v: Value)
    ensures HasEqual(rows, c, v) <==>
            exists i: nat :: i < |rows| && c < |rows[i]| && ValueEqual(rows[i][c], v)
                             && forall ty :: HasType(rows[i][c], ty) ==> HasType(v, ty)
  {
    hide ValueEqual, HasType;
    SameTypes();
    if HasEqual(rows, c, v) {
      var i :| 0 <= i < |rows| && c < |rows[i]| && ValueEqual(rows[i][c], v)
                && rows[i][c].Null? == v.Null? && rows[i][c].Int? == v.Int? && rows[i][c].Float? == v.Float?
                && rows[i][c].Varchar? == v.Varchar? && rows[i][c].Bool? == v.Bool?;
      assert SameType(rows[i][c], v);
    }
    if i: nat :| i < |rows| && c < |rows[i]| && ValueEqual(rows[i][c], v)
                 && forall ty :: HasType(rows[i][c], ty) ==> HasType(v, ty) {
      EqualOfOneType(rows[i][c], v);
    }
  }

  lemma SameTypes()
    ensures forall a, b, ty :: SameType(a, b) && HasType(a, ty) ==> HasType(b, ty)
  {
  }

  lemma EqualOfOneType(a: Value, b: Value)
    requires ValueEqual(a, b) && forall ty :: HasType(a, ty) ==> HasType(b, ty)
    ensures SameType(a, b)
  {
    assert a.Int? ==> HasType(a, IntType);
    assert a.Float? ==> HasType(a, FloatType);
    assert a.Varchar? ==> HasType(a, VarcharType);
    assert a.Bool? ==> HasType(a, BoolType);
    assert a.Time? ==> HasType(a, TimeType);
  }

  /** What is filled in: the next counter value where the column is AUTO_INCREMENT, else the default. */
  lemma FilledMeans(columns: seq<Column>, counters: seq<int>, row: Tuple, c: nat)
    requires |counters| == |columns| && CanFill(columns, row) && c < |row| && c < |columns|
    ensures |Filled(columns, counters, row)| == |row| && |Stepped(columns, counters, row)| == |columns|
    ensures !row[c].Null? ==>
              Filled(columns, counters, row)[c] == row[c] && Stepped(columns, counters, row)[c] == counters[c]
    ensures row[c].Null? && !columns[c].autoIncrement ==>
              && Filled(columns, counters, row)[c] == columns[c].default
              && Stepped(columns, counters, row)[c] == counters[c]
    ensures row[c].Null? && columns[c].autoIncrement ==>
              && columns[c].ty.IntType?
              && Filled(columns, counters, row)[c] == Int(counters[c] + 1)
              && Stepped(columns, counters, row)[c] == counters[c] + 1
  {
  }

  /** What the checks of the table accept: rows with a value of the right type in every column, no NULL
      where that is not allowed or in the primary key, and no value of the key or a UNIQUE column that a
      row of the table equals, or cannot be compared with. */
  lemma AcceptsMeans(columns: seq<Column>, key: Option<nat>, rows: seq<Tuple>, t: Tuple)
    requires Rectangular(rows, columns)
    ensures TableAccepts(columns, key, rows, t) <==>
            && |t| == |columns|
            && (forall c | 0 <= c < |columns| ::
                  && (t[c].Null? || HasType(t[c], columns[c].ty))
                  && (columns[c].notNull ==> !t[c].Null?)
                  && (columns[c].unique ==>
                        forall i | 0 <= i < |rows| :: !ValueEqual(rows[i][c], t[c]) && !CompareFails(rows[i][c], t[c])))
            && (key.Some? ==>
                  && key.value < |columns| && !t[key.value].Null?
                  && forall i | 0 <= i < |rows| ::
                       !ValueEqual(rows[i][key.value], t[key.value]) && !CompareFails(rows[i][key.value], t[key.value]))
  {
    hide ValueEqual, CompareFails, HasType;
    if |t| == |columns| {
      forall c: nat | c < |columns|
        ensures Absent(rows, c, t[c]) <==>
                forall i | 0 <= i < |rows| :: !ValueEqual(rows[i][c], t[c]) && !CompareFails(rows[i][c], t[c])
      {
      }
      forall c | 0 <= c < |columns| ensures ColumnAccepts(columns[c], rows, c, t[c]) <==>
                && (t[c].Null? || HasType(t[c], columns[c].ty))
                && (columns[c].notNull ==> !t[c].Null?)
                && (columns[c].unique ==>
                      forall i | 0 <= i < |rows| :: !ValueEqual(rows[i][c], t[c]) && !CompareFails(rows[i][c], t[c]))
      {
      }
    }
  }

  // ---- What they keep ----

  /** Values of column `c` of different rows are different; the earlier row decides about NULLs. */
  ghost predicate DistinctIn(rows: seq<Tuple>, c: nat) {
    forall i, j | 0 <= i < j < |rows| && c < |rows[i]| && c < |rows[j]| :: !ValueEqual(rows[i][c], rows[j][c])
  }

  ghost predicate RowOk(columns: seq<Column>, key: Option<nat>, t: Tuple) {
    && |t| == |columns|
    && (forall c | 0 <= c < |columns| ::
         (t[c].Null? || HasType(t[c], columns[c].ty)) && (columns[c].notNull ==> !t[c].Null?))
    && (key.Some? ==> key.value < |t| && !t[key.value].Null?)
  }

  /** Every row has values of the columns' types, none where NULL is not allowed or in the primary
      key; primary keys and the values of UNIQUE columns differ. */
  ghost predicate RowsOk(columns: seq<Column>, key: Option<nat>, rows: seq<Tuple>) {
    && (forall i | 0 <= i < |rows| :: RowOk(columns, key, rows[i]))
    && (key.Some? ==> DistinctIn(rows, key.value))
    && (forall c | 0 <= c < |columns| && columns[c].unique :: DistinctIn(rows, c))
  }

  /** What the constraints say of the rows of a table. */
  lemma ConstraintsMean(columns: seq<Column>, key: Option<nat>, rows: seq<Tuple>)
    ensures RowsOk(columns, key, rows) <==>
            && (forall i | 0 <= i < |rows| ::
                  && |rows[i]| == |columns|
                  && (key.Some? ==> key.value < |columns| && !rows[i][key.value].Null?)
                  && forall c | 0 <= c < |columns| ::
                       && (rows[i][c].Null? || HasType(rows[i][c], columns[c].ty))
                       && (columns[c].notNull ==> !rows[i][c].Null?))
            && (forall i, j, c | 0 <= i < j < |rows| && 0 <= c < |columns| && c < |rows[i]| && c < |rows[j]|
                                 && (columns[c].unique || key == Some(c)) :: !ValueEqual(rows[i][c], rows[j][c]))
  {
    hide RowOk, DistinctIn;
    forall i | 0 <= i < |rows| ensures RowOk(columns, key, rows[i]) <==>
              && |rows[i]| == |columns|
              && (key.Some? ==> key.value < |columns| && !rows[i][key.value].Null?)
              && forall c | 0 <= c < |columns| ::
                   && (rows[i][c].Null? || HasType(rows[i][c], columns[c].ty))
                   && (columns[c].notNull ==> !rows[i][c].Null?)
    {
      RowMeans(columns, key, rows[i]);
    }
    forall c: nat ensures DistinctIn(rows, c) <==>
              forall i, j | 0 <= i < j < |rows| && c < |rows[i]| && c < |rows[j]| :: !ValueEqual(rows[i][c], rows[j][c])
    {
      DistinctMeans(rows, c);
    }
  }

  lemma RowMeans(columns: seq<Column>, key: Option<nat>, t: Tuple)
    ensures RowOk(columns, key, t) <==>
            && |t| == |columns|
            && (key.Some? ==> key.value < |columns| && !t[key.value].Null?)
            && forall c | 0 <= c < |columns| ::
                 (t[c].Null? || HasType(t[c], columns[c].ty)) && (columns[c].notNull ==> !t[c].Null?)
  {
    hide HasType;
  }

  lemma DistinctMeans(rows: seq<Tuple>, c: nat)
    ensures DistinctIn(rows, c) <==>
            forall i, j | 0 <= i < j < |rows| && c < |rows[i]| && c < |rows[j]| :: !ValueEqual(rows[i][c], rows[j][c])
  {
    hide ValueEqual;
  }

  lemma AcceptedKeeps(columns: seq<Column>, key: Option<nat>, rows: seq<Tuple>, t: Tuple)
    requires RowsOk(columns, key, rows) && TableAccepts(columns, key, rows, t)
    ensures RowsOk(columns, key, rows + [t])
  {
    hide ValueEqual, HasType;
    forall c: nat | (key.Some? && c == key.value) || (c < |columns| && columns[c].unique)
        ensures DistinctIn(rows + [t], c) {
      assert c < |t| && Absent(rows, c, t[c]) && DistinctIn(rows, c) by {
        if c < |columns| && columns[c].unique {
          assert ColumnAccepts(columns[c], rows, c, t[c]);
        }
      }
    }
    forall i | 0 <= i < |rows + [t]| ensures RowOk(columns, key, (rows + [t])[i]) {
      if i == |rows| {
        forall c | 0 <= c < |columns| ensures ColumnAccepts(columns[c], rows, c, t[c]) {
        }
      }
    }
  }

  /** In a UNIQUE column or the primary key no two rows have equal values, whichever is asked first,
      and at most one row has NULL. */
  lemma UniqueMeansDistinct(columns: seq<Column>, key: Option<nat>, rows: seq<Tuple>, c: nat, i: nat, j: nat)
    requires RowsOk(columns, key, rows) && c < |columns| && (columns[c].unique || key == Some(c)) && i < |rows|
             && j < |rows| && i != j
    ensures c < |rows[i]| && c < |rows[j]|
    ensures !(rows[i][c].Null? && rows[j][c].Null?)
    ensures Orderly(rows[i][c], columns[c].ty) && Orderly(rows[j][c], columns[c].ty)
            ==> !ValueEqual(rows[i][c], rows[j][c])
  {
  }

  /** Rows that were left out break nothing. */
  ghost predicate Subsequence(s: seq<Tuple>, t: seq<Tuple>, at: seq<nat>) {
    && |at| == |s|
    && (forall i | 0 <= i < |s| :: at[i] < |t| && s[i] == t[at[i]])
    && (forall i, j | 0 <= i < j < |at| :: at[i] < at[j])
  }

  lemma SubsequenceKeeps(columns: seq<Column>, key: Option<nat>, s: seq<Tuple>, t: seq<Tuple>, at: seq<nat>)
    requires RowsOk(columns, key, t) && Subsequence(s, t, at)
    ensures RowsOk(columns, key, s)
  {
    hide ValueEqual, HasType;
    forall c: nat | DistinctIn(t, c) ensures DistinctIn(s, c) {
    }
  }

  function Shifted(at: seq<nat>): (r: seq<nat>)
    ensures |r| == |at|
  {
    seq(|at|, i requires 0 <= i < |at| => at[i] + 1)
  }

  lemma ShiftedSubsequence(s: seq<Tuple>, t: Tuple, ts: seq<Tuple>, at: seq<nat>)
    requires Subsequence(s, ts, at)
    ensures Subsequence(s, [t] + ts, Shifted(at))
    ensures Subsequence([t] + s, [t] + ts, [0] + Shifted(at))
  {
  }

  lemma {:induction false} KeepIsSubsequence(ts: seq<Tuple>, where: Condition) returns (at: seq<nat>)
    ensures Subsequence(Keep(ts, where), ts, at)
  {
    hide Selected, Subsequence, Shifted;
    if ts == [] {
      at := [];
      assert Subsequence(Keep(ts, where), ts, at) by {
        EmptySubsequence(ts);
      }
    } else {
      var rest := KeepIsSubsequence(ts[1..], where);
      ShiftedSubsequence(Keep(ts[1..], where), ts[0], ts[1..], rest);
      assert [ts[0]] + ts[1..] == ts;
      at := if Selected(ts[0], where) then Shifted(rest) else [0] + Shifted(rest);
      assert [] + Keep(ts[1..], where) == Keep(ts[1..], where);
    }
  }

  lemma EmptySubsequence(ts: seq<Tuple>)
    ensures Subsequence([], ts, [])
  {
  }

  ghost predicate KeyMatched(fk: ForeignKey, t: Tuple)
    reads fk.table.list
  {
    && fk.local < |t| && fk.column < |fk.table.columns|
    && (t[fk.local].Null? || HasMatch(fk.table.list.rows, fk.column, t[fk.local]))
  }

  class Table {
    const columns: seq<Column>
    const primaryKey: Option<nat>
    const foreignKeys: seq<ForeignKey>
    const list: MemoryTable
    /** The last value given out for each column. */
    var counters: seq<int>

    ghost predicate Valid()
      reads this, list
    {
      |counters| == |columns| && Rectangular(list.rows, columns)
    }

    /** The table's own constraints hold. */
    ghost predicate Ok()
      reads this, list
    {
      Valid() && RowsOk(columns, primaryKey, list.rows)
    }

    /** Every foreign key of `t` has a match in the table it refers to. */
    ghost predicate HasMatches(t: Tuple)
      reads (set fk | fk in foreignKeys :: fk.table.list)
    {
      forall fk | fk in foreignKeys :: KeyMatched(fk, t)
    }

    constructor (columns: seq<Column>, primaryKey: Option<nat>, foreignKeys: seq<ForeignKey>)
      ensures this.columns == columns && this.primaryKey == primaryKey && this.foreignKeys == foreignKeys
      ensures Ok() && list.rows == [] && fresh(list)
    {
      this.columns, this.primaryKey, this.foreignKeys := columns, primaryKey, foreignKeys;
      list := new MemoryTable();
      counters := seq(|columns|, i => 0);
    }

    /** Fills in auto-increment and default values; counters are not stepped yet. */
    method Fill(row: Tuple) returns (r: Option<Tuple>)
      requires Valid()
      ensures r == if CanFill(columns, row) then Some(Filled(columns, counters, row)) else None
    {
      var filled := row;
      for s := 0 to |row|
        invariant |filled| == |row| && filled[s..] == row[s..]
        invariant forall c | 0 <= c < s && c < |columns| ::
                    row[c].Null? && columns[c].autoIncrement ==> columns[c].ty.IntType?
        invariant forall c | 0 <= c < s ::
                    filled[c] == if row[c].Null? && c < |columns| then Supplied(columns[c], counters[c]).value
                        else row[c]
      {
        assert filled[s] == filled[s..][0] == row[s..][0];
        if filled[s].Null? && s < |columns| {
          var value := Supplied(columns[s], counters[s]);
          if value.None? {
            return None;
          }
          filled := filled[s := value.value];
        }
        assert filled[s + 1..] == row[s..][1..];
      }
      assert filled == Filled(columns, counters, row);
      return Some(filled);
    }

    /** The search for an equal value; if there is one the result is `taken`. */
    method CheckAbsent(c: nat, v: Value, taken: InsertError) returns (e: Option<InsertError>)
      requires Valid() && c < |columns|
      ensures e.None? <==> Absent(list.rows, c, v)
    {
      hide ValueEqual, CompareFails;
      for i := 0 to |list.rows|
        invariant Absent(list.rows[..i], c, v)
      {
        if CompareFails(list.rows[i][c], v) {
          return Some(ComparisonFailed);
        }
        if ValueEqual(list.rows[i][c], v) {
          return Some(taken);
        }
      }
      assert list.rows[..|list.rows|] == list.rows;
      return None;
    }

    method CheckKey(t: Tuple) returns (e: Option<InsertError>)
      requires Valid() && |t| == |columns|
      ensures e.None? <==> KeyAccepts(primaryKey, list.rows, t)
    {
      if primaryKey.None? {
        return None;
      }
      if primaryKey.value >= |columns| {
        return Some(NoSuchColumn);
      }
      if t[primaryKey.value].Null? {
        return Some(NullKey);
      }
      e := CheckAbsent(primaryKey.value, t[primaryKey.value], DuplicateKey);
    }

    /** `check_value_validity`. */
    method CheckValue(t: Tuple, c: nat) returns (e: Option<InsertError>)
      requires Valid() && |t| == |columns| && c < |columns|
      ensures e.None? <==> ColumnAccepts(columns[c], list.rows, c, t[c])
    {
      if !t[c].Null? && !HasType(t[c], columns[c].ty) {
        return Some(TypeMismatch);
      }
      if columns[c].notNull && t[c].Null? {
        return Some(NullNotAllowed);
      }
      if columns[c].unique {
        e := CheckAbsent(c, t[c], NotUnique);
      } else {
        e := None;
      }
    }

    /** `perform_table_integrity_checks`. */
    method CheckTable(t: Tuple) returns (e: Option<InsertError>)
      requires Valid()
      ensures e.None? <==> TableAccepts(columns, primaryKey, list.rows, t)
    {
      hide ColumnAccepts;
      if |t| != |columns| {
        return Some(CountMismatch);
      }
      e := CheckKey(t);
      if e.Some? {
        return;
      }
      for c := 0 to |columns|
        invariant forall d | 0 <= d < c :: ColumnAccepts(columns[d], list.rows, d, t[d])
      {
        e := CheckValue(t, c);
        if e.Some? {
          return;
        }
      }
      return None;
    }

    /** `find_first_matching_tuple`. It goes on to the end of the rows, without comparing any more. When
        a comparison fails before a match is found, the program aborts. */
    static method FindMatch(rows: seq<Tuple>, c: nat, v: Value) returns (r: SearchResult)
      requires forall i | 0 <= i < |rows| :: c < |rows[i]|
      ensures r.Found? <==> HasMatch(rows, c, v)
      ensures r.Aborted? ==> exists i :: 0 <= i < |rows| && FailsAt(rows, c, v, i)
      ensures r.NotFound? ==> forall i | 0 <= i < |rows| :: !MatchesAt(rows, c, v, i) && !FailsAt(rows, c, v, i)
    {
      hide ValueEqual, CompareFails, SameType, HasMatch;
      ghost var at := 0;
      r := NotFound;
      for i := 0 to |rows|
        invariant !r.Aborted?
        invariant r.Found? ==>
                    && 0 <= at < i && MatchesAt(rows, c, v, at)
                    && forall j | 0 <= j < at :: !FailsAt(rows, c, v, j)
        invariant r.NotFound? ==> forall j | 0 <= j < i :: !MatchesAt(rows, c, v, j) && !FailsAt(rows, c, v, j)
      {
        if r.NotFound? && SameType(rows[i][c], v) {
          if CompareFails(rows[i][c], v) {
            FailedFirst(rows, c, v, i);
            return Aborted;
          }
          if ValueEqual(rows[i][c], v) {
            at := i;
            r := Found;
          }
        }
      }
      MatchedFirst(rows, c, v, at, r);
    }

    /** `perform_database_integrity_checks`. */
    method CheckForeignKeys(t: Tuple) returns (e: Option<InsertError>)
      requires |t| == |columns| && forall fk | fk in foreignKeys :: fk.table.Valid()
      ensures e.None? <==> HasMatches(t)
      ensures e.None? ==> forall fk | fk in foreignKeys ::
                && fk.local < |t| && fk.column < |fk.table.columns|
                && (t[fk.local].Null? ||
                    var rows, v := fk.table.list.rows, t[fk.local];
                    exists i: nat :: i < |rows| && fk.column < |rows[i]| && ValueEqual(rows[i][fk.column], v)
                                     && forall ty :: HasType(rows[i][fk.column], ty) ==> HasType(v, ty))
      ensures (forall fk | fk in foreignKeys ::
                 && fk.local < |t| && fk.column < |fk.table.columns|
                 && (t[fk.local].Null? ||
                     var rows, v := fk.table.list.rows, t[fk.local];
                     exists i: nat :: i < |rows| && fk.column < |rows[i]| && ValueEqual(rows[i][fk.column], v)
                                      && (forall ty :: HasType(rows[i][fk.column], ty) ==> HasType(v, ty))
                                      && forall j | 0 <= j < i && fk.column < |rows[j]| ::
                                           !CompareFails(rows[j][fk.column], v)))
              ==> e.None?
    {
      hide HasMatch, HasEqual, ValueEqual, HasType, CompareFails;
      for i := 0 to |foreignKeys|
        invariant forall fk | fk in foreignKeys[..i] :: KeyMatched(fk, t)
      {
        var fk := foreignKeys[i];
        assert fk in foreignKeys;
        if fk.local >= |columns| || fk.column >= |fk.table.columns| {
          return Some(NoSuchColumn);
        }
        if !t[fk.local].Null? {
          var found := FindMatch(fk.table.list.rows, fk.column, t[fk.local]);
          FoundMeans(fk.table.list.rows, fk.column, t[fk.local]);
          if !found.Found? {
            return Some(if found.Aborted? then Abort else NoMatchingRow);
          }
        }
      }
      assert foreignKeys[..|foreignKeys|] == foreignKeys;
      forall fk | fk in foreignKeys
        ensures fk.local < |t| && fk.column < |fk.table.columns|
        ensures t[fk.local].Null? ||
                var rows, v := fk.table.list.rows, t[fk.local];
                exists i: nat :: i < |rows| && fk.column < |rows[i]| && ValueEqual(rows[i][fk.column], v)
                                 && forall ty :: HasType(rows[i][fk.column], ty) ==> HasType(v, ty)
      {
        assert KeyMatched(fk, t);
        FoundMeans(fk.table.list.rows, fk.column, t[fk.local]);
      }
      return None;
    }

    /** Steps the counters whose next value was used. */
    method StepCounters(row: Tuple)
      requires |counters| == |columns| && |row| == |columns|
      modifies `counters
      ensures counters == Stepped(columns, old(counters), row)
    {
      for c := 0 to |row|
        invariant |counters| == |columns| && counters[c..] == old(counters)[c..]
        invariant counters[..c] == Stepped(columns, old(counters), row)[..c]
      {
        assert counters[c] == counters[c..][0] == old(counters)[c..][0];
        if row[c].Null? && columns[c].autoIncrement {
          counters := counters[c := counters[c] + 1];
        }
        assert counters[c + 1..] == old(counters)[c..][1..];
      }
    }

    /** `insert`: a row goes in exactly if it can be filled in and passes all checks. A rejected row
        leaves the table and its counters as they were. */
    method Insert(row: Tuple) returns (r: InsertResult)
      requires Valid() && forall fk | fk in foreignKeys :: fk.table.Valid()
      modifies `counters, list
      ensures Valid()
      ensures r.Inserted? <==> CanFill(columns, row) && Accepts(old(list.rows), old(counters), row) && old(Matched(row))
      ensures r.Inserted? ==>
                && list.rows == old(list.rows) + [Filled(columns, old(counters), row)]
                && counters == Stepped(columns, old(counters), row)
      ensures r.Rejected? ==> list.rows == old(list.rows) && counters == old(counters)
      ensures r.Inserted? ==> forall fk | fk in foreignKeys ::
                var t := list.rows[|old(list.rows)|];
                && fk.local < |t| && fk.column < |fk.table.columns|
                && (t[fk.local].Null? ||
                    var rows, v := old(fk.table.list.rows), t[fk.local];
                    exists i: nat :: i < |rows| && fk.column < |rows[i]| && ValueEqual(rows[i][fk.column], v)
                                     && forall ty :: HasType(rows[i][fk.column], ty) ==> HasType(v, ty))
      ensures r.Rejected? ==>
                || !CanFill(columns, row)
                || var t := Filled(columns, old(counters), row);
                   || !TableAccepts(columns, primaryKey, old(list.rows), t)
                   || exists fk :: fk in foreignKeys && !old(KeyMatched(fk, t))
    {
      hide TableAccepts, HasMatch, ValueEqual, HasType;
      var filled := Fill(row);
      if filled.None? {
        return Rejected(AutoIncrementOnNonInt);
      }
      var e := CheckTable(filled.value);
      if e.Some? {
        return Rejected(e.value);
      }
      AcceptedLength(filled.value);
      e := CheckForeignKeys(filled.value);
      if e.Some? {
        return Rejected(e.value);
      }
      StepCounters(row);
      list.Append(filled.value);
      return Inserted;
    }

    ghost predicate Accepts(rows: seq<Tuple>, counters: seq<int>, row: Tuple)
      requires |counters| == |columns|
    {
      CanFill(columns, row) && TableAccepts(columns, primaryKey, rows, Filled(columns, counters, row))
    }

    ghost predicate Matched(row: Tuple)
      requires Valid()
      reads this, list, set fk | fk in foreignKeys :: fk.table.list
    {
      CanFill(columns, row) && HasMatches(Filled(columns, counters, row))
    }

    lemma AcceptedLength(t: Tuple)
      requires TableAccepts(columns, primaryKey, list.rows, t)
      ensures |t| == |columns|
    {
    }
  }

  datatype SearchResult = Found | NotFound | Aborted

  /** The search stops at a row that cannot be compared, if there is no match in front of it. */
  lemma FailedFirst(rows: seq<Tuple>, c: nat, v: Value, i: nat)
    requires i < |rows| && FailsAt(rows, c, v, i)
    requires forall j | 0 <= j < i :: !MatchesAt(rows, c, v, j)
    ensures !HasMatch(rows, c, v)
  {
    hide SameType;
    assert !MatchesAt(rows, c, v, i);
  }

  lemma MatchedFirst(rows: seq<Tuple>, c: nat, v: Value, i: nat, r: SearchResult)
    requires r.Found? ==>
               i < |rows| && MatchesAt(rows, c, v, i) && forall j | 0 <= j < i :: !FailsAt(rows, c, v, j)
    requires !r.Found? ==> forall j | 0 <= j < |rows| :: !MatchesAt(rows, c, v, j)
    ensures r.Found? <==> HasMatch(rows, c, v)
  {
    hide MatchesAt, FailsAt;
  }

  datatype InsertResult = Inserted | Rejected(error: InsertError)

  // ---- Runs ----

  /** Tables that share nothing and refer to one another only. */
  ghost predicate Closed(ts: seq<Table>) {
    && (forall i, j | 0 <= i < j < |ts| :: ts[i] != ts[j] && ts[i].list != ts[j].list)
    && (forall t | t in ts :: forall fk | fk in t.foreignKeys :: fk.table in ts)
  }

  lemma MatchGrows(rows: seq<Tuple>, t: Tuple, c: nat, v: Value)
    requires HasMatch(rows, c, v)
    ensures HasMatch(rows + [t], c, v)
  {
    hide MatchesAt, FailsAt;
    var i :| 0 <= i < |rows| && MatchesAt(rows, c, v, i) && forall j | 0 <= j < i :: !FailsAt(rows, c, v, j);
    forall j | 0 <= j <= i ensures MatchesAt(rows + [t], c, v, j) == MatchesAt(rows, c, v, j) {
      SameMatch(rows, t, c, v, j);
    }
    forall j | 0 <= j < i ensures !FailsAt(rows + [t], c, v, j) {
      SameMatch(rows, t, c, v, j);
    }
  }

  lemma SameMatch(rows: seq<Tuple>, t: Tuple, c: nat, v: Value, i: nat)
    requires i < |rows|
    ensures MatchesAt(rows + [t], c, v, i) == MatchesAt(rows, c, v, i)
    ensures FailsAt(rows + [t], c, v, i) == FailsAt(rows, c, v, i)
  {
  }

  /** What is in a table. */
  datatype Content = Content(rows: seq<Tuple>, counters: seq<int>)

  type Database = map<Table, Content>

  /** The contents of all tables. */
  ghost function Snapshot(ts: seq<Table>): Database
    reads set t | t in ts, set t | t in ts :: t.list
  {
    map t | t in ts :: Content(t.list.rows, t.counters)
  }

  ghost predicate HasCounters(db: Database, t: Table) {
    t in db && |db[t].counters| == |t.columns|
  }

  /** The foreign keys of `t`, as a row of table `u`, have matches among the rows in `db`. */
  ghost predicate MatchedIn(db: Database, u: Table, t: Tuple) {
    forall fk | fk in u.foreignKeys :: fk.table in db && KeyMatchedIn(db[fk.table].rows, fk, t)
  }

  ghost predicate KeyMatchedIn(rows: seq<Tuple>, fk: ForeignKey, t: Tuple) {
    && fk.local < |t| && fk.column < |fk.table.columns|
    && (t[fk.local].Null? || HasMatch(rows, fk.column, t[fk.local]))
  }

  /** A row is accepted if it can be filled in and passes the checks of the table and the database. */
  ghost predicate AcceptedIn(db: Database, t: Table, row: Tuple)
    requires HasCounters(db, t)
  {
    && CanFill(t.columns, row)
    && var filled := Filled(t.columns, db[t].counters, row);
       TableAccepts(t.columns, t.primaryKey, db[t].rows, filled) && MatchedIn(db, t, filled)
  }

  datatype Command = InsertRow(row: Tuple) | DeleteRows(where: Condition)

  /** What a command makes of table `t`: an accepted row is appended and its counters are stepped; a
      deletion whose condition does not fail on any row leaves the rows that are not selected. */
  ghost function Effect(db: Database, t: Table, c: Command): (r: Content)
    requires HasCounters(db, t)
    ensures |r.counters| == |t.columns|
  {
    var Content(rows, counters) := db[t];
    match c
    case InsertRow(row) =>
      if !AcceptedIn(db, t, row) then db[t]
      else Content(rows + [Filled(t.columns, counters, row)], Stepped(t.columns, counters, row))
    case DeleteRows(where) =>
      if exists i :: 0 <= i < |rows| && where(rows[i]).None? then db[t] else Content(Keep(rows, where), counters)
  }

  ghost predicate Runnable(db: Database, ts: seq<Table>, cs: seq<(nat, Command)>) {
    (forall t | t in ts :: HasCounters(db, t)) && forall i | 0 <= i < |cs| :: cs[i].0 < |ts|
  }

  /** The database after the commands, each of them on the table of that number. */
  ghost function After(db: Database, ts: seq<Table>, cs: seq<(nat, Command)>): (r: Database)
    requires Runnable(db, ts, cs)
    ensures r.Keys == db.Keys && forall t | t in ts :: HasCounters(r, t)
  {
    if cs == [] then db
    else
      var before := After(db, ts, cs[..|cs| - 1]);
      var t := ts[cs[|cs| - 1].0];
      before[t := Effect(before, t, cs[|cs| - 1].1)]
  }

  /** The constraints of table `t` hold. */
  ghost predicate Fine(db: Database, t: Table) {
    t in db && RowsOk(t.columns, t.primaryKey, db[t].rows)
  }

  lemma EffectKeeps(db: Database, t: Table, c: Command)
    requires HasCounters(db, t) && Fine(db, t)
    ensures RowsOk(t.columns, t.primaryKey, Effect(db, t, c).rows)
  {
    hide RowsOk, TableAccepts, MatchedIn, Keep;
    var rows := db[t].rows;
    match c
    case InsertRow(row) =>
      if AcceptedIn(db, t, row) {
        AcceptedKeeps(t.columns, t.primaryKey, rows, Filled(t.columns, db[t].counters, row));
      }
    case DeleteRows(where) =>
      var at := KeepIsSubsequence(rows, where);
      SubsequenceKeeps(t.columns, t.primaryKey, Keep(rows, where), rows, at);
  }

  /** Whatever is inserted and deleted, in whatever tables, the constraints of every table hold
      afterwards. */
  lemma {:induction false} AfterKeepsConstraints(db: Database, ts: seq<Table>, cs: seq<(nat, Command)>)
    requires Runnable(db, ts, cs) && forall t | t in ts :: Fine(db, t)
    ensures forall t | t in ts :: Fine(After(db, ts, cs), t)
  {
    hide RowsOk, Effect;
    if cs != [] {
      var init, c := cs[..|cs| - 1], cs[|cs| - 1];
      AfterKeepsConstraints(db, ts, init);
      EffectKeeps(After(db, ts, init), ts[c.0], c.1);
    }
  }

  /** Every foreign key that is not NULL has a match, in all tables. */
  ghost predicate AllMatched(db: Database) {
    forall u, i | u in db && 0 <= i < |db[u].rows| :: MatchedIn(db, u, db[u].rows[i])
  }

  /** When a table grows by a row that has its matches, all rows of all tables have theirs. */
  lemma GrowingKeepsMatches(db: Database, u: Table, n: Tuple, counters: seq<int>)
    requires AllMatched(db) && u in db && MatchedIn(db, u, n)
    ensures AllMatched(db[u := Content(db[u].rows + [n], counters)])
  {
    hide HasMatch;
    var after := db[u := Content(db[u].rows + [n], counters)];
    forall x: Table, i: int | x in after && 0 <= i < |after[x].rows| ensures MatchedIn(after, x, after[x].rows[i]) {
      var t: Tuple := after[x].rows[i];
      assert MatchedIn(db, x, t) by {
        assert t != n ==> i < |db[x].rows| && t == db[x].rows[i];
        assert x != u ==> after[x] == db[x];
      }
      forall fk | fk in x.foreignKeys ensures fk.table in after && KeyMatchedIn(after[fk.table].rows, fk, t) {
        if fk.table == u && !t[fk.local].Null? {
          MatchGrows(db[u].rows, n, fk.column, t[fk.local]);
        }
      }
    }
  }

  /** As long as rows are only inserted, every foreign key that is not NULL keeps its match, in all
      tables. */
  lemma {:induction false} InsertsKeepMatches(db: Database, ts: seq<Table>, cs: seq<(nat, Command)>)
    requires Runnable(db, ts, cs) && AllMatched(db) && forall i | 0 <= i < |cs| :: cs[i].1.InsertRow?
    ensures AllMatched(After(db, ts, cs))
  {
    hide AllMatched, TableAccepts, MatchedIn, CanFill, Filled, Stepped;
    if cs != [] {
      var init, c := cs[..|cs| - 1], cs[|cs| - 1];
      InsertsKeepMatches(db, ts, init);
      var before := After(db, ts, init);
      var t := ts[c.0];
      if AcceptedIn(before, t, c.1.row) {
        GrowingKeepsMatches(before, t, Filled(t.columns, before[t].counters, c.1.row),
                            Stepped(t.columns, before[t].counters, c.1.row));
      } else {
        assert before[t := before[t]] == before;
      }
    }
  }

  /** Any run of INSERT and DELETE on tables that refer to one another does to them what `After` says.
      So it keeps the constraints of every table; and a run of INSERT keeps a match for every foreign
      key that is not NULL. */
  method Run(ts: seq<Table>, cs: seq<(nat, Command)>)
    requires Closed(ts) && (forall t | t in ts :: t.Valid()) && forall i | 0 <= i < |cs| :: cs[i].0 < |ts|
    modifies set t | t in ts, set t | t in ts :: t.list
    ensures forall t | t in ts :: t.Valid()
    ensures Runnable(old(Snapshot(ts)), ts, cs) && Snapshot(ts) == After(old(Snapshot(ts)), ts, cs)
    ensures old(forall t | t in ts :: t.Ok()) ==> forall t | t in ts :: t.Ok()
    ensures old(AllMatched(Snapshot(ts))) && (forall i | 0 <= i < |cs| :: cs[i].1.InsertRow?) ==>
              AllMatched(Snapshot(ts))
    ensures old(forall t | t in ts :: t.list.rows == []) && (forall i | 0 <= i < |cs| :: cs[i].1.InsertRow?) ==>
              forall u, k, fk | u in ts && 0 <= k < |u.list.rows| && fk in u.foreignKeys ::
                && fk.local < |u.list.rows[k]| && fk.table in ts
                && (u.list.rows[k][fk.local].Null?
                    || HasEqual(fk.table.list.rows, fk.column, u.list.rows[k][fk.local]))
  {
    hide AllMatched, RowsOk, Effect, HasEqual;
    ghost var db := Snapshot(ts);
    for n := 0 to |cs|
      invariant forall t | t in ts :: t.Valid()
      invariant Runnable(db, ts, cs[..n]) && Snapshot(ts) == After(db, ts, cs[..n])
    {
      assert cs[..n + 1][..n] == cs[..n];
      RunOne(ts, ts[cs[n].0], cs[n].1);
    }
    assert cs[..|cs|] == cs;
    if forall t | t in ts :: Fine(db, t) {
      AfterKeepsConstraints(db, ts, cs);
      assert forall t | t in ts :: Fine(Snapshot(ts), t);
    }
    if forall i | 0 <= i < |cs| :: cs[i].1.InsertRow? {
      if AllMatched(db) {
        InsertsKeepMatches(db, ts, cs);
      }
      if forall t | t in db :: db[t].rows == [] {
        FromNothing(db, ts, cs);
        assert forall t | t in ts :: Snapshot(ts)[t].rows == t.list.rows;
      }
    }
  }

  lemma NothingUnmatched(db: Database)
    requires forall t | t in db :: db[t].rows == []
    ensures AllMatched(db)
  {
  }

  /** A matched foreign key that is not NULL has an equal value in the table it refers to. */
  lemma MatchedMeans(db: Database, u: Table, k: int, fk: ForeignKey)
    requires AllMatched(db) && u in db && 0 <= k < |db[u].rows| && fk in u.foreignKeys
    ensures fk.local < |db[u].rows[k]| && fk.table in db && fk.column < |fk.table.columns|
    ensures var v := db[u].rows[k][fk.local]; v.Null? || HasEqual(db[fk.table].rows, fk.column, v)
  {
    hide HasMatch, HasEqual;
    var t: Tuple := db[u].rows[k];
    assert MatchedIn(db, u, db[u].rows[k]);
    assert KeyMatchedIn(db[fk.table].rows, fk, t);
    MatchMeans(db[fk.table].rows, fk.column, t[fk.local]);
  }

  /** After insertions into empty tables every foreign key that is not NULL has an equal value in the table
      it refers to. */
  lemma FromNothing(db: Database, ts: seq<Table>, cs: seq<(nat, Command)>)
    requires Runnable(db, ts, cs) && (forall t | t in db :: db[t].rows == [])
    requires forall i | 0 <= i < |cs| :: cs[i].1.InsertRow?
    ensures forall u, k, fk | u in db && 0 <= k < |After(db, ts, cs)[u].rows| && fk in u.foreignKeys ::
              var v := After(db, ts, cs)[u].rows[k];
              && fk.local < |v| && fk.table in db
              && (v[fk.local].Null? || HasEqual(After(db, ts, cs)[fk.table].rows, fk.column, v[fk.local]))
  {
    hide AllMatched, After, HasEqual, Runnable;
    NothingUnmatched(db);
    InsertsKeepMatches(db, ts, cs);
    var d := After(db, ts, cs);
    forall u, k, fk | u in db && 0 <= k < |d[u].rows| && fk in u.foreignKeys
      ensures fk.local < |d[u].rows[k]| && fk.table in db
      ensures d[u].rows[k][fk.local].Null? || HasEqual(d[fk.table].rows, fk.column, d[u].rows[k][fk.local])
    {
      MatchedMeans(d, u, k, fk);
    }
  }

  method RunOne(ts: seq<Table>, u: Table, c: Command)
    requires Closed(ts) && u in ts && forall t | t in ts :: t.Valid()
    modifies u, u.list
    ensures forall t | t in ts :: t.Valid()
    ensures HasCounters(old(Snapshot(ts)), u)
    ensures Snapshot(ts) == old(Snapshot(ts))[u := Effect(old(Snapshot(ts)), u, c)]
  {
    hide Effect;
    ghost var db := Snapshot(ts);
    OthersStay(ts, u);
    match c {
      case InsertRow(row) => InsertInto(ts, u, row);
      case DeleteRows(where) => DeleteIn(u, where, db);
    }
    assert Snapshot(ts)[u] == Effect(db, u, c);
  }

  method InsertInto(ts: seq<Table>, u: Table, row: Tuple)
    requires Closed(ts) && u in ts && forall t | t in ts :: t.Valid()
    modifies u, u.list
    ensures u.Valid() && HasCounters(old(Snapshot(ts)), u)
    ensures Content(u.list.rows, u.counters) == Effect(old(Snapshot(ts)), u, InsertRow(row))
  {
    hide HasMatch, TableAccepts, Filled, Stepped, MatchedIn, KeyMatched;
    if CanFill(u.columns, row) {
      MatchesInSnapshot(ts, u, Filled(u.columns, u.counters, row));
    }
    var r := u.Insert(row);
  }

  method DeleteIn(u: Table, where: Condition, ghost db: Database)
    requires u.Valid() && u in db && db[u] == Content(u.list.rows, u.counters)
    modifies u.list
    ensures u.Valid() && HasCounters(db, u)
    ensures Content(u.list.rows, u.counters) == Effect(db, u, DeleteRows(where))
  {
    hide AcceptedIn, Keep;
    ghost var at := KeepIsSubsequence(u.list.rows, where);
    var ok, kept := DeleteFromMemory(u.list, where);
  }

  lemma MatchesInSnapshot(ts: seq<Table>, u: Table, t: Tuple)
    requires Closed(ts) && u in ts
    ensures u.HasMatches(t) <==> MatchedIn(Snapshot(ts), u, t)
  {
    hide HasMatch;
    assert forall fk | fk in u.foreignKeys :: KeyMatched(fk, t) <==> KeyMatchedIn(Snapshot(ts)[fk.table].rows, fk, t);
  }

  lemma OthersStay(ts: seq<Table>, u: Table)
    requires Closed(ts) && u in ts
    ensures forall t | t in ts && t != u :: t.list != u.list
  {
  }
}
