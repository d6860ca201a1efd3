/** GROUP BY, ORDER BY and TOP (db/sql/Select.cpp:82-130, 147-193, db/sql/ast/Function.cpp:498-508). */
module Selecting {
  import opened Options
  import opened Values
  import opened Ordering
  import opened StableSorting

  // ---- GROUP BY ----

  /** An element of the ordered map of groups. */
  datatype Group = Group(key: Tuple, rows: seq<Tuple>)

  predicate HasColumns(row: Tuple, columns: seq<nat>) {
    forall i | 0 <= i < |columns| :: columns[i] < |row|
  }

  /** The values a row is grouped by. */
  function KeyOf(row: Tuple, columns: seq<nat>): (k: Tuple)
    requires HasColumns(row, columns)
    ensures |k| == |columns|
  {
    seq(|columns|, i requires 0 <= i < |columns| => row[columns[i]])
  }

  /** The values are those of the named columns, in that order. */
  lemma KeyMeans(s: Tuple, t: Tuple, columns: seq<nat>)
    requires HasColumns(s, columns) && HasColumns(t, columns)
    ensures |KeyOf(s, columns)| == |columns| && forall i | 0 <= i < |columns| :: KeyOf(s, columns)[i] == s[columns[i]]
    ensures TupleSame(KeyOf(s, columns), KeyOf(t, columns)) <==>
            forall i | 0 <= i < |columns| ::
              ValueEqual(s[columns[i]], t[columns[i]]) && ValueEqual(t[columns[i]], s[columns[i]])
  {
    hide ValueEqual;
  }

  /** Appends a row to the group of its key, which is created if it is missing. */
  function AddToGroup(groups: seq<Group>, key: Tuple, row: Tuple): seq<Group> {
    if groups == [] || Less()(key, groups[0].key) then [Group(key, [row])] + groups
    else if !Less()(groups[0].key, key) then [Group(groups[0].key, groups[0].rows + [row])] + groups[1..]
    else [groups[0]] + AddToGroup(groups[1..], key, row)
  }

  /** The rows a WHERE clause selects, in order. */
  function Selected(rows: seq<Tuple>, where: Tuple -> bool): seq<Tuple> {
    if rows == [] then [] else (if where(rows[0]) then [rows[0]] else []) + Selected(rows[1..], where)
  }

  lemma {:induction false} SelectedSnoc(rows: seq<Tuple>, r: Tuple, where: Tuple -> bool)
    ensures Selected(rows + [r], where) == Selected(rows, where) + if where(r) then [r] else []
  {
    if rows == [] {
      assert [r][1..] == [] && rows + [r] == [r];
    } else {
      SelectedSnoc(rows[1..], r, where);
      assert (rows + [r])[1..] == rows[1..] + [r];
    }
  }

  /** The rows of a key, in order. */
  ghost function RowsOf(rows: seq<Tuple>, columns: seq<nat>, key: Tuple): seq<Tuple>
    requires forall i | 0 <= i < |rows| :: HasColumns(rows[i], columns)
  {
    if rows == [] then []
    else RowsOf(rows[..|rows| - 1], columns, key) +
         if TupleSame(KeyOf(rows[|rows| - 1], columns), key) then [rows[|rows| - 1]] else []
  }

  /** All rows have comparable values in the columns to group by, and these are ordered. */
  ghost predicate Groupable(rows: seq<Tuple>, columns: seq<nat>, cs: seq<KeyColumn>) {
    |cs| == |columns| && Settled(cs) && forall i | 0 <= i < |rows| ::
          HasColumns(rows[i], columns) && OrderlyTuple(KeyOf(rows[i], columns), cs)
  }

  ghost predicate GroupAt(groups: seq<Group>, rows: seq<Tuple>, columns: seq<nat>, cs: seq<KeyColumn>, i: nat)
    requires Groupable(rows, columns, cs) && i < |groups|
  {
    OrderlyTuple(groups[i].key, cs) && groups[i].rows == RowsOf(rows, columns, groups[i].key) && groups[i].rows != []
  }

  ghost predicate HasGroup(groups: seq<Group>, key: Tuple) {
    exists i: nat :: i < |groups| && TupleSame(groups[i].key, key)
  }

  /** The groups are the key classes of the rows: in ascending order of keys, each with exactly the
      rows of its key in their original order, and no row is without a group. */
  ghost predicate Partition(groups: seq<Group>, rows: seq<Tuple>, columns: seq<nat>, cs: seq<KeyColumn>)
    requires Groupable(rows, columns, cs)
  {
    && (forall i: nat, j: nat | i < j < |groups| :: Less()(groups[i].key, groups[j].key))
    && (forall i: nat | i < |groups| :: GroupAt(groups, rows, columns, cs, i))
    && (forall i: nat | i < |rows| :: HasGroup(groups, KeyOf(rows[i], columns)))
  }

  /** What `AddToGroup` does: it appends to the group at `i`, or puts a new one there. */
  lemma {:induction false} AddsAt(groups: seq<Group>, key: Tuple, row: Tuple) returns (i: nat)
    ensures i <= |groups|
    ensures var r := AddToGroup(groups, key, row);
            && (forall j: nat | j < i :: Less()(groups[j].key, key))
            && if i < |groups| && !Less()(key, groups[i].key)
               then !Less()(groups[i].key, key) && r == groups[i := Group(groups[i].key, groups[i].rows + [row])]
               else r == groups[..i] + [Group(key, [row])] + groups[i..]
  {
    hide Less;
    if groups == [] || Less()(key, groups[0].key) || !Less()(groups[0].key, key) {
      i := 0;
    } else {
      i := AddsAt(groups[1..], key, row);
      i := i + 1;
      assert groups == [groups[0]] + groups[1..];
    }
  }

  /** The order facts about three keys. */
  lemma KeyOrder(a: Tuple, b: Tuple, c: Tuple, cs: seq<KeyColumn>)
    requires OrderlyTuple(a, cs) && OrderlyTuple(b, cs) && OrderlyTuple(c, cs) && Settled(cs)
    ensures !Less()(a, a) && (Less()(a, b) ==> !Less()(b, a))
    ensures Less()(a, b) && Less()(b, c) ==> Less()(a, c)
    ensures TupleSame(a, b) <==> !Less()(a, b) && !Less()(b, a)
    ensures TupleSame(a, b) && TupleSame(b, c) ==> TupleSame(a, c)
  {
    hide OrderlyTuple, Less, TupleSame, StrictWeakOrder, Settled;
    LessIsOrder(cs);
    Order(Less(), Tuples(cs), a, b, c);
    Order(Less(), Tuples(cs), a, a, a);
    assert Equivalent(Less(), a, b) <==> TupleSame(a, b);
    assert Equivalent(Less(), b, c) <==> TupleSame(b, c);
    assert Equivalent(Less(), a, c) <==> TupleSame(a, c);
  }

  lemma RowsOfSnoc(rows: seq<Tuple>, row: Tuple, columns: seq<nat>, key: Tuple)
    requires (forall i | 0 <= i < |rows| :: HasColumns(rows[i], columns)) && HasColumns(row, columns)
    ensures RowsOf(rows + [row], columns, key) ==
            RowsOf(rows, columns, key) + if TupleSame(KeyOf(row, columns), key) then [row] else []
  {
    hide HasColumns, KeyOf, TupleSame;
    assert (rows + [row])[..|rows|] == rows;
  }

  lemma {:induction false} NoRowsOf(rows: seq<Tuple>, columns: seq<nat>, key: Tuple)
    requires forall i | 0 <= i < |rows| :: HasColumns(rows[i], columns)
    requires forall i: nat | i < |rows| :: !TupleSame(KeyOf(rows[i], columns), key)
    ensures RowsOf(rows, columns, key) == []
  {
    hide HasColumns, KeyOf, TupleSame;
    if rows != [] {
      NoRowsOf(rows[..|rows| - 1], columns, key);
    }
  }

  /** Appending to an existing group. */
  lemma AppendKeeps(groups: seq<Group>, rows: seq<Tuple>, row: Tuple, columns: seq<nat>, cs: seq<KeyColumn>, i: nat)
    requires Groupable(rows, columns, cs) && Partition(groups, rows, columns, cs)
             && Groupable(rows + [row], columns, cs)
    requires HasColumns(row, columns) && i < |groups| && TupleSame(KeyOf(row, columns), groups[i].key)
    ensures Partition(groups[i := Group(groups[i].key, groups[i].rows + [row])], rows + [row], columns, cs)
  {
    hide HasColumns, KeyOf, TupleSame, Less, OrderlyTuple, RowsOf;
    var key := KeyOf(row, columns);
    var r := groups[i := Group(groups[i].key, groups[i].rows + [row])];
    assert OrderlyTuple(key, cs) by {
      assert (rows + [row])[|rows|] == row;
    }
    forall j: nat | j < |r| ensures GroupAt(r, rows + [row], columns, cs, j) {
      assert GroupAt(groups, rows, columns, cs, j) && GroupAt(groups, rows, columns, cs, i);
      RowsOfSnoc(rows, row, columns, groups[j].key);
      KeyOrder(groups[i].key, key, groups[j].key, cs);
      KeyOrder(key, groups[i].key, groups[j].key, cs);
      KeyOrder(groups[i].key, groups[j].key, key, cs);
      KeyOrder(groups[j].key, groups[i].key, key, cs);
    }
    forall k: nat | k < |rows + [row]| ensures HasGroup(r, KeyOf((rows + [row])[k], columns)) {
      if k < |rows| {
        assert HasGroup(groups, KeyOf(rows[k], columns));
        var j: nat :| j < |groups| && TupleSame(groups[j].key, KeyOf(rows[k], columns));
        assert r[j].key == groups[j].key;
      } else {
        assert GroupAt(groups, rows, columns, cs, i);
        KeyOrder(key, groups[i].key, key, cs);
        KeyOrder(groups[i].key, key, key, cs);
        assert r[i].key == groups[i].key;
      }
    }
  }

  /** Putting in a new group, between those with smaller and those with greater keys. */
  lemma CreateKeeps(groups: seq<Group>, rows: seq<Tuple>, row: Tuple, columns: seq<nat>, cs: seq<KeyColumn>, i: nat)
    requires Groupable(rows, columns, cs) && Partition(groups, rows, columns, cs)
             && Groupable(rows + [row], columns, cs)
    requires HasColumns(row, columns) && i <= |groups|
    requires forall j: nat | j < i :: Less()(groups[j].key, KeyOf(row, columns))
    requires forall j: nat | i <= j < |groups| :: Less()(KeyOf(row, columns), groups[j].key)
    ensures Partition(groups[..i] + [Group(KeyOf(row, columns), [row])] + groups[i..], rows + [row], columns, cs)
  {
    hide HasColumns, KeyOf, TupleSame, Less, OrderlyTuple, RowsOf;
    var key := KeyOf(row, columns);
    var r := groups[..i] + [Group(key, [row])] + groups[i..];
    assert OrderlyTuple(key, cs) by {
      assert (rows + [row])[|rows|] == row;
    }
    forall j: nat | j < |groups| ensures !TupleSame(groups[j].key, key) && !TupleSame(key, groups[j].key) {
      assert GroupAt(groups, rows, columns, cs, j);
      KeyOrder(key, groups[j].key, key, cs);
      KeyOrder(groups[j].key, key, key, cs);
    }
    forall k: nat | k < |rows| ensures !TupleSame(KeyOf(rows[k], columns), key) {
      NotInNewGroup(groups, rows, columns, cs, key, k);
    }
    NoRowsOf(rows, columns, key);
    KeyOrder(key, key, key, cs);
    forall j: nat | j < |r| ensures GroupAt(r, rows + [row], columns, cs, j) {
      RowsOfSnoc(rows, row, columns, r[j].key);
      if j < i {
        assert GroupAt(groups, rows, columns, cs, j);
      } else if j > i {
        assert GroupAt(groups, rows, columns, cs, j - 1);
      }
    }
    forall k: nat | k < |rows + [row]| ensures HasGroup(r, KeyOf((rows + [row])[k], columns)) {
      if k < |rows| {
        assert HasGroup(groups, KeyOf(rows[k], columns));
        var j: nat :| j < |groups| && TupleSame(groups[j].key, KeyOf(rows[k], columns));
        assert r[if j < i then j else j + 1] == groups[j];
      } else {
        assert r[i].key == key;
      }
    }
  }

  /** A row that has a group does not have a key that no group has. */
  lemma NotInNewGroup(groups: seq<Group>, rows: seq<Tuple>, columns: seq<nat>, cs: seq<KeyColumn>, key: Tuple, k: nat)
    requires Groupable(rows, columns, cs) && Partition(groups, rows, columns, cs) && k < |rows|
             && OrderlyTuple(key, cs)
    requires forall j: nat | j < |groups| :: !TupleSame(groups[j].key, key)
    ensures !TupleSame(KeyOf(rows[k], columns), key)
  {
  }

  /** One more row keeps the groups a partition. */
  lemma AddKeepsPartition(groups: seq<Group>, rows: seq<Tuple>, row: Tuple, columns: seq<nat>, cs: seq<KeyColumn>)
    requires Groupable(rows, columns, cs) && Partition(groups, rows, columns, cs)
             && Groupable(rows + [row], columns, cs)
    requires HasColumns(row, columns)
    ensures Partition(AddToGroup(groups, KeyOf(row, columns), row), rows + [row], columns, cs)
  {
    hide HasColumns, KeyOf, TupleSame, Less, OrderlyTuple, RowsOf, AddToGroup;
    var key := KeyOf(row, columns);
    assert OrderlyTuple(key, cs) by {
      assert (rows + [row])[|rows|] == row;
    }
    var i := AddsAt(groups, key, row);
    if i < |groups| && !Less()(key, groups[i].key) {
      assert GroupAt(groups, rows, columns, cs, i);
      KeyOrder(key, groups[i].key, key, cs);
      AppendKeeps(groups, rows, row, columns, cs, i);
    } else {
      forall j: nat | i <= j < |groups| ensures Less()(key, groups[j].key) {
        assert GroupAt(groups, rows, columns, cs, j) && GroupAt(groups, rows, columns, cs, i);
        KeyOrder(key, groups[i].key, groups[j].key, cs);
      }
      CreateKeeps(groups, rows, row, columns, cs, i);
    }
  }

  /** The groups of all rows. */
  function GroupsOf(rows: seq<Tuple>, columns: seq<nat>): seq<Group>
    requires forall i | 0 <= i < |rows| :: HasColumns(rows[i], columns)
  {
    if rows == [] then []
    else
      var row := rows[|rows| - 1];
      AddToGroup(GroupsOf(rows[..|rows| - 1], columns), KeyOf(row, columns), row)
  }

  lemma {:induction false} GroupsArePartition(rows: seq<Tuple>, columns: seq<nat>, cs: seq<KeyColumn>)
    requires Groupable(rows, columns, cs)
    ensures Partition(GroupsOf(rows, columns), rows, columns, cs)
  {
    hide KeyOf, Less, OrderlyTuple, RowsOf, AddToGroup, Partition, HasColumns;
    if rows == [] {
      NoGroups(columns, cs);
    } else {
      var init, row := rows[..|rows| - 1], rows[|rows| - 1];
      assert init + [row] == rows;
      GroupsArePartition(init, columns, cs);
      AddKeepsPartition(GroupsOf(init, columns), init, row, columns, cs);
    }
  }

  /** The rows of a key, by their positions: in order, and exactly those with the same values. */
  lemma {:induction false} RowsOfPositions(rows: seq<Tuple>, columns: seq<nat>, key: Tuple) returns (at: seq<nat>)
    requires |key| == |columns| && forall i | 0 <= i < |rows| :: HasColumns(rows[i], columns)
    ensures RowsAt(rows, columns, key, RowsOf(rows, columns, key), at)
  {
    hide HasColumns, KeyOf, TupleSame, RowsAt;
    if rows == [] {
      at := [];
      NoRowsAt(columns, key);
    } else {
      var n := |rows| - 1;
      at := RowsOfPositions(rows[..n], columns, key);
      RowsAtSnoc(rows[..n], rows[n], columns, key, RowsOf(rows[..n], columns, key), at);
      assert rows == rows[..n] + [rows[n]];
      if TupleSame(KeyOf(rows[n], columns), key) {
        at := at + [n];
      } else {
        assert RowsOf(rows[..n], columns, key) + [] == RowsOf(rows[..n], columns, key);
      }
    }
  }

  /** `group` are the rows at the positions `at`: those whose values in the named columns are the key's. */
  ghost predicate RowsAt(rows: seq<Tuple>, columns: seq<nat>, key: Tuple, group: seq<Tuple>, at: seq<nat>)
    requires |key| == |columns| && forall i | 0 <= i < |rows| :: HasColumns(rows[i], columns)
  {
    && |at| == |group|
    && (forall k | 0 <= k < |at| :: at[k] < |rows| && group[k] == rows[at[k]])
    && (forall j, k | 0 <= j < k < |at| :: at[j] < at[k])
    && (forall i: nat | i < |rows| ::
          i in at <==> forall c | 0 <= c < |columns| ::
            columns[c] < |rows[i]|
            && ValueEqual(rows[i][columns[c]], key[c]) && ValueEqual(key[c], rows[i][columns[c]]))
  }

  lemma NoRowsAt(columns: seq<nat>, key: Tuple)
    requires |key| == |columns|
    ensures RowsAt([], columns, key, [], [])
  {
  }

  lemma RowsAtSnoc(rows: seq<Tuple>, row: Tuple, columns: seq<nat>, key: Tuple, group: seq<Tuple>, at: seq<nat>)
    requires |key| == |columns| && HasColumns(row, columns)
    requires (forall i | 0 <= i < |rows| :: HasColumns(rows[i], columns)) && RowsAt(rows, columns, key, group, at)
    ensures if TupleSame(KeyOf(row, columns), key)
            then RowsAt(rows + [row], columns, key, group + [row], at + [|rows|])
            else RowsAt(rows + [row], columns, key, group, at)
  {
    hide ValueEqual;
    var all := rows + [row];
    assert TupleSame(KeyOf(row, columns), key) <==> forall c | 0 <= c < |columns| ::
             ValueEqual(row[columns[c]], key[c]) && ValueEqual(key[c], row[columns[c]]);
    assert forall i | 0 <= i < |rows| :: all[i] == rows[i];
  }

  /** Two rows share a group exactly if their values in the named columns are the same. */
  lemma SharedGroup(groups: seq<Group>, rows: seq<Tuple>, columns: seq<nat>, cs: seq<KeyColumn>, i: nat, j: nat,
                    s: Tuple, t: Tuple)
    requires Groupable(rows, columns, cs) && Partition(groups, rows, columns, cs)
    requires i < |groups| && j < |groups| && s in groups[i].rows && t in groups[j].rows
    ensures s in rows && t in rows && HasColumns(s, columns) && HasColumns(t, columns)
    ensures i == j <==>
            forall c | 0 <= c < |columns| ::
              ValueEqual(s[columns[c]], t[columns[c]]) && ValueEqual(t[columns[c]], s[columns[c]])
  {
    hide TupleSame, KeyOf, Less, OrderlyTuple, RowsOf, HasColumns, Settled, ValueEqual;
    assert GroupAt(groups, rows, columns, cs, i) && GroupAt(groups, rows, columns, cs, j);
    InRowsOf(rows, columns, groups[i].key, s);
    InRowsOf(rows, columns, groups[j].key, t);
    var k, l := KeyOf(s, columns), KeyOf(t, columns);
    KeyMeans(s, t, columns);
    assert OrderlyTuple(k, cs) && OrderlyTuple(l, cs);
    SameBothWays(k, groups[i].key);
    SameBothWays(l, groups[j].key);
    KeyOrder(k, groups[i].key, l, cs);
    KeyOrder(groups[i].key, k, l, cs);
    KeyOrder(groups[i].key, l, groups[j].key, cs);
    KeyOrder(groups[i].key, groups[j].key, groups[i].key, cs);
  }

  lemma SameBothWays(a: Tuple, b: Tuple)
    ensures TupleSame(a, b) <==> TupleSame(b, a)
  {
    hide ValueEqual;
  }

  lemma {:induction false} InRowsOf(rows: seq<Tuple>, columns: seq<nat>, key: Tuple, t: Tuple)
    requires (forall i | 0 <= i < |rows| :: HasColumns(rows[i], columns)) && t in RowsOf(rows, columns, key)
    ensures t in rows && HasColumns(t, columns) && TupleSame(KeyOf(t, columns), key)
  {
    hide HasColumns, KeyOf, TupleSame;
    var n := |rows| - 1;
    if t in RowsOf(rows[..n], columns, key) {
      InRowsOf(rows[..n], columns, key, t);
    }
  }

  lemma NoGroups(columns: seq<nat>, cs: seq<KeyColumn>)
    requires |cs| == |columns| && Settled(cs)
    ensures Partition([], [], columns, cs)
  {
  }

  function AllRows(groups: seq<Group>): seq<Tuple> {
    if groups == [] then [] else groups[0].rows + AllRows(groups[1..])
  }

  lemma {:induction false} AddOneRow(groups: seq<Group>, key: Tuple, row: Tuple)
    ensures multiset(AllRows(AddToGroup(groups, key, row))) == multiset(AllRows(groups)) + multiset{row}
  {
    hide Less;
    if groups == [] || Less()(key, groups[0].key) {
      assert ([Group(key, [row])] + groups)[1..] == groups;
    } else if !Less()(groups[0].key, key) {
      var r := [Group(groups[0].key, groups[0].rows + [row])] + groups[1..];
      assert r[1..] == groups[1..];
    } else {
      AddOneRow(groups[1..], key, row);
      var rest := AddToGroup(groups[1..], key, row);
      assert ([groups[0]] + rest)[1..] == rest;
    }
  }

  /** Nothing is lost or repeated by grouping, whatever the values are. */
  lemma {:induction false} GroupingConserves(rows: seq<Tuple>, columns: seq<nat>)
    requires forall i | 0 <= i < |rows| :: HasColumns(rows[i], columns)
    ensures multiset(AllRows(GroupsOf(rows, columns))) == multiset(rows)
  {
    hide HasColumns, KeyOf, AddToGroup, AllRows;
    if rows != [] {
      var init, row := rows[..|rows| - 1], rows[|rows| - 1];
      assert init + [row] == rows;
      GroupingConserves(init, columns);
      AddOneRow(GroupsOf(init, columns), KeyOf(row, columns), row);
    } else {
      assert AllRows([]) == [] by {
        NoRows();
      }
    }
  }

  lemma NoRows()
    ensures AllRows([]) == []
  {
  }

  function Passes(where: Tuple -> Option<bool>): Tuple -> bool {
    t => where(t) == Some(true)
  }

  /** The key of a row; there is none if a column to group by does not exist. */
  method GroupKey(row: Tuple, columns: seq<nat>) returns (r: Option<Tuple>)
    ensures r == if HasColumns(row, columns) then Some(KeyOf(row, columns)) else None
  {
    var key: Tuple := [];
    for n := 0 to |columns|
      invariant HasColumns(row, columns[..n]) && key == KeyOf(row, columns[..n])
    {
      assert columns[..n + 1][n] == columns[n];
      if columns[n] >= |row| {
        return None;
      }
      key := key + [row[columns[n]]];
    }
    assert columns[..|columns|] == columns;
    return Some(key);
  }

  /** A row that stops the grouping: WHERE fails on it, or it passes and lacks a column to group by. */
  predicate Stops(row: Tuple, where: Tuple -> Option<bool>, columns: seq<nat>) {
    where(row) == None || (where(row) == Some(true) && !HasColumns(row, columns))
  }

  lemma {:induction false} SelectedCounts(rows: seq<Tuple>, where: Tuple -> Option<bool>, t: Tuple)
    ensures multiset(Selected(rows, Passes(where)))[t] == if where(t) == Some(true) then multiset(rows)[t] else 0
  {
    if rows != [] {
      SelectedCounts(rows[1..], where, t);
      assert rows == [rows[0]] + rows[1..];
    }
  }

  /** The grouping loop of `collect_rows`: `None` if there is an error. In the groups are exactly the rows on
      which WHERE is true, each as often. They are a partition where tuple `<` is an order. */
  method CollectGroups(rows: seq<Tuple>, where: Tuple -> Option<bool>, columns: seq<nat>,
                       ghost cs: seq<KeyColumn>) returns (r: Option<seq<Group>>)
    ensures r.Some? <==> forall i | 0 <= i < |rows| :: !Stops(rows[i], where, columns)
    ensures r.Some? ==>
              && (forall t | t in Selected(rows, Passes(where)) :: HasColumns(t, columns))
              && r.value == GroupsOf(Selected(rows, Passes(where)), columns)
              && (Groupable(Selected(rows, Passes(where)), columns, cs) ==>
                    Partition(r.value, Selected(rows, Passes(where)), columns, cs))
    ensures r.Some? ==> forall t ::
              multiset(AllRows(r.value))[t] == if where(t) == Some(true) then multiset(rows)[t] else 0
  {
    hide KeyOf, AddToGroup, HasColumns, OrderlyTuple, Settled, Partition;
    var groups: seq<Group> := [];
    for n := 0 to |rows|
      invariant forall i | 0 <= i < n :: !Stops(rows[i], where, columns)
      invariant forall t | t in Selected(rows[..n], Passes(where)) :: HasColumns(t, columns)
      invariant groups == GroupsOf(Selected(rows[..n], Passes(where)), columns)
    {
      var passes := where(rows[n]);
      if passes.None? {
        return None;
      }
      ghost var before := Selected(rows[..n], Passes(where));
      SelectedSnoc(rows[..n], rows[n], Passes(where));
      assert rows[..n + 1] == rows[..n] + [rows[n]];
      if passes.value {
        assert (before + [rows[n]])[..|before|] == before;
        var key := GroupKey(rows[n], columns);
        if key.None? {
          return None;
        }
        groups := AddToGroup(groups, key.value, rows[n]);
      } else {
        assert before + [] == before;
      }
    }
    assert rows[..|rows|] == rows;
    if Groupable(Selected(rows, Passes(where)), columns, cs) {
      GroupsArePartition(Selected(rows, Passes(where)), columns, cs);
    }
    GroupingConserves(Selected(rows, Passes(where)), columns);
    forall t ensures multiset(AllRows(groups))[t] == if where(t) == Some(true) then multiset(rows)[t] else 0 {
      SelectedCounts(rows, where, t);
    }
    return Some(groups);
  }

  // ---- COUNT ----

  function CountOf(rows: seq<Tuple>, expr: Tuple -> Value): nat {
    if rows == [] then 0 else CountOf(rows[..|rows| - 1], expr) + if expr(rows[|rows| - 1]).Null? then 0 else 1
  }

  lemma {:induction false} CountMeans(rows: seq<Tuple>, expr: Tuple -> Value)
    ensures CountOf(rows, expr) == |set i: nat | i < |rows| && !expr(rows[i]).Null?|
  {
    var all := set i: nat | i < |rows| && !expr(rows[i]).Null?;
    if rows == [] {
      assert all == {};
    } else {
      var n := |rows| - 1;
      CountMeans(rows[..n], expr);
      var before := set i: nat | i < n && !expr(rows[..n][i]).Null?;
      assert all == if expr(rows[n]).Null? then before else before + {n};
    }
  }

  /** `aggregate`, for COUNT: how many rows there are on which the expression is not NULL. */
  method Count(rows: seq<Tuple>, expr: Tuple -> Value) returns (count: nat)
    ensures count == CountOf(rows, expr) == |set i: nat | i < |rows| && !expr(rows[i]).Null?|
  {
    CountMeans(rows, expr);
    count := 0;
    for n := 0 to |rows|
      invariant count == CountOf(rows[..n], expr)
    {
      assert rows[..n + 1][..n] == rows[..n];
      if !expr(rows[n]).Null? {
        count := count + 1;
      }
    }
    assert rows[..|rows|] == rows;
  }

  function SumOfCounts(groups: seq<Group>, expr: Tuple -> Value): nat {
    if groups == [] then 0 else CountOf(groups[0].rows, expr) + SumOfCounts(groups[1..], expr)
  }

  lemma {:induction false} AddOneCount(groups: seq<Group>, key: Tuple, row: Tuple, expr: Tuple -> Value)
    ensures SumOfCounts(AddToGroup(groups, key, row), expr)
            == SumOfCounts(groups, expr) + if expr(row).Null? then 0 else 1
  {
    hide Less;
    if groups == [] || Less()(key, groups[0].key) {
      assert ([Group(key, [row])] + groups)[1..] == groups;
      assert CountOf([row][..0], expr) == 0;
    } else if !Less()(groups[0].key, key) {
      var r := [Group(groups[0].key, groups[0].rows + [row])] + groups[1..];
      assert r[1..] == groups[1..];
      assert (groups[0].rows + [row])[..|groups[0].rows|] == groups[0].rows;
    } else {
      AddOneCount(groups[1..], key, row, expr);
      var rest := AddToGroup(groups[1..], key, row);
      assert ([groups[0]] + rest)[1..] == rest;
    }
  }

  /** The counts of the groups add up to the count of all rows. */
  lemma {:induction false} CountsAddUp(rows: seq<Tuple>, columns: seq<nat>, expr: Tuple -> Value)
    requires forall i | 0 <= i < |rows| :: HasColumns(rows[i], columns)
    ensures SumOfCounts(GroupsOf(rows, columns), expr) == CountOf(rows, expr)
  {
    hide HasColumns, KeyOf, AddToGroup;
    if rows != [] {
      var init, row := rows[..|rows| - 1], rows[|rows| - 1];
      CountsAddUp(init, columns, expr);
      AddOneCount(GroupsOf(init, columns), KeyOf(row, columns), row, expr);
    }
  }

  // ---- ORDER BY and TOP ----

  /** Rows compared by the values of the ORDER BY expressions. */
  function RowOrder(keys: Tuple -> Tuple, descending: seq<bool>): (Tuple, Tuple) -> bool {
    (a, b) => OrderBy(descending)(keys(a), keys(b))
  }

  /** A row comes before another if its key is lower in the first column in which they differ, or higher
      where that one is descending. */
  lemma RowOrderMeans(keys: Tuple -> Tuple, d: seq<bool>, a: Tuple, b: Tuple)
    requires |keys(a)| == |keys(b)| == |d|
    ensures var x, y := keys(a), keys(b);
            RowOrder(keys, d)(a, b) <==>
            exists k: nat :: k < |d|
              && (if d[k] then !ValueEqual(y[k], x[k]) && ValueLess(y[k], x[k])
                  else !ValueEqual(x[k], y[k]) && ValueLess(x[k], y[k]))
              && (forall j | 0 <= j < k :: if d[j] then ValueEqual(y[j], x[j]) else ValueEqual(x[j], y[j]))
  {
    hide ValueEqual, ValueLess, OrderBy;
    FirstKeyDecides(keys(a), keys(b), d);
  }

  function Sortable(keys: Tuple -> Tuple, cs: seq<KeyColumn>): Tuple -> bool {
    t => OrderlyTuple(keys(t), cs)
  }

  /** Rows with comparable values in settled columns are ordered. */
  lemma RowOrderIsOrder(keys: Tuple -> Tuple, d: seq<bool>, cs: seq<KeyColumn>)
    requires |d| == |cs| && Settled(cs)
    ensures StrictWeakOrder(RowOrder(keys, d), Sortable(keys, cs))
  {
    hide OrderlyTuple, OrderBy, StrictWeakOrder;
    OrderByIsOrder(cs, d);
    var lt, p := RowOrder(keys, d), Sortable(keys, cs);
    assert StrictWeakOrder(lt, p) by {
      PulledBack(keys, OrderBy(d), Tuples(cs), lt, p);
    }
  }

  /** Comparing by a function of the rows inherits the order. */
  lemma PulledBack(keys: Tuple -> Tuple, lt: (Tuple, Tuple) -> bool, p: Tuple -> bool, lt': (Tuple, Tuple) -> bool,
                   p': Tuple -> bool)
    requires StrictWeakOrder(lt, p)
    requires forall a, b :: lt'(a, b) == lt(keys(a), keys(b))
    requires forall a :: p'(a) ==> p(keys(a))
    ensures StrictWeakOrder(lt', p')
  {
    forall a, b, c | p'(a) && p'(b) && p'(c)
      ensures !lt'(a, a)
      ensures lt'(a, b) && lt'(b, c) ==> lt'(a, c)
      ensures !lt'(a, b) && !lt'(b, c) ==> !lt'(a, c)
    {
      Order(lt, p, keys(a), keys(b), keys(c));
    }
  }

  /** ORDER BY gives the one arrangement of the rows in which no row sorts before an earlier one and
      rows that sort alike keep their order. */
  lemma OrderedUniquely(rows: seq<Tuple>, keys: Tuple -> Tuple, d: seq<bool>, cs: seq<KeyColumn>, r: seq<Tuple>)
    requires |d| == |cs| && Settled(cs) && All(rows, Sortable(keys, cs))
    ensures multiset(Sort(rows, RowOrder(keys, d))) == multiset(rows)
    ensures IsStableSort(r, rows, RowOrder(keys, d), Sortable(keys, cs)) <==> r == Sort(rows, RowOrder(keys, d))
  {
    hide OrderlyTuple, OrderBy, StrictWeakOrder, RowOrder, Sortable, Sort, Class, Sorted;
    var lt, p := RowOrder(keys, d), Sortable(keys, cs);
    RowOrderIsOrder(keys, d, cs);
    SortIsStable(rows, lt, p);
    SortMembers(rows, lt);
    if IsStableSort(r, rows, lt, p) {
      StableSortIsUnique(r, Sort(rows, lt), lt, p);
    }
  }

  function Top(rows: seq<Tuple>, n: nat): seq<Tuple> {
    rows[..if n < |rows| then n else |rows|]
  }

  /** No row that TOP keeps sorts after one that it drops. */
  lemma TopKeepsTheFirst(rows: seq<Tuple>, keys: Tuple -> Tuple, d: seq<bool>, cs: seq<KeyColumn>, n: nat, i: nat,
                         j: nat)
    requires |d| == |cs| && Settled(cs) && All(rows, Sortable(keys, cs))
    requires i < |Top(Sort(rows, RowOrder(keys, d)), n)| <= j < |rows|
    ensures var sorted := Sort(rows, RowOrder(keys, d));
            Top(sorted, n)[i] == sorted[i] && !RowOrder(keys, d)(sorted[j], sorted[i])
  {
    hide OrderlyTuple, OrderBy, StrictWeakOrder, RowOrder, Sortable, Sort, Class;
    RowOrderIsOrder(keys, d, cs);
    SortIsStable(rows, RowOrder(keys, d), Sortable(keys, cs));
  }

  /** ORDER BY, then TOP with a number of rows: the first rows of the one stable sorted arrangement of
      all rows, as many as asked for; none of them sorts after a row that is dropped.
      `std::stable_sort` is taken to be `Sort`; by `OrderedUniquely` it could be no other. */
  method OrderAndTop(rows: seq<Tuple>, keys: Tuple -> Tuple, descending: seq<bool>, top: Option<nat>,
                     ghost cs: seq<KeyColumn>) returns (r: seq<Tuple>, ghost sorted: seq<Tuple>)
    requires |descending| == |cs| && Settled(cs) && All(rows, Sortable(keys, cs))
    ensures IsStableSort(sorted, rows, RowOrder(keys, descending), Sortable(keys, cs))
    ensures forall s | IsStableSort(s, rows, RowOrder(keys, descending), Sortable(keys, cs)) :: s == sorted
    ensures multiset(sorted) == multiset(rows) && |sorted| == |rows|
    ensures |r| == if top.Some? && top.value < |rows| then top.value else |rows|
    ensures r <= sorted
    ensures forall i, j | 0 <= i < |r| <= j < |rows| :: !RowOrder(keys, descending)(sorted[j], r[i])
  {
    hide OrderlyTuple, OrderBy, StrictWeakOrder, RowOrder, Sortable, Sort, Class;
    r := Sort(rows, RowOrder(keys, descending));
    sorted := r;
    OrderedUniquely(rows, keys, descending, cs, sorted);
    forall s | IsStableSort(s, rows, RowOrder(keys, descending), Sortable(keys, cs)) ensures s == sorted {
      OrderedUniquely(rows, keys, descending, cs, s);
    }
    if top.Some? {
      r := Top(r, top.value);
      forall i, j | 0 <= i < |r| <= j < |rows| ensures !RowOrder(keys, descending)(sorted[j], r[i]) {
        TopKeepsTheFirst(rows, keys, descending, cs, top.value, i, j);
      }
    }
  }
}
