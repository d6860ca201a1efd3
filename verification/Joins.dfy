/** The multimap of join keys, and INNER JOIN in one pass over it
    (db/sql/ast/TableExpression.cpp:13-22, 93-144). */
module Joins {
  import opened Bytes
  import opened Values
  import opened Ordering
  import opened StableSorting

  /** An element of the multimap: a row of the left or the right table under its join key. */
  datatype Entry = Entry(key: Value, left: bool, row: Tuple)

  function ByKey(): (Entry, Entry) -> bool {
    (x: Entry, y: Entry) => ValueLess(x.key, y.key)
  }

  function Keyed(ty: ValueType): Entry -> bool {
    (e: Entry) => Orderly(e.key, ty)
  }

  predicate SameKey(x: Entry, y: Entry) {
    ValueEqual(x.key, y.key)
  }

  lemma KeyFacts(x: Entry, y: Entry, z: Entry, ty: ValueType)
    requires Keyed(ty)(x) && Keyed(ty)(y) && Keyed(ty)(z)
    ensures !ByKey()(x, x)
    ensures ByKey()(x, y) && ByKey()(y, z) ==> ByKey()(x, z)
    ensures !ByKey()(x, y) && !ByKey()(y, z) ==> !ByKey()(x, z)
    ensures (Equivalent(ByKey(), x, y) <==> SameKey(x, y)) && (SameKey(x, y) <==> SameKey(y, x))
    ensures SameKey(x, x) && (SameKey(x, y) && SameKey(y, z) ==> SameKey(x, z))
  {
    hide Orderly, ValueLess, ValueEqual;
    ValueOrder(x.key, y.key, z.key, ty);
    ValueOrder(y.key, x.key, z.key, ty);
    ValueOrder(z.key, y.key, x.key, ty);
    ValueOrder(x.key, z.key, y.key, ty);
    ValueOrder(x.key, x.key, x.key, ty);
  }

  lemma KeysAreOrdered(ty: ValueType)
    ensures StrictWeakOrder(ByKey(), Keyed(ty))
  {
    hide Orderly, ValueLess, ValueEqual, SameKey;
    forall x: Entry, y: Entry, z: Entry | Keyed(ty)(x) && Keyed(ty)(y) && Keyed(ty)(z)
      ensures !ByKey()(x, x)
      ensures ByKey()(x, y) && ByKey()(y, z) ==> ByKey()(x, z)
      ensures !ByKey()(x, y) && !ByKey()(y, z) ==> !ByKey()(x, z)
    {
      KeyFacts(x, y, z, ty);
    }
  }

  /** The entries of a table, under the values of column `index`. */
  function Entries(rows: seq<Tuple>, index: nat, left: bool): (r: seq<Entry>)
    requires forall i | 0 <= i < |rows| :: index < |rows[i]|
    ensures |r| == |rows|
  {
    seq(|rows|, i requires 0 <= i < |rows| => Entry(rows[i][index], left, rows[i]))
  }

  /** What the two tables contribute, the left one first. */
  predicate Inputs(ls: seq<Entry>, rs: seq<Entry>, ty: ValueType) {
    && (forall i | 0 <= i < |ls| :: ls[i].left && Orderly(ls[i].key, ty))
    && (forall i | 0 <= i < |rs| :: !rs[i].left && Orderly(rs[i].key, ty))
  }

  /** The multimap after everything was inserted. */
  function Contents(ls: seq<Entry>, rs: seq<Entry>): (c: seq<Entry>)
    ensures |c| == |ls| + |rs|
  {
    Sort(ls + rs, ByKey())
  }

  // ---- What is in the multimap ----

  /** Among entries of the same key those of the left table come first. */
  ghost predicate LeftFirst(c: seq<Entry>) {
    forall i, j | 0 <= i < j < |c| && SameKey(c[i], c[j]) && c[j].left :: c[i].left
  }

  function Count(s: seq<Entry>, left: bool, k: Entry): nat {
    if s == [] then 0 else (if s[0].left == left && SameKey(s[0], k) then 1 else 0) + Count(s[1..], left, k)
  }

  /** Everything from an entry of a greater key on has a greater key. */
  lemma NoSameKeyBehind(c: seq<Entry>, e: Entry, ty: ValueType, j: nat)
    requires All(c, Keyed(ty)) && Keyed(ty)(e) && Sorted(c, ByKey()) && j < |c| && ByKey()(e, c[0])
    ensures !SameKey(e, c[j]) && !SameKey(c[j], e)
  {
    hide Orderly, ValueEqual, ValueLess, SameKey;
    KeyFacts(e, c[0], c[j], ty);
    KeyFacts(e, c[j], c[0], ty);
    KeyFacts(c[j], e, c[0], ty);
  }

  lemma {:induction false} InsertLeftFirst(c: seq<Entry>, e: Entry, ty: ValueType)
    requires All(c, Keyed(ty)) && Keyed(ty)(e) && Sorted(c, ByKey()) && LeftFirst(c)
    requires e.left ==> forall i | 0 <= i < |c| :: c[i].left
    ensures LeftFirst(Insert(c, e, ByKey()))
  {
    hide Orderly, ValueEqual, ValueLess, SameKey;
    if c == [] {
    } else if ByKey()(e, c[0]) {
      forall j | 0 <= j < |c| ensures !SameKey(e, c[j]) {
        NoSameKeyBehind(c, e, ty, j);
      }
    } else {
      InsertLeftFirst(c[1..], e, ty);
      var rest := Insert(c[1..], e, ByKey());
      InsertMembers(c[1..], e, ByKey());
      forall j | 0 <= j < |rest| && SameKey(c[0], rest[j]) && rest[j].left ensures c[0].left {
        assert rest[j] in multiset(rest);
        assert rest[j] == e || rest[j] in c[1..];
      }
    }
  }

  lemma {:induction false} InsertCount(c: seq<Entry>, e: Entry, left: bool, k: Entry)
    ensures Count(Insert(c, e, ByKey()), left, k)
            == Count(c, left, k) + if e.left == left && SameKey(e, k) then 1 else 0
  {
    hide ValueEqual, ValueLess, SameKey;
    if c == [] || ByKey()(e, c[0]) {
      assert ([e] + c)[1..] == c;
    } else {
      InsertCount(c[1..], e, left, k);
      var rest := Insert(c[1..], e, ByKey());
      assert ([c[0]] + rest)[1..] == rest;
    }
  }

  lemma {:induction false} CountSnoc(s: seq<Entry>, e: Entry, left: bool, k: Entry)
    ensures Count(s + [e], left, k) == Count(s, left, k) + if e.left == left && SameKey(e, k) then 1 else 0
  {
    if s == [] {
      assert [e][1..] == [] && s + [e] == [e];
    } else {
      CountSnoc(s[1..], e, left, k);
      assert (s + [e])[1..] == s[1..] + [e];
    }
  }

  lemma {:induction false} SortCount(s: seq<Entry>, left: bool, k: Entry)
    ensures Count(Sort(s, ByKey()), left, k) == Count(s, left, k)
  {
    if s != [] {
      var init := s[..|s| - 1];
      SortCount(init, left, k);
      InsertCount(Sort(init, ByKey()), s[|s| - 1], left, k);
      CountSnoc(init, s[|s| - 1], left, k);
      assert init + [s[|s| - 1]] == s;
    }
  }

  /** The multimap is sorted by key, and left entries come first. */
  lemma {:induction false} SortLeftFirst(s: seq<Entry>, n: nat, ty: ValueType)
    requires n <= |s| && All(s, Keyed(ty)) && forall i | 0 <= i < |s| :: s[i].left <==> i < n
    ensures All(Sort(s, ByKey()), Keyed(ty)) && Sorted(Sort(s, ByKey()), ByKey()) && LeftFirst(Sort(s, ByKey()))
  {
    hide StrictWeakOrder, LeftFirst;
    KeysAreOrdered(ty);
    SortIsStable(s, ByKey(), Keyed(ty));
    if s == [] {
      assert LeftFirst([]) by {
        NoEntries();
      }
    } else {
      var init, e := s[..|s| - 1], s[|s| - 1];
      SortLeftFirst(init, if n < |init| then n else |init|, ty);
      SortMembers(init, ByKey());
      forall i | 0 <= i < |init| && e.left ensures Sort(init, ByKey())[i].left {
        assert Sort(init, ByKey())[i] in multiset(init);
      }
      InsertLeftFirst(Sort(init, ByKey()), e, ty);
    }
  }

  lemma NoEntries()
    ensures LeftFirst([])
  {
  }

  lemma ContentsOrder(ls: seq<Entry>, rs: seq<Entry>, ty: ValueType)
    requires Inputs(ls, rs, ty)
    ensures var c := Contents(ls, rs); All(c, Keyed(ty)) && Sorted(c, ByKey()) && LeftFirst(c)
  {
    SortLeftFirst(ls + rs, |ls|, ty);
  }

  // ---- INNER JOIN ----

  predicate Matches(x: Entry, y: Entry) {
    x.left && !y.left && SameKey(y, x)
  }

  /** The pairs the merge joins: of neighbours, a left entry and then a right one of the same key;
      both are used up. */
  function MergedPairs(c: seq<Entry>): seq<(Entry, Entry)> {
    if |c| < 2 then []
    else if Matches(c[0], c[1]) then [(c[0], c[1])] + MergedPairs(c[2..])
    else MergedPairs(c[1..])
  }

  function JoinedRows(ps: seq<(Entry, Entry)>): (r: seq<Tuple>)
    ensures |r| == |ps|
  {
    seq(|ps|, i requires 0 <= i < |ps| => ps[i].0.row + ps[i].1.row)
  }

  /** The loop over the multimap. */
  method InnerJoin(c: seq<Entry>) returns (out: seq<Tuple>)
    requires c != []
    ensures out == JoinedRows(MergedPairs(c))
  {
    hide ValueEqual, SameKey;
    ghost var done: seq<(Entry, Entry)> := [];
    out := [];
    var it, last := 1, 0;
    while it < |c|
      invariant last < |c| && it == last + 1
      invariant out == JoinedRows(done) && done + MergedPairs(c[last..]) == MergedPairs(c)
    {
      ghost var rest := c[last..];
      if Matches(c[last], c[it]) {
        out := out + [c[last].row + c[it].row];
        done := done + [(c[last], c[it])];
        it := it + 1;
        assert rest[2..] == c[it..];
        if it == |c| {
          break;
        }
      } else {
        assert rest[1..] == c[it..];
      }
      last := it;
      it := it + 1;
    }
  }

  /** The joined rows in ascending order of their keys, one for each. */
  lemma {:induction false} PairsAscend(c: seq<Entry>, ty: ValueType, i: nat, j: nat)
    requires All(c, Keyed(ty)) && Sorted(c, ByKey()) && LeftFirst(c) && i < j < |MergedPairs(c)|
    ensures ByKey()(MergedPairs(c)[i].0, MergedPairs(c)[j].0)
  {
    hide ByKey, SameKey, Orderly;
    if Matches(c[0], c[1]) {
      if i > 0 {
        PairsAscend(c[2..], ty, i - 1, j - 1);
      } else {
        var k := PairFrom(c[2..], j - 1);
        assert c[2..][k] == c[k + 2];
        KeyFacts(c[0], c[k + 2], c[1], ty);
        KeyFacts(c[1], c[0], c[k + 2], ty);
      }
    } else {
      PairsAscend(c[1..], ty, i, j);
    }
  }

  /** Where a pair comes from. */
  lemma {:induction false} PairFrom(c: seq<Entry>, i: nat) returns (k: nat)
    requires i < |MergedPairs(c)|
    ensures k + 1 < |c| && MergedPairs(c)[i] == (c[k], c[k + 1]) && Matches(c[k], c[k + 1])
    decreases |c|
  {
    hide SameKey;
    if Matches(c[0], c[1]) {
      if i == 0 {
        return 0;
      }
      k := PairFrom(c[2..], i - 1);
      k := k + 2;
    } else {
      k := PairFrom(c[1..], i);
      k := k + 1;
    }
  }

  // ---- The nested-loop join ----

  /** The row of `x` joined with every matching right row. */
  function LoopRow(x: Entry, rs: seq<Entry>): seq<Tuple> {
    if rs == [] then [] else (if Matches(x, rs[0]) then [x.row + rs[0].row] else []) + LoopRow(x, rs[1..])
  }

  function NestedLoop(ls: seq<Entry>, rs: seq<Entry>): seq<Tuple> {
    if ls == [] then [] else LoopRow(ls[0], rs) + NestedLoop(ls[1..], rs)
  }

  /** All matches between an entry of `c` and a later one. */
  ghost function Cross(c: seq<Entry>): multiset<Tuple> {
    if c == [] then multiset{} else multiset(LoopRow(c[0], c[1..])) + Cross(c[1..])
  }

  /** All matches of entries of `c` with `e`. */
  ghost function MatchesInto(c: seq<Entry>, e: Entry): multiset<Tuple> {
    if c == [] then multiset{} else One(c[0], e) + MatchesInto(c[1..], e)
  }

  ghost function One(x: Entry, e: Entry): multiset<Tuple> {
    if Matches(x, e) then multiset{x.row + e.row} else multiset{}
  }

  lemma {:induction false} LoopRowInsert(x: Entry, c: seq<Entry>, e: Entry)
    ensures multiset(LoopRow(x, Insert(c, e, ByKey()))) == multiset(LoopRow(x, c)) + One(x, e)
  {
    hide ValueLess, SameKey;
    if c == [] || ByKey()(e, c[0]) {
      assert ([e] + c)[1..] == c;
    } else {
      LoopRowInsert(x, c[1..], e);
      var rest := Insert(c[1..], e, ByKey());
      assert ([c[0]] + rest)[1..] == rest;
    }
  }

  lemma {:induction false} LoopRowSnoc(x: Entry, rs: seq<Entry>, e: Entry)
    ensures LoopRow(x, rs + [e]) == LoopRow(x, rs) + if Matches(x, e) then [x.row + e.row] else []
  {
    hide Matches;
    if rs == [] {
      assert rs + [e] == [e];
      assert LoopRow(x, [e][1..]) == [];
    } else {
      LoopRowSnoc(x, rs[1..], e);
      assert (rs + [e])[1..] == rs[1..] + [e];
    }
  }

  lemma {:induction false} MatchesIntoInsert(c: seq<Entry>, x: Entry, e: Entry)
    ensures MatchesInto(Insert(c, x, ByKey()), e) == MatchesInto(c, e) + One(x, e)
  {
    hide ValueLess, One;
    if c == [] || ByKey()(x, c[0]) {
      assert ([x] + c)[1..] == c;
    } else {
      MatchesIntoInsert(c[1..], x, e);
      var rest := Insert(c[1..], x, ByKey());
      assert ([c[0]] + rest)[1..] == rest;
    }
  }

  lemma {:induction false} MatchesIntoSnoc(s: seq<Entry>, x: Entry, e: Entry)
    ensures MatchesInto(s + [x], e) == MatchesInto(s, e) + One(x, e)
  {
    hide One;
    if s == [] {
      assert [x][1..] == [] && s + [x] == [x];
    } else {
      MatchesIntoSnoc(s[1..], x, e);
      assert (s + [x])[1..] == s[1..] + [x];
    }
  }

  lemma {:induction false} MatchesIntoSort(s: seq<Entry>, e: Entry)
    ensures MatchesInto(Sort(s, ByKey()), e) == MatchesInto(s, e)
  {
    hide One, ByKey;
    if s != [] {
      var init, x := s[..|s| - 1], s[|s| - 1];
      MatchesIntoSort(init, e);
      MatchesIntoInsert(Sort(init, ByKey()), x, e);
      MatchesIntoSnoc(init, x, e);
      assert init + [x] == s;
    }
  }

  /** A right entry is inserted behind all left entries it matches. */
  lemma {:induction false} CrossInsert(c: seq<Entry>, e: Entry, ty: ValueType)
    requires All(c, Keyed(ty)) && Keyed(ty)(e) && Sorted(c, ByKey()) && !e.left
    ensures Cross(Insert(c, e, ByKey())) == Cross(c) + MatchesInto(c, e)
  {
    hide Orderly, SameKey, ValueLess;
    if c == [] {
      assert [e][1..] == [];
    } else if ByKey()(e, c[0]) {
      assert ([e] + c)[1..] == c;
      NoLeftMatch(e, c);
      forall j | 0 <= j < |c| ensures !Matches(c[j], e) {
        NoSameKeyBehind(c, e, ty, j);
      }
      NoMatchesInto(c, e);
    } else {
      CrossInsert(c[1..], e, ty);
      LoopRowInsert(c[0], c[1..], e);
      var rest := Insert(c[1..], e, ByKey());
      assert ([c[0]] + rest)[1..] == rest;
    }
  }

  lemma {:induction false} NoLeftMatch(x: Entry, c: seq<Entry>)
    requires !x.left
    ensures LoopRow(x, c) == []
  {
    if c != [] {
      NoLeftMatch(x, c[1..]);
    }
  }

  lemma {:induction false} NoMatchesInto(c: seq<Entry>, e: Entry)
    requires forall j | 0 <= j < |c| :: !Matches(c[j], e)
    ensures MatchesInto(c, e) == multiset{}
  {
    hide Matches;
    if c != [] {
      NoMatchesInto(c[1..], e);
    }
  }

  lemma {:induction false} NoCross(c: seq<Entry>)
    requires forall j | 0 <= j < |c| :: c[j].left
    ensures Cross(c) == multiset{}
  {
    if c != [] {
      NoCross(c[1..]);
      NoRightMatch(c[0], c[1..]);
    }
  }

  lemma {:induction false} NoRightMatch(x: Entry, c: seq<Entry>)
    requires forall j | 0 <= j < |c| :: c[j].left
    ensures LoopRow(x, c) == []
  {
    if c != [] {
      NoRightMatch(x, c[1..]);
    }
  }

  lemma {:induction false} NestedSnoc(ls: seq<Entry>, rs: seq<Entry>, e: Entry)
    ensures multiset(NestedLoop(ls, rs + [e])) == multiset(NestedLoop(ls, rs)) + MatchesInto(ls, e)
  {
    hide LoopRow, One;
    if ls != [] {
      NestedSnoc(ls[1..], rs, e);
      LoopRowSnoc(ls[0], rs, e);
      OneRow(ls[0], e);
    }
  }

  lemma OneRow(x: Entry, e: Entry)
    ensures multiset(if Matches(x, e) then [x.row + e.row] else []) == One(x, e)
  {
  }

  lemma {:induction false} NestedNothing(ls: seq<Entry>)
    ensures NestedLoop(ls, []) == []
  {
    if ls != [] {
      NestedNothing(ls[1..]);
    }
  }

  /** The matches between entries of the multimap are the rows of the nested-loop join. */
  lemma {:induction false} CrossIsNested(ls: seq<Entry>, rs: seq<Entry>, ty: ValueType)
    requires Inputs(ls, rs, ty)
    ensures Cross(Contents(ls, rs)) == multiset(NestedLoop(ls, rs))
    decreases |rs|
  {
    hide Orderly, Cross, NestedLoop, MatchesInto, ByKey, LeftFirst;
    if rs == [] {
      assert ls + rs == ls;
      SortMembers(ls, ByKey());
      forall j | 0 <= j < |ls| ensures Sort(ls, ByKey())[j].left {
        assert Sort(ls, ByKey())[j] in multiset(ls);
      }
      NoCross(Sort(ls, ByKey()));
      NestedNothing(ls);
    } else {
      var init, e := rs[..|rs| - 1], rs[|rs| - 1];
      CrossIsNested(ls, init, ty);
      ContentsOrder(ls, init, ty);
      assert (ls + rs)[..|ls + rs| - 1] == ls + init;
      CrossInsert(Contents(ls, init), e, ty);
      MatchesIntoSort(ls + init, e);
      RightsMatchNothing(ls, init, e);
      NestedSnoc(ls, init, e);
      assert init + [e] == rs;
    }
  }

  lemma {:induction false} RightsMatchNothing(ls: seq<Entry>, rs: seq<Entry>, e: Entry)
    requires forall i | 0 <= i < |rs| :: !rs[i].left
    ensures MatchesInto(ls + rs, e) == MatchesInto(ls, e)
  {
    hide SameKey;
    if ls == [] {
      assert ls + rs == rs;
      NoMatchesInto(rs, e);
    } else {
      RightsMatchNothing(ls[1..], rs, e);
      assert (ls + rs)[1..] == ls[1..] + rs;
    }
  }

  // ---- When the merge is the join ----

  /** All matching entries are neighbours. */
  ghost predicate Tidy(c: seq<Entry>) {
    forall i, j | 0 <= i < j < |c| && Matches(c[i], c[j]) :: j == i + 1
  }

  /** Then the merge finds every match. */
  lemma {:induction false} TidyMerge(c: seq<Entry>)
    requires Tidy(c)
    ensures multiset(JoinedRows(MergedPairs(c))) == Cross(c)
    decreases |c|
  {
    hide SameKey;
    if |c| < 2 {
      assert |c| == 1 ==> c[1..] == [] && LoopRow(c[0], c[1..]) == [];
    } else {
      OnlyNeighbour(c);
      if Matches(c[0], c[1]) {
        assert c[1..][1..] == c[2..];
        NoLeftMatch(c[1], c[2..]);
        TidyMerge(c[2..]);
        JoinedCons((c[0], c[1]), MergedPairs(c[2..]));
      } else {
        TidyMerge(c[1..]);
      }
    }
  }

  lemma JoinedCons(p: (Entry, Entry), ps: seq<(Entry, Entry)>)
    ensures JoinedRows([p] + ps) == [p.0.row + p.1.row] + JoinedRows(ps)
  {
  }

  /** The first entry of a tidy multimap matches its neighbour at most. */
  lemma OnlyNeighbour(c: seq<Entry>)
    requires Tidy(c) && |c| >= 2
    ensures LoopRow(c[0], c[1..]) == if Matches(c[0], c[1]) then [c[0].row + c[1].row] else []
  {
    hide SameKey;
    forall j | 0 <= j < |c[2..]| ensures !Matches(c[0], c[2..][j]) {
      assert c[2..][j] == c[j + 2];
    }
    NoMatchBehind(c[0], c[2..]);
    assert c[1..][1..] == c[2..];
  }

  lemma {:induction false} NoMatchBehind(x: Entry, c: seq<Entry>)
    requires forall j | 0 <= j < |c| :: !Matches(x, c[j])
    ensures LoopRow(x, c) == []
  {
    hide Matches;
    if c != [] {
      NoMatchBehind(x, c[1..]);
    }
  }

  /** Otherwise it misses some. */
  lemma {:induction false} UntidyMerge(c: seq<Entry>)
    ensures |MergedPairs(c)| <= |Cross(c)|
    ensures !Tidy(c) ==> |MergedPairs(c)| < |Cross(c)|
    decreases |c|
  {
    hide SameKey;
    if |c| >= 2 {
      var row := LoopRow(c[0], c[1..]);
      UntidyMerge(c[1..]);
      LoopRowLong(c[0], c[1..]);
      if Matches(c[0], c[1]) {
        assert c[1..][1..] == c[2..];
        SkipRight(c[1..]);
      }
      if !Tidy(c) {
        var i, j :| 0 <= i < j < |c| && Matches(c[i], c[j]) && j != i + 1;
        if i > 0 {
          assert c[1..][i - 1] == c[i] && c[1..][j - 1] == c[j];
          assert !Tidy(c[1..]);
        } else {
          assert c[1..][j - 1] == c[j];
          LoopRowHas(c[0], c[1..], j - 1);
        }
      }
    }
  }

  /** A right entry at the front is joined with nothing. */
  lemma SkipRight(c: seq<Entry>)
    requires c != [] && !c[0].left
    ensures MergedPairs(c) == MergedPairs(c[1..])
  {
  }

  lemma LoopRowLong(x: Entry, c: seq<Entry>)
    requires c != []
    ensures Matches(x, c[0]) ==> |LoopRow(x, c)| >= 1
  {
  }

  /** A match behind the neighbour is counted besides the neighbour. */
  lemma {:induction false} LoopRowHas(x: Entry, c: seq<Entry>, j: nat)
    requires j < |c| && Matches(x, c[j])
    ensures |LoopRow(x, c)| >= if j > 0 && Matches(x, c[0]) then 2 else 1
  {
    hide Matches;
    if j > 0 {
      LoopRowHas(x, c[1..], j - 1);
    }
  }

  // ---- Tidiness, from the tables ----

  /** A key that both tables have is the key of one row only in each of them. */
  ghost predicate CommonKeysUnique(ls: seq<Entry>, rs: seq<Entry>, ty: ValueType) {
    forall k: Entry | Keyed(ty)(k) :: KeyUnique(ls, rs, k)
  }

  ghost predicate KeyUnique(ls: seq<Entry>, rs: seq<Entry>, k: Entry) {
    Count(ls, true, k) > 0 && Count(rs, false, k) > 0 ==> Count(ls, true, k) == 1 && Count(rs, false, k) == 1
  }

  lemma {:induction false} CountParts(ls: seq<Entry>, rs: seq<Entry>, left: bool, k: Entry)
    requires (forall i | 0 <= i < |ls| :: ls[i].left) && forall i | 0 <= i < |rs| :: !rs[i].left
    ensures Count(ls + rs, left, k) == if left then Count(ls, true, k) else Count(rs, false, k)
  {
    hide SameKey;
    if ls == [] {
      assert ls + rs == rs;
      if left {
        CountNone(rs, left, k);
      }
    } else {
      CountParts(ls[1..], rs, left, k);
      assert (ls + rs)[1..] == ls[1..] + rs;
    }
  }

  lemma {:induction false} CountNone(s: seq<Entry>, left: bool, k: Entry)
    requires forall i | 0 <= i < |s| :: s[i].left != left
    ensures Count(s, left, k) == 0
  {
    hide SameKey;
    if s != [] {
      CountNone(s[1..], left, k);
    }
  }

  lemma ContentsCount(ls: seq<Entry>, rs: seq<Entry>, k: Entry, ty: ValueType)
    requires Inputs(ls, rs, ty)
    ensures Count(Contents(ls, rs), true, k) == Count(ls, true, k)
    ensures Count(Contents(ls, rs), false, k) == Count(rs, false, k)
  {
    hide Orderly, ByKey, SameKey;
    SortCount(ls + rs, true, k);
    SortCount(ls + rs, false, k);
    CountParts(ls, rs, true, k);
    CountParts(ls, rs, false, k);
  }

  /** Entries of one side and key that are counted stand somewhere; several stand at several places. */
  lemma {:induction false} CountedAt(s: seq<Entry>, left: bool, k: Entry) returns (i: nat, j: nat)
    requires Count(s, left, k) > 0
    ensures i <= j < |s| && s[i].left == left == s[j].left && SameKey(s[i], k) && SameKey(s[j], k)
    ensures Count(s, left, k) > 1 <==> i < j
  {
    hide SameKey;
    if s[0].left == left && SameKey(s[0], k) {
      i, j := 0, 0;
      if Count(s[1..], left, k) > 0 {
        var a, b := CountedAt(s[1..], left, k);
        j := a + 1;
      }
    } else {
      i, j := CountedAt(s[1..], left, k);
      i, j := i + 1, j + 1;
    }
  }

  lemma {:induction false} CountAtLeast(s: seq<Entry>, left: bool, k: Entry, i: nat, j: nat)
    requires i <= j < |s| && s[i].left == left == s[j].left && SameKey(s[i], k) && SameKey(s[j], k)
    ensures Count(s, left, k) >= if i < j then 2 else 1
  {
    hide SameKey;
    if i > 0 {
      CountAtLeast(s[1..], left, k, i - 1, j - 1);
    } else if j > 0 {
      CountAtLeast(s[1..], left, k, j - 1, j - 1);
    }
  }

  /** The multimap is tidy exactly if the keys common to both tables are unique in each. */
  lemma TidyIsUnique(ls: seq<Entry>, rs: seq<Entry>, ty: ValueType)
    requires Inputs(ls, rs, ty)
    ensures Tidy(Contents(ls, rs)) <==> CommonKeysUnique(ls, rs, ty)
  {
    hide Orderly, ByKey, SameKey, Count, LeftFirst, KeyUnique;
    var c := Contents(ls, rs);
    ContentsOrder(ls, rs, ty);
    if CommonKeysUnique(ls, rs, ty) {
      forall i, j | 0 <= i < j < |c| && Matches(c[i], c[j]) ensures j == i + 1 {
        ContentsCount(ls, rs, c[i], ty);
        assert KeyUnique(ls, rs, c[i]);
        UniqueIsNeighbour(c, ls, rs, i, j, ty);
      }
    }
    forall k: Entry | Keyed(ty)(k) ensures Tidy(c) ==> KeyUnique(ls, rs, k) {
      ContentsCount(ls, rs, k, ty);
      TidyKey(c, ls, rs, k, ty);
    }
  }

  lemma UniqueIsNeighbour(c: seq<Entry>, ls: seq<Entry>, rs: seq<Entry>, i: nat, j: nat, ty: ValueType)
    requires All(c, Keyed(ty)) && Sorted(c, ByKey()) && i < j < |c| && Matches(c[i], c[j])
    requires Count(c, true, c[i]) == Count(ls, true, c[i]) && Count(c, false, c[i]) == Count(rs, false, c[i])
    requires KeyUnique(ls, rs, c[i])
    ensures j == i + 1
  {
    hide Orderly, ByKey, SameKey, Count;
    var k := c[i];
    KeyFacts(k, k, c[j], ty);
    CountAtLeast(c, true, k, i, i);
    CountAtLeast(c, false, k, j, j);
    if i + 1 < j {
      Between(c, i, i + 1, j, ty);
      if c[i + 1].left {
        CountAtLeast(c, true, k, i, i + 1);
      } else {
        CountAtLeast(c, false, k, i + 1, j);
      }
      assert false;
    }
  }

  /** Between two entries of one key there are only entries of that key. */
  lemma Between(c: seq<Entry>, i: nat, m: nat, j: nat, ty: ValueType)
    requires All(c, Keyed(ty)) && Sorted(c, ByKey()) && i <= m <= j < |c| && SameKey(c[j], c[i])
    ensures SameKey(c[m], c[i])
  {
    hide Orderly, SameKey;
    KeyFacts(c[i], c[j], c[m], ty);
    KeyFacts(c[i], c[m], c[j], ty);
    KeyFacts(c[m], c[j], c[i], ty);
    KeyFacts(c[j], c[m], c[i], ty);
    KeyFacts(c[m], c[i], c[j], ty);
    KeyFacts(c[j], c[i], c[m], ty);
  }

  lemma TidyKey(c: seq<Entry>, ls: seq<Entry>, rs: seq<Entry>, k: Entry, ty: ValueType)
    requires All(c, Keyed(ty)) && LeftFirst(c) && Keyed(ty)(k)
    requires Count(c, true, k) == Count(ls, true, k) && Count(c, false, k) == Count(rs, false, k)
    ensures Tidy(c) ==> KeyUnique(ls, rs, k)
  {
    hide Orderly, SameKey, Count;
    if Tidy(c) && Count(c, true, k) > 0 && Count(c, false, k) > 0 {
      var i1, i2 := CountedAt(c, true, k);
      var j1, j2 := CountedAt(c, false, k);
      LeftBeforeRight(c, i1, j1, k, ty);
      LeftBeforeRight(c, i1, j2, k, ty);
      LeftBeforeRight(c, i2, j1, k, ty);
    }
  }

  lemma LeftBeforeRight(c: seq<Entry>, i: nat, j: nat, k: Entry, ty: ValueType)
    requires All(c, Keyed(ty)) && LeftFirst(c) && Keyed(ty)(k) && i < |c| && j < |c|
    requires c[i].left && !c[j].left && SameKey(c[i], k) && SameKey(c[j], k)
    ensures i < j && Matches(c[i], c[j])
  {
  }

  /** INNER JOIN emits the rows of the nested-loop join, each as often, exactly if every key that both
      tables have is unique in each of them. Otherwise rows are missing. */
  lemma InnerJoinExact(ls: seq<Entry>, rs: seq<Entry>, ty: ValueType)
    requires Inputs(ls, rs, ty)
    ensures var out := JoinedRows(MergedPairs(Contents(ls, rs)));
            && (multiset(out) == multiset(NestedLoop(ls, rs)) <==> CommonKeysUnique(ls, rs, ty))
            && (!CommonKeysUnique(ls, rs, ty) ==> |out| < |NestedLoop(ls, rs)|)
  {
    hide MergedPairs, NestedLoop, Tidy, CommonKeysUnique, Cross, Inputs, Contents, JoinedRows;
    var c := Contents(ls, rs);
    CrossIsNested(ls, rs, ty);
    TidyIsUnique(ls, rs, ty);
    UntidyMerge(c);
    if Tidy(c) {
      TidyMerge(c);
    }
    assert |multiset(NestedLoop(ls, rs))| == |NestedLoop(ls, rs)|;
    assert |JoinedRows(MergedPairs(c))| == |MergedPairs(c)|;
    assert |multiset(JoinedRows(MergedPairs(c)))| == |JoinedRows(MergedPairs(c))|;
  }

  /** A failing input: a right row that two left rows match is joined with the second of them only. */
  lemma InnerJoinFails()
    ensures var a := Entry(Int(1), true, [Int(1), Int(10)]);
            var b := Entry(Int(1), true, [Int(1), Int(20)]);
            var r := Entry(Int(1), false, [Int(1), Int(30)]);
            && JoinedRows(MergedPairs(Contents([a, b], [r]))) == [b.row + r.row]
            && NestedLoop([a, b], [r]) == [a.row + r.row, b.row + r.row]
  {
    var a := Entry(Int(1), true, [Int(1), Int(10)]);
    var b := Entry(Int(1), true, [Int(1), Int(20)]);
    var r := Entry(Int(1), false, [Int(1), Int(30)]);
    SortThree(a, b, r);
    assert [a, b] + [r] == [a, b, r];
    assert [a, b, r][1..] == [b, r] && [b, r][2..] == [];
    assert MergedPairs([b, r]) == [(b, r)];
    assert [r][1..] == [] && LoopRow(a, [r]) == [a.row + r.row] && LoopRow(b, [r]) == [b.row + r.row];
    assert [a, b][1..] == [b] && [b][1..] == [];
    assert NestedLoop([b], [r]) == [b.row + r.row];
  }

  lemma SortOne(a: Entry)
    ensures Sort([a], ByKey()) == [a]
  {
    hide ByKey;
    assert [a][..0] == [];
  }

  /** Sorting leaves three entries of one key as they are. */
  lemma SortThree(a: Entry, b: Entry, c: Entry)
    requires !ByKey()(b, a) && !ByKey()(c, a) && !ByKey()(c, b)
    ensures Sort([a, b, c], ByKey()) == [a, b, c]
  {
    hide ByKey;
    SortOne(a);
    assert [a, b][..1] == [a] && [a, b, c][..2] == [a, b];
    assert Insert([], b, ByKey()) == [b] && Insert([], c, ByKey()) == [c];
    assert [a][1..] == [] && Insert([a], b, ByKey()) == [a, b];
    assert [b][1..] == [] && Insert([b], c, ByKey()) == [b, c];
    assert [a, b][1..] == [b] && Insert([a, b], c, ByKey()) == [a, b, c];
  }
}
