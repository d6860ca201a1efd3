/** A join of two tables as a whole, in terms of their rows (db/sql/ast/TableExpression.cpp:93-169). */
module JoinEvaluation {
  import opened Options
  import opened Values
  import opened Ordering
  import opened StableSorting
  import opened Joins
  import opened LeftJoins

  datatype JoinType = Inner | Left

  /** Rows that have the column to join by. */
  predicate HaveColumn(rows: seq<Tuple>, index: nat) {
    forall i | 0 <= i < |rows| :: index < |rows[i]|
  }

  /** Inserts the rows of a table into the multimap; fails if a row is too short. */
  method AddRows(contents: seq<Entry>, rows: seq<Tuple>, index: nat, left: bool, ghost before: seq<Entry>)
    returns (r: Option<seq<Entry>>)
    requires contents == Sort(before, ByKey())
    ensures r.Some? <==> HaveColumn(rows, index)
    ensures r.Some? ==> r.value == Sort(before + Entries(rows, index, left), ByKey())
  {
    hide ByKey, Insert, ValueEqual;
    var c := contents;
    assert before + Entries([], index, left) == before;
    for n := 0 to |rows|
      invariant HaveColumn(rows[..n], index) && c == Sort(before + Entries(rows[..n], index, left), ByKey())
    {
      assert rows[..n + 1][n] == rows[n];
      if index >= |rows[n]| {
        return None;
      }
      var e := Entry(rows[n][index], left, rows[n]);
      ghost var s := before + Entries(rows[..n + 1], index, left);
      assert s[..|s| - 1] == before + Entries(rows[..n], index, left) && s[|s| - 1] == e;
      c := Insert(c, e, ByKey());
    }
    assert rows[..|rows|] == rows;
    return Some(c);
  }

  // ---- From entries back to rows ----

  /** The columns to join by have values of one type that can be ordered. */
  predicate OrderlyColumns(lhs: seq<Tuple>, li: nat, rhs: seq<Tuple>, ri: nat, ty: ValueType)
    requires HaveColumn(lhs, li) && HaveColumn(rhs, ri)
  {
    && (forall i | 0 <= i < |lhs| :: Orderly(lhs[i][li], ty))
    && (forall j | 0 <= j < |rhs| :: Orderly(rhs[j][ri], ty))
  }

  lemma EntryAt(rows: seq<Tuple>, index: nat, left: bool, e: Entry) returns (i: nat)
    requires HaveColumn(rows, index) && e in Entries(rows, index, left)
    ensures i < |rows| && e == Entry(rows[i][index], left, rows[i]) && Entries(rows, index, left)[i] == e
  {
    i :| 0 <= i < |rows| && Entries(rows, index, left)[i] == e;
  }

  /** The rows a pair of merged entries comes from. */
  lemma PairAt(lhs: seq<Tuple>, li: nat, rhs: seq<Tuple>, ri: nat, k: nat) returns (i: nat, j: nat)
    requires HaveColumn(lhs, li) && HaveColumn(rhs, ri)
    requires k < |MergedPairs(Contents(Entries(lhs, li, true), Entries(rhs, ri, false)))|
    ensures i < |lhs| && j < |rhs| && ValueEqual(rhs[j][ri], lhs[i][li])
    ensures MergedPairs(Contents(Entries(lhs, li, true), Entries(rhs, ri, false)))[k] ==
            (Entry(lhs[i][li], true, lhs[i]), Entry(rhs[j][ri], false, rhs[j]))
  {
    hide Contents, ValueEqual, MergedPairs;
    var ls, rs := Entries(lhs, li, true), Entries(rhs, ri, false);
    var m := PairFrom(Contents(ls, rs), k);
    var x, y := Contents(ls, rs)[m], Contents(ls, rs)[m + 1];
    ContentsMembers(ls, rs, x);
    ContentsMembers(ls, rs, y);
    i := EntryAt(lhs, li, true, x);
    j := EntryAt(rhs, ri, false, y);
  }

  /** The positions of the rows that INNER JOIN joins. */
  lemma {:induction false} InnerPairs(lhs: seq<Tuple>, li: nat, rhs: seq<Tuple>, ri: nat, n: nat)
    returns (pairs: seq<(nat, nat)>)
    requires HaveColumn(lhs, li) && HaveColumn(rhs, ri)
    requires n <= |MergedPairs(Contents(Entries(lhs, li, true), Entries(rhs, ri, false)))|
    ensures |pairs| == n
    ensures forall k | 0 <= k < n ::
              var (i, j) := pairs[k];
              && i < |lhs| && j < |rhs| && ValueEqual(rhs[j][ri], lhs[i][li])
              && MergedPairs(Contents(Entries(lhs, li, true), Entries(rhs, ri, false)))[k] ==
                 (Entry(lhs[i][li], true, lhs[i]), Entry(rhs[j][ri], false, rhs[j]))
  {
    hide Contents, ValueEqual, MergedPairs;
    if n == 0 {
      pairs := [];
    } else {
      pairs := InnerPairs(lhs, li, rhs, ri, n - 1);
      var i, j := PairAt(lhs, li, rhs, ri, n - 1);
      pairs := pairs + [(i, j)];
    }
  }

  lemma {:induction false} TidyFinds(c: seq<Entry>, m: nat)
    requires Tidy(c) && m + 1 < |c| && Matches(c[m], c[m + 1])
    ensures (c[m], c[m + 1]) in MergedPairs(c)
    decreases |c|
  {
    hide SameKey;
    if m > 0 {
      if Matches(c[0], c[1]) {
        if m > 1 {
          TidyFinds(c[2..], m - 2);
          assert c[2..][m - 2] == c[m];
        }
      } else {
        TidyFinds(c[1..], m - 1);
      }
    }
  }

  ghost predicate InnerUnique(lhs: seq<Tuple>, li: nat, rhs: seq<Tuple>, ri: nat)
    requires HaveColumn(lhs, li) && HaveColumn(rhs, ri)
  {
    forall i, j, k, l | 0 <= i < |lhs| && 0 <= j < |rhs| && 0 <= k < |lhs| && 0 <= l < |rhs|
                        && ValueEqual(rhs[j][ri], lhs[i][li]) && ValueEqual(rhs[l][ri], lhs[k][li])
                        && (i == k || j == l) :: i == k && j == l
  }

  lemma ColumnsGiveInputs(lhs: seq<Tuple>, li: nat, rhs: seq<Tuple>, ri: nat, ty: ValueType)
    requires HaveColumn(lhs, li) && HaveColumn(rhs, ri) && OrderlyColumns(lhs, li, rhs, ri, ty)
    ensures Inputs(Entries(lhs, li, true), Entries(rhs, ri, false), ty)
  {
    hide Orderly;
  }

  /** If no row takes part in two matches, keys that both tables have are unique in each. */
  lemma UniqueKeys(lhs: seq<Tuple>, li: nat, rhs: seq<Tuple>, ri: nat, ty: ValueType, k: Entry)
    requires HaveColumn(lhs, li) && HaveColumn(rhs, ri) && OrderlyColumns(lhs, li, rhs, ri, ty)
    requires InnerUnique(lhs, li, rhs, ri) && Keyed(ty)(k)
    ensures KeyUnique(Entries(lhs, li, true), Entries(rhs, ri, false), k)
  {
    hide Orderly, ValueEqual, Count;
    var ls, rs := Entries(lhs, li, true), Entries(rhs, ri, false);
    ColumnsGiveInputs(lhs, li, rhs, ri, ty);
    if Count(ls, true, k) > 0 && Count(rs, false, k) > 0 {
      var i1, i2 := CountedAt(ls, true, k);
      var j1, j2 := CountedAt(rs, false, k);
      KeyFacts(rs[j1], k, ls[i1], ty);
      KeyFacts(rs[j1], k, ls[i2], ty);
      KeyFacts(rs[j2], k, ls[i1], ty);
      KeyFacts(k, ls[i1], k, ty);
      KeyFacts(k, ls[i2], k, ty);
      assert ValueEqual(rhs[j1][ri], lhs[i1][li]) && ValueEqual(rhs[j1][ri], lhs[i2][li])
             && ValueEqual(rhs[j2][ri], lhs[i1][li]);
    }
  }

  /** Then every match is joined. */
  lemma MatchIsJoined(lhs: seq<Tuple>, li: nat, rhs: seq<Tuple>, ri: nat, ty: ValueType, i: nat, j: nat)
    requires HaveColumn(lhs, li) && HaveColumn(rhs, ri) && OrderlyColumns(lhs, li, rhs, ri, ty)
    requires InnerUnique(lhs, li, rhs, ri) && i < |lhs| && j < |rhs| && ValueEqual(rhs[j][ri], lhs[i][li])
    ensures (Entry(lhs[i][li], true, lhs[i]), Entry(rhs[j][ri], false, rhs[j]))
            in MergedPairs(Contents(Entries(lhs, li, true), Entries(rhs, ri, false)))
  {
    hide Orderly, ValueEqual, Contents, MergedPairs, Count, KeyUnique, ByKey, LeftFirst, InnerUnique;
    var ls, rs := Entries(lhs, li, true), Entries(rhs, ri, false);
    var c := Contents(ls, rs);
    ColumnsGiveInputs(lhs, li, rhs, ri, ty);
    forall k: Entry | Keyed(ty)(k) ensures KeyUnique(ls, rs, k) {
      UniqueKeys(lhs, li, rhs, ri, ty, k);
    }
    TidyIsUnique(ls, rs, ty);
    ContentsOrder(ls, rs, ty);
    ContentsMembers(ls, rs, ls[i]);
    ContentsMembers(ls, rs, rs[j]);
    var m :| 0 <= m < |c| && c[m] == ls[i];
    var n :| 0 <= n < |c| && c[n] == rs[j];
    KeyFacts(ls[i], ls[i], rs[j], ty);
    LeftBeforeRight(c, m, n, ls[i], ty);
    TidyFinds(c, m);
  }

  /** The pairs are joined in ascending order of keys, so no row is joined twice. */
  lemma PairsDiffer(lhs: seq<Tuple>, li: nat, rhs: seq<Tuple>, ri: nat, ty: ValueType, k: nat, l: nat,
                    p: (nat, nat), q: (nat, nat))
    requires HaveColumn(lhs, li) && HaveColumn(rhs, ri) && OrderlyColumns(lhs, li, rhs, ri, ty)
    requires p.0 < |lhs| && p.1 < |rhs| && q.0 < |lhs| && q.1 < |rhs|
    requires ValueEqual(rhs[p.1][ri], lhs[p.0][li]) && ValueEqual(rhs[q.1][ri], lhs[q.0][li])
    requires var ps := MergedPairs(Contents(Entries(lhs, li, true), Entries(rhs, ri, false)));
             && k < l < |ps|
             && ps[k].0 == Entry(lhs[p.0][li], true, lhs[p.0]) && ps[l].0 == Entry(lhs[q.0][li], true, lhs[q.0])
    ensures ValueLess(lhs[p.0][li], lhs[q.0][li]) && p.0 != q.0 && p.1 != q.1
  {
    hide Orderly, ValueEqual, ValueLess, Contents, MergedPairs, LeftFirst;
    var ls, rs := Entries(lhs, li, true), Entries(rhs, ri, false);
    ColumnsGiveInputs(lhs, li, rhs, ri, ty);
    ContentsOrder(ls, rs, ty);
    PairsAscend(Contents(ls, rs), ty, k, l);
    ValueOrder(lhs[p.0][li], lhs[q.0][li], lhs[p.0][li], ty);
    ValueOrder(rhs[p.1][ri], lhs[p.0][li], lhs[q.0][li], ty);
    ValueOrder(lhs[p.0][li], rhs[p.1][ri], lhs[q.0][li], ty);
    ValueOrder(lhs[q.0][li], rhs[p.1][ri], lhs[p.0][li], ty);
  }

  /** INNER JOIN by rows: every row it emits is a left row with a right row of an equal key, in ascending order
      of keys and no row used twice; and all such pairs are there exactly if no row takes part in two. */
  lemma InnerJoinRows(lhs: seq<Tuple>, li: nat, rhs: seq<Tuple>, ri: nat, ty: ValueType, out: seq<Tuple>)
    returns (pairs: seq<(nat, nat)>)
    requires HaveColumn(lhs, li) && HaveColumn(rhs, ri)
    requires out == JoinedRows(MergedPairs(Contents(Entries(lhs, li, true), Entries(rhs, ri, false))))
    ensures |pairs| == |out|
    ensures forall k | 0 <= k < |out| ::
              var (i, j) := pairs[k];
              i < |lhs| && j < |rhs| && ValueEqual(rhs[j][ri], lhs[i][li]) && out[k] == lhs[i] + rhs[j]
    ensures OrderlyColumns(lhs, li, rhs, ri, ty) ==> forall k, l | 0 <= k < l < |out| ::
              && ValueLess(lhs[pairs[k].0][li], lhs[pairs[l].0][li])
              && pairs[k].0 != pairs[l].0 && pairs[k].1 != pairs[l].1
    ensures OrderlyColumns(lhs, li, rhs, ri, ty) ==>
              ((forall i: nat, j: nat | i < |lhs| && j < |rhs| && ValueEqual(rhs[j][ri], lhs[i][li]) :: (i, j) in pairs)
               <==> InnerUnique(lhs, li, rhs, ri))
  {
    hide Orderly, ValueEqual, ValueLess, Contents, MergedPairs, InnerUnique, OrderlyColumns;
    pairs := InnerPairs(lhs, li, rhs, ri, |out|);
    if OrderlyColumns(lhs, li, rhs, ri, ty) {
      forall k, l | 0 <= k < l < |out|
        ensures ValueLess(lhs[pairs[k].0][li], lhs[pairs[l].0][li])
        ensures pairs[k].0 != pairs[l].0 && pairs[k].1 != pairs[l].1
      {
        PairsDiffer(lhs, li, rhs, ri, ty, k, l, pairs[k], pairs[l]);
      }
      if InnerUnique(lhs, li, rhs, ri) {
        forall i: nat, j: nat | i < |lhs| && j < |rhs| && ValueEqual(rhs[j][ri], lhs[i][li]) ensures (i, j) in pairs {
          MatchIsJoined(lhs, li, rhs, ri, ty, i, j);
          OnlyPair(lhs, li, rhs, ri, pairs, i, j);
        }
      } else {
        SomeMissing(lhs, li, rhs, ri, pairs);
      }
    }
  }

  lemma OnlyPair(lhs: seq<Tuple>, li: nat, rhs: seq<Tuple>, ri: nat, pairs: seq<(nat, nat)>, i: nat, j: nat)
    requires HaveColumn(lhs, li) && HaveColumn(rhs, ri) && InnerUnique(lhs, li, rhs, ri)
    requires i < |lhs| && j < |rhs| && ValueEqual(rhs[j][ri], lhs[i][li])
    requires var ps := MergedPairs(Contents(Entries(lhs, li, true), Entries(rhs, ri, false)));
             && |pairs| == |ps| && (Entry(lhs[i][li], true, lhs[i]), Entry(rhs[j][ri], false, rhs[j])) in ps
             && forall k | 0 <= k < |ps| ::
                  var (a, b) := pairs[k];
                  && a < |lhs| && b < |rhs| && ValueEqual(rhs[b][ri], lhs[a][li])
                  && ps[k] == (Entry(lhs[a][li], true, lhs[a]), Entry(rhs[b][ri], false, rhs[b]))
    ensures (i, j) in pairs
  {
    hide ValueEqual, Contents, MergedPairs;
    var ps := MergedPairs(Contents(Entries(lhs, li, true), Entries(rhs, ri, false)));
    var k :| 0 <= k < |ps| && ps[k] == (Entry(lhs[i][li], true, lhs[i]), Entry(rhs[j][ri], false, rhs[j]));
    var (a, b) := pairs[k];
    assert lhs[a][li] == lhs[i][li] && rhs[b][ri] == rhs[j][ri];
    assert ValueEqual(rhs[b][ri], lhs[i][li]) && ValueEqual(rhs[j][ri], lhs[a][li]);
    assert pairs[k] == (i, j);
  }

  lemma NoneTwice(pairs: seq<(nat, nat)>, p: (nat, nat), q: (nat, nat))
    requires forall k, l | 0 <= k < l < |pairs| :: pairs[k].0 != pairs[l].0 && pairs[k].1 != pairs[l].1
    ensures p in pairs && q in pairs && p != q ==> p.0 != q.0 && p.1 != q.1
  {
    if p in pairs && q in pairs && p != q {
      var a :| 0 <= a < |pairs| && pairs[a] == p;
      var b :| 0 <= b < |pairs| && pairs[b] == q;
    }
  }

  /** When a row takes part in two matches one of them is not joined. */
  lemma SomeMissing(lhs: seq<Tuple>, li: nat, rhs: seq<Tuple>, ri: nat, pairs: seq<(nat, nat)>)
    requires HaveColumn(lhs, li) && HaveColumn(rhs, ri) && !InnerUnique(lhs, li, rhs, ri)
    requires forall k, l | 0 <= k < l < |pairs| :: pairs[k].0 != pairs[l].0 && pairs[k].1 != pairs[l].1
    ensures exists i: nat, j: nat ::
              i < |lhs| && j < |rhs| && ValueEqual(rhs[j][ri], lhs[i][li]) && (i, j) !in pairs
  {
    hide ValueEqual;
    var i: nat, j: nat, k: nat, l: nat :| i < |lhs| && j < |rhs| && k < |lhs| && l < |rhs|
      && ValueEqual(rhs[j][ri], lhs[i][li]) && ValueEqual(rhs[l][ri], lhs[k][li])
      && (i == k || j == l) && !(i == k && j == l);
    NoneTwice(pairs, (i, j), (k, l));
  }

  // ---- LEFT JOIN by rows ----

  /** Every left key is the key of one left row only, and of one right row at most. */
  ghost predicate OuterUnique(lhs: seq<Tuple>, li: nat, rhs: seq<Tuple>, ri: nat)
    requires HaveColumn(lhs, li) && HaveColumn(rhs, ri)
  {
    && (forall i, k | 0 <= i < |lhs| && 0 <= k < |lhs| && ValueEqual(lhs[k][li], lhs[i][li]) :: i == k)
    && (forall i, j, l | 0 <= i < |lhs| && 0 <= j < |rhs| && 0 <= l < |rhs|
                         && ValueEqual(rhs[j][ri], lhs[i][li]) && ValueEqual(rhs[l][ri], lhs[i][li]) :: j == l)
  }

  lemma ColumnsGiveKeys(lhs: seq<Tuple>, li: nat, rhs: seq<Tuple>, ri: nat)
    requires HaveColumn(lhs, li) && HaveColumn(rhs, ri) && OuterUnique(lhs, li, rhs, ri)
    ensures KeysUnique(Entries(lhs, li, true), Entries(rhs, ri, false))
  {
    hide ValueEqual, Count;
    var ls, rs := Entries(lhs, li, true), Entries(rhs, ri, false);
    forall i | 0 <= i < |ls| ensures Count(ls, true, ls[i]) <= 1 && Count(rs, false, ls[i]) <= 1 {
      if Count(ls, true, ls[i]) > 1 {
        var a, b := CountedAt(ls, true, ls[i]);
      }
      if Count(rs, false, ls[i]) > 1 {
        var a, b := CountedAt(rs, false, ls[i]);
      }
    }
  }

  /** A row of LEFT JOIN: with the right row of an equal key, or with NULLs if there is none. */
  ghost predicate PickedRow(left: Tuple, key: Value, rhs: seq<Tuple>, ri: nat, width: nat, j: Option<nat>, row: Tuple)
    requires HaveColumn(rhs, ri)
  {
    match j
    case Some(j) => j < |rhs| && ValueEqual(rhs[j][ri], key) && row == left + rhs[j]
    case None => (forall l | 0 <= l < |rhs| :: !ValueEqual(rhs[l][ri], key)) && row == left + seq(width, i => Null)
  }

  /** What the left outer join makes of one left row. */
  lemma OuterRowAt(x: Entry, rhs: seq<Tuple>, ri: nat, width: nat) returns (row: Tuple, j: Option<nat>)
    requires HaveColumn(rhs, ri) && x.left && Count(Entries(rhs, ri, false), false, x) <= 1
    ensures OuterRow(x, Entries(rhs, ri, false), width) == [row]
    ensures PickedRow(x.row, x.key, rhs, ri, width, j, row)
  {
    hide ValueEqual, Count;
    var rs := Entries(rhs, ri, false);
    if l: nat :| l < |rhs| && ValueEqual(rhs[l][ri], x.key) {
      OnlyMatch(x, rs, rs[l]);
      row, j := x.row + rhs[l], Some(l);
    } else {
      NoMatchBehind(x, rs);
      row, j := x.row + seq(width, i => Null), None;
    }
  }

  lemma LeftOuterNothing(rs: seq<Entry>, width: nat)
    ensures LeftOuter([], rs, width) == []
  {
  }

  /** The left rows in the order of `s`, and what each is joined with. */
  lemma {:induction false} OuterPicks(s: seq<Entry>, lhs: seq<Tuple>, li: nat, rhs: seq<Tuple>, ri: nat, width: nat)
    returns (picks: seq<(nat, Option<nat>)>)
    requires HaveColumn(lhs, li) && HaveColumn(rhs, ri)
    requires KeysUnique(Entries(lhs, li, true), Entries(rhs, ri, false))
    requires forall k | 0 <= k < |s| :: s[k] in Entries(lhs, li, true)
    ensures var out := LeftOuter(s, Entries(rhs, ri, false), width);
            |picks| == |s| == |out| && forall k | 0 <= k < |s| ::
              var (i, j) := picks[k];
              && i < |lhs| && s[k] == Entry(lhs[i][li], true, lhs[i])
              && PickedRow(lhs[i], lhs[i][li], rhs, ri, width, j, out[k])
  {
    hide ValueEqual, Count, OuterRow, LeftOuter, PickedRow;
    if s == [] {
      picks := [];
      LeftOuterNothing(Entries(rhs, ri, false), width);
    } else {
      var i := EntryAt(lhs, li, true, s[0]);
      var row, j := OuterRowAt(s[0], rhs, ri, width);
      forall k | 0 <= k < |s| - 1 ensures s[1..][k] in Entries(lhs, li, true) {
        assert s[1..][k] == s[k + 1];
      }
      var rest := OuterPicks(s[1..], lhs, li, rhs, ri, width);
      picks := [(i, j)] + rest;
      LeftOuterCons(s[0], s[1..], Entries(rhs, ri, false), width);
      assert [s[0]] + s[1..] == s;
    }
  }

  /** The left table in key order: with unique keys each key is below the ones behind it. */
  lemma SortedKeys(ls: seq<Entry>, rs: seq<Entry>, ty: ValueType, k: nat, l: nat)
    requires Inputs(ls, rs, ty) && KeysUnique(ls, rs) && k < l < |ls|
    ensures ByKey()(Sort(ls, ByKey())[k], Sort(ls, ByKey())[l])
  {
    hide Orderly, ByKey, SameKey, Count, Sort;
    var s := Sort(ls, ByKey());
    SortMembers(ls, ByKey());
    KeysAreOrdered(ty);
    SortIsStable(ls, ByKey(), Keyed(ty));
    assert s[k] in multiset(s) && s[l] in multiset(s);
    assert s[k] in multiset(ls) && s[l] in multiset(ls);
    KeyFacts(s[k], s[l], s[k], ty);
    if SameKey(s[l], s[k]) {
      SortCount(ls, true, s[k]);
      CountAtLeast(s, true, s[k], k, l);
    }
  }

  /** The left entries that LEFT JOIN keeps are all but the last in key order, if that is above all keys
      of both tables. */
  lemma KeptUnlessGreatest(ls: seq<Entry>, rs: seq<Entry>, ty: ValueType, s: seq<Entry>, i: nat)
    requires Inputs(ls, rs, ty) && KeysUnique(ls, rs) && i < |ls|
    requires var sorted := Sort(ls, ByKey()); s == if GreatestIsLeft(ls, rs) then sorted[..|sorted| - 1] else sorted
    ensures ls[i] !in s <==>
            && (forall j | 0 <= j < |rs| :: ByKey()(rs[j], ls[i]))
            && (forall k | 0 <= k < |ls| && ls[k] != ls[i] :: ByKey()(ls[k], ls[i]))
  {
    hide Orderly, ByKey, SameKey, Count, Sort, KeysUnique;
    var sorted := Sort(ls, ByKey());
    SortMembers(ls, ByKey());
    assert ls[i] in multiset(ls) && ls[i] in multiset(sorted);
    var m :| 0 <= m < |sorted| && sorted[m] == ls[i];
    var last := |sorted| - 1;
    var z := sorted[last];
    if m < last {
      SortedKeys(ls, rs, ty, m, last);
      assert z in multiset(sorted) && z in multiset(ls);
      KeyFacts(ls[i], z, ls[i], ty);
      assert s[m] == ls[i];
    } else {
      forall k | 0 <= k < |ls| && ls[k] != ls[i] ensures ByKey()(ls[k], ls[i]) {
        assert ls[k] in multiset(ls) && ls[k] in multiset(sorted);
        var n :| 0 <= n < |sorted| && sorted[n] == ls[k];
        SortedKeys(ls, rs, ty, n, last);
      }
      if z in sorted[..last] {
        var n :| 0 <= n < last && sorted[n] == z;
        SortedKeys(ls, rs, ty, n, last);
        KeyFacts(z, z, z, ty);
      }
    }
  }

  /** LEFT JOIN by rows, with unique keys: each row is a left row with the right row of an equal key, or with
      NULLs if there is none, in ascending order of keys; and every left row is there once, but for the one
      above all other keys of both tables. */
  lemma LeftJoinRows(lhs: seq<Tuple>, li: nat, rhs: seq<Tuple>, ri: nat, ty: ValueType, width: nat, out: seq<Tuple>)
    returns (picks: seq<(nat, Option<nat>)>)
    requires HaveColumn(lhs, li) && HaveColumn(rhs, ri) && OrderlyColumns(lhs, li, rhs, ri, ty)
    requires OuterUnique(lhs, li, rhs, ri)
    requires out == LeftMerge(Contents(Entries(lhs, li, true), Entries(rhs, ri, false)), width)
    ensures |picks| == |out|
    ensures forall k | 0 <= k < |out| ::
              picks[k].0 < |lhs| && PickedRow(lhs[picks[k].0], lhs[picks[k].0][li], rhs, ri, width, picks[k].1, out[k])
    ensures forall k, l | 0 <= k < l < |out| :: ValueLess(lhs[picks[k].0][li], lhs[picks[l].0][li])
    ensures forall i | 0 <= i < |lhs| ::
              (forall k | 0 <= k < |picks| :: picks[k].0 != i) <==>
              && (forall j | 0 <= j < |rhs| :: ValueLess(rhs[j][ri], lhs[i][li]))
              && (forall k | 0 <= k < |lhs| && k != i :: ValueLess(lhs[k][li], lhs[i][li]))
  {
    hide Orderly, ValueEqual, ValueLess, Contents, LeftMerge, LeftOuter, KeysUnique, PickedRow, GreatestIsLeft, Sort;
    var ls, rs := Entries(lhs, li, true), Entries(rhs, ri, false);
    ColumnsGiveInputs(lhs, li, rhs, ri, ty);
    ColumnsGiveKeys(lhs, li, rhs, ri);
    LeftJoinOrdered(ls, rs, width, ty);
    var sorted := Sort(ls, ByKey());
    SortMembers(ls, ByKey());
    if GreatestIsLeft(ls, rs) {
      NotEmpty(ls, rs);
    }
    var s := if GreatestIsLeft(ls, rs) then sorted[..|sorted| - 1] else sorted;
    forall k | 0 <= k < |s| ensures s[k] in ls {
      assert sorted[k] in multiset(sorted);
      assert sorted[k] in multiset(ls);
    }
    picks := OuterPicks(s, lhs, li, rhs, ri, width);
    forall k, l | 0 <= k < l < |out| ensures ValueLess(lhs[picks[k].0][li], lhs[picks[l].0][li]) {
      SortedKeys(ls, rs, ty, k, l);
    }
    forall i | 0 <= i < |lhs|
      ensures (forall k | 0 <= k < |picks| :: picks[k].0 != i) <==>
              && (forall j | 0 <= j < |rhs| :: ValueLess(rhs[j][ri], lhs[i][li]))
              && (forall k | 0 <= k < |lhs| && k != i :: ValueLess(lhs[k][li], lhs[i][li]))
    {
      MissingRow(lhs, li, rhs, ri, ty, s, picks, i);
    }
  }

  lemma MissingRow(lhs: seq<Tuple>, li: nat, rhs: seq<Tuple>, ri: nat, ty: ValueType, s: seq<Entry>,
                   picks: seq<(nat, Option<nat>)>, i: nat)
    requires HaveColumn(lhs, li) && HaveColumn(rhs, ri) && OrderlyColumns(lhs, li, rhs, ri, ty)
    requires OuterUnique(lhs, li, rhs, ri) && i < |lhs|
    requires var ls, rs := Entries(lhs, li, true), Entries(rhs, ri, false);
             var sorted := Sort(ls, ByKey());
             && KeysUnique(ls, rs) && Inputs(ls, rs, ty)
             && s == if GreatestIsLeft(ls, rs) then sorted[..|sorted| - 1] else sorted
    requires |picks| == |s| && forall k | 0 <= k < |s| ::
               picks[k].0 < |lhs| && s[k] == Entry(lhs[picks[k].0][li], true, lhs[picks[k].0])
    ensures (forall k | 0 <= k < |picks| :: picks[k].0 != i) <==>
            && (forall j | 0 <= j < |rhs| :: ValueLess(rhs[j][ri], lhs[i][li]))
            && (forall k | 0 <= k < |lhs| && k != i :: ValueLess(lhs[k][li], lhs[i][li]))
  {
    hide Orderly, ValueEqual, ValueLess, KeysUnique, GreatestIsLeft, Sort;
    var ls, rs := Entries(lhs, li, true), Entries(rhs, ri, false);
    KeptUnlessGreatest(ls, rs, ty, s, i);
    forall k | 0 <= k < |lhs| && ls[k] == ls[i] ensures k == i {
      KeyFacts(ls[k], ls[i], ls[k], ty);
    }
    if ls[i] in s {
      var k :| 0 <= k < |s| && s[k] == ls[i];
      assert ls[picks[k].0] == ls[i];
    }
    assert forall k | 0 <= k < |picks| && picks[k].0 == i :: s[k] == ls[i];
    forall j | 0 <= j < |rhs| ensures ByKey()(rs[j], ls[i]) <==> ValueLess(rhs[j][ri], lhs[i][li]) {
    }
    forall k | 0 <= k < |lhs| ensures ByKey()(ls[k], ls[i]) <==> ValueLess(lhs[k][li], lhs[i][li]) {
    }
  }

  /** `JoinExpression::evaluate`; `width` is the number of columns of the right table. On columns of one type:
      an INNER JOIN emits rows `lhs[i] + rhs[j]` with equal keys, none used twice, and all of these exactly if no
      row takes part in two. If each left key is there once, and once at most on the right, a LEFT JOIN emits
      every left row once, with its match or with NULLs, but for the row above all other keys. */
  method Evaluate(lhs: seq<Tuple>, li: nat, rhs: seq<Tuple>, ri: nat, join: JoinType, width: nat,
                  ghost ty: ValueType)
    returns (r: Option<seq<Tuple>>, ghost pairs: seq<(nat, nat)>, ghost picks: seq<(nat, Option<nat>)>)
    requires lhs != [] || rhs != []
    ensures r.Some? <==> (forall i | 0 <= i < |lhs| :: li < |lhs[i]|) && (forall j | 0 <= j < |rhs| :: ri < |rhs[j]|)
    ensures r.Some? && join.Inner? ==>
              |pairs| == |r.value| && forall k | 0 <= k < |pairs| ::
                var (i, j) := pairs[k];
                i < |lhs| && j < |rhs| && ValueEqual(rhs[j][ri], lhs[i][li]) && r.value[k] == lhs[i] + rhs[j]
    ensures r.Some? && join.Inner? && OrderlyColumns(lhs, li, rhs, ri, ty) ==>
              && (forall k, l | 0 <= k < l < |pairs| ::
                    && ValueLess(lhs[pairs[k].0][li], lhs[pairs[l].0][li])
                    && pairs[k].0 != pairs[l].0 && pairs[k].1 != pairs[l].1)
              && ((forall i: nat, j: nat | i < |lhs| && j < |rhs| && ValueEqual(rhs[j][ri], lhs[i][li]) ::
                     (i, j) in pairs)
                  <==> InnerUnique(lhs, li, rhs, ri))
    ensures r.Some? && join.Left? && OrderlyColumns(lhs, li, rhs, ri, ty) && OuterUnique(lhs, li, rhs, ri) ==>
              |picks| == |r.value| && forall k | 0 <= k < |picks| ::
                && picks[k].0 < |lhs|
                && match picks[k].1
                   case Some(j) =>
                     && j < |rhs| && ValueEqual(rhs[j][ri], lhs[picks[k].0][li])
                     && r.value[k] == lhs[picks[k].0] + rhs[j]
                   case None =>
                     && (forall j | 0 <= j < |rhs| :: !ValueEqual(rhs[j][ri], lhs[picks[k].0][li]))
                     && r.value[k] == lhs[picks[k].0] + seq(width, i => Null)
    ensures r.Some? && join.Left? && OrderlyColumns(lhs, li, rhs, ri, ty) && OuterUnique(lhs, li, rhs, ri) ==>
              && (forall k, l | 0 <= k < l < |picks| :: ValueLess(lhs[picks[k].0][li], lhs[picks[l].0][li]))
              && forall i | 0 <= i < |lhs| ::
                   (forall k | 0 <= k < |picks| :: picks[k].0 != i) <==>
                   && (forall j | 0 <= j < |rhs| :: ValueLess(rhs[j][ri], lhs[i][li]))
                   && (forall k | 0 <= k < |lhs| && k != i :: ValueLess(lhs[k][li], lhs[i][li]))
    ensures r.Some? ==>
              var c := Contents(Entries(lhs, li, true), Entries(rhs, ri, false));
              r.value == if join.Inner? then JoinedRows(MergedPairs(c)) else LeftMerge(c, width)
  {
    hide ByKey, ValueEqual, ValueLess, LeftMerge, JoinedRows, MergedPairs, Contents, OrderlyColumns, OuterUnique,
         InnerUnique;
    pairs, picks := [], [];
    var ls := AddRows([], lhs, li, true, []);
    if ls.None? {
      r := None;
      return;
    }
    assert [] + Entries(lhs, li, true) == Entries(lhs, li, true);
    var c := AddRows(ls.value, rhs, ri, false, Entries(lhs, li, true));
    if c.None? {
      r := None;
      return;
    }
    ContentsAre(Entries(lhs, li, true), Entries(rhs, ri, false));
    if join.Inner? {
      var rows := InnerJoin(c.value);
      pairs := InnerJoinRows(lhs, li, rhs, ri, ty, rows);
      r := Some(rows);
      return;
    }
    var rows := LeftJoin(c.value, width);
    if OrderlyColumns(lhs, li, rhs, ri, ty) && OuterUnique(lhs, li, rhs, ri) {
      picks := LeftJoinRows(lhs, li, rhs, ri, ty, width, rows);
    }
    r := Some(rows);
  }

  lemma ContentsAre(ls: seq<Entry>, rs: seq<Entry>)
    ensures Contents(ls, rs) == Sort(ls + rs, ByKey())
  {
  }
}
