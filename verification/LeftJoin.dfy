/** LEFT JOIN (db/sql/ast/TableExpression.cpp:146-169). */
module LeftJoins {
  import opened Options
  import opened Values
  import opened Ordering
  import opened StableSorting
  import opened Joins

  function Nulls(n: nat): (t: Tuple)
    ensures |t| == n
  {
    seq(n, i => Null)
  }

  /** The rows the merge of LEFT JOIN emits: a left entry is joined with its neighbour if that has the
      same key, and with NULLs otherwise; one without a neighbour is not looked at. */
  function LeftMerge(c: seq<Entry>, width: nat): seq<Tuple> {
    if |c| < 2 then []
    else if !c[0].left then LeftMerge(c[1..], width)
    else if SameKey(c[1], c[0]) then [c[0].row + c[1].row] + LeftMerge(c[2..], width)
    else [c[0].row + Nulls(width)] + LeftMerge(c[1..], width)
  }

  lemma MergeStep(c: seq<Entry>, width: nat)
    ensures |c| < 2 ==> LeftMerge(c, width) == []
    ensures |c| >= 2 ==>
              LeftMerge(c, width) ==
              if !c[0].left then LeftMerge(c[1..], width)
              else if SameKey(c[1], c[0]) then [c[0].row + c[1].row] + LeftMerge(c[2..], width)
              else [c[0].row + Nulls(width)] + LeftMerge(c[1..], width)
  {
  }

  method LeftJoin(c: seq<Entry>, width: nat) returns (out: seq<Tuple>)
    requires c != []
    ensures out == LeftMerge(c, width)
  {
    hide SameKey, LeftMerge, Nulls;
    out := [];
    var it, last := 1, 0;
    while it < |c|
      invariant last < |c| && it == last + 1
      invariant out + LeftMerge(c[last..], width) == LeftMerge(c, width)
    {
      ghost var rest := c[last..];
      assert rest[1..] == c[it..];
      MergeStep(rest, width);
      if c[last].left {
        if SameKey(c[it], c[last]) {
          out := out + [c[last].row + c[it].row];
          it := it + 1;
          assert rest[2..] == c[it..];
          MergeStep(c[it..], width);
          if it == |c| {
            break;
          }
        } else {
          out := out + [c[last].row + Nulls(width)];
        }
      }
      last := it;
      it := it + 1;
    }
    MergeStep(c[last..], width);
  }

  /** A left row with all its matches; padded with NULLs if it has none. */
  function OuterRow(x: Entry, rs: seq<Entry>, width: nat): seq<Tuple> {
    if LoopRow(x, rs) == [] then [x.row + Nulls(width)] else LoopRow(x, rs)
  }

  /** The left outer join. */
  function LeftOuter(ls: seq<Entry>, rs: seq<Entry>, width: nat): seq<Tuple> {
    if ls == [] then [] else OuterRow(ls[0], rs, width) + LeftOuter(ls[1..], rs, width)
  }

  /** The left entries, in order. */
  function Lefts(c: seq<Entry>): seq<Entry> {
    if c == [] then [] else (if c[0].left then [c[0]] else []) + Lefts(c[1..])
  }

  /** Every key of the left table is the key of one left row only, and of one right row at most. */
  ghost predicate KeysUnique(ls: seq<Entry>, rs: seq<Entry>) {
    forall i | 0 <= i < |ls| :: Count(ls, true, ls[i]) <= 1 && Count(rs, false, ls[i]) <= 1
  }

  /** The only match of a left entry is its neighbour, or there is none. */
  lemma PartnerIsNeighbour(c: seq<Entry>, ls: seq<Entry>, rs: seq<Entry>, i: nat, ty: ValueType)
    requires Inputs(ls, rs, ty) && c == Contents(ls, rs) && KeysUnique(ls, rs)
    requires i < |c| && c[i].left
    ensures i + 1 < |c| && SameKey(c[i + 1], c[i]) ==> LoopRow(c[i], rs) == [c[i].row + c[i + 1].row]
    ensures !(i + 1 < |c| && SameKey(c[i + 1], c[i])) ==> LoopRow(c[i], rs) == []
  {
    hide Orderly, ByKey, SameKey, Count, LeftFirst, Contents;
    var k := c[i];
    ContentsOrder(ls, rs, ty);
    ContentsMembers(ls, rs, k);
    KeyFacts(k, k, k, ty);
    if i + 1 < |c| && SameKey(c[i + 1], k) {
      NeighbourIsRight(c, ls, rs, i, ty);
      ContentsMembers(ls, rs, c[i + 1]);
      OnlyMatch(k, rs, c[i + 1]);
    } else {
      forall j | 0 <= j < |rs| ensures !Matches(k, rs[j]) {
        if Matches(k, rs[j]) {
          ContentsMembers(ls, rs, rs[j]);
          var m :| 0 <= m < |c| && c[m] == rs[j];
          LeftBeforeRight(c, i, m, k, ty);
          Between(c, i, i + 1, m, ty);
        }
      }
      NoMatchBehind(k, rs);
    }
  }

  lemma {:induction false} OnlyMatch(x: Entry, rs: seq<Entry>, y: Entry)
    requires y in rs && Matches(x, y) && Count(rs, false, x) <= 1
    ensures LoopRow(x, rs) == [x.row + y.row]
  {
    hide SameKey;
    var m :| 0 <= m < |rs| && rs[m] == y;
    if m > 0 {
      if Matches(x, rs[0]) {
        CountAtLeast(rs, false, x, 0, m);
      }
      assert rs[1..][m - 1] == y;
      OnlyMatch(x, rs[1..], y);
    } else {
      forall j | 0 <= j < |rs| - 1 ensures !Matches(x, rs[1..][j]) {
        if Matches(x, rs[1..][j]) {
          CountAtLeast(rs, false, x, 0, j + 1);
        }
      }
      NoMatchBehind(x, rs[1..]);
    }
  }

  /** The left entries that have something behind them. */
  function Seen(c: seq<Entry>): seq<Entry> {
    if c == [] then [] else Lefts(c[..|c| - 1])
  }

  lemma SeenCons(c: seq<Entry>)
    requires |c| >= 2
    ensures Seen(c) == (if c[0].left then [c[0]] else []) + Seen(c[1..])
  {
    assert c[..|c| - 1][1..] == c[1..][..|c[1..]| - 1];
  }

  /** What `PartnerIsNeighbour` says of the entry at `i`, as far as the merge asks. */
  ghost predicate PairedAt(c: seq<Entry>, rs: seq<Entry>, i: nat) {
    i + 1 < |c| && c[i].left ==>
      if SameKey(c[i + 1], c[i]) then !c[i + 1].left && LoopRow(c[i], rs) == [c[i].row + c[i + 1].row]
          else LoopRow(c[i], rs) == []
  }

  lemma {:induction false} PairedMerge(c: seq<Entry>, rs: seq<Entry>, width: nat)
    requires forall i: nat :: PairedAt(c, rs, i)
    ensures LeftMerge(c, width) == LeftOuter(Seen(c), rs, width)
    decreases |c|
  {
    hide SameKey, LoopRow, OuterRow, Seen;
    if |c| >= 2 {
      assert PairedAt(c, rs, 0);
      SeenCons(c);
      OuterRowIs(c[0], rs, width);
      LeftOuterCons(c[0], Seen(c[1..]), rs, width);
      assert [] + Seen(c[1..]) == Seen(c[1..]);
      forall i: nat ensures PairedAt(c[1..], rs, i) {
        assert PairedAt(c, rs, i + 1);
      }
      PairedMerge(c[1..], rs, width);
      if c[0].left && SameKey(c[1], c[0]) {
        SkipRightMerge(c[1..], width);
        assert c[1..][1..] == c[2..];
      }
    } else {
      NothingSeen(c);
    }
  }

  lemma LeftOuterCons(x: Entry, ls: seq<Entry>, rs: seq<Entry>, width: nat)
    ensures LeftOuter([x] + ls, rs, width) == OuterRow(x, rs, width) + LeftOuter(ls, rs, width)
  {
    hide OuterRow;
    assert ([x] + ls)[1..] == ls;
  }

  lemma NothingSeen(c: seq<Entry>)
    requires |c| < 2
    ensures Seen(c) == []
  {
  }

  /** A right entry at the front adds nothing. */
  lemma SkipRightMerge(c: seq<Entry>, width: nat)
    requires c != [] && !c[0].left
    ensures LeftMerge(c, width) == LeftMerge(c[1..], width)
  {
  }

  lemma OuterRowIs(x: Entry, rs: seq<Entry>, width: nat)
    ensures OuterRow(x, rs, width) == if LoopRow(x, rs) == [] then [x.row + Nulls(width)] else LoopRow(x, rs)
  {
  }

  lemma NeighbourIsRight(c: seq<Entry>, ls: seq<Entry>, rs: seq<Entry>, i: nat, ty: ValueType)
    requires Inputs(ls, rs, ty) && c == Contents(ls, rs) && KeysUnique(ls, rs)
    requires i + 1 < |c| && c[i].left && SameKey(c[i + 1], c[i])
    ensures !c[i + 1].left
  {
    hide Orderly, ByKey, SameKey, Count, Contents;
    ContentsOrder(ls, rs, ty);
    ContentsMembers(ls, rs, c[i]);
    ContentsCount(ls, rs, c[i], ty);
    KeyFacts(c[i], c[i], c[i], ty);
    assert c[i] in ls;
    if c[i + 1].left {
      CountAtLeast(c, true, c[i], i, i + 1);
    }
  }

  /** The left entries of the multimap are the left table in key order. */
  lemma {:induction false} LeftsOfContents(ls: seq<Entry>, rs: seq<Entry>)
    requires (forall i | 0 <= i < |ls| :: ls[i].left) && forall i | 0 <= i < |rs| :: !rs[i].left
    ensures Lefts(Contents(ls, rs)) == Sort(ls, ByKey())
    decreases |rs|
  {
    hide ByKey, Lefts, Insert;
    if rs == [] {
      assert ls + rs == ls;
      SortMembers(ls, ByKey());
      forall j | 0 <= j < |ls| ensures Sort(ls, ByKey())[j].left {
        assert Sort(ls, ByKey())[j] in multiset(ls);
      }
      AllLeft(Sort(ls, ByKey()));
    } else {
      var init, e := rs[..|rs| - 1], rs[|rs| - 1];
      LeftsOfContents(ls, init);
      ContentsSnoc(ls, init, e);
      assert init + [e] == rs;
      InsertRight(Contents(ls, init), e);
    }
  }

  lemma ContentsSnoc(ls: seq<Entry>, rs: seq<Entry>, e: Entry)
    ensures Contents(ls, rs + [e]) == Insert(Contents(ls, rs), e, ByKey())
  {
    hide ByKey;
    var s := ls + (rs + [e]);
    assert s[..|s| - 1] == ls + rs && s[|s| - 1] == e;
  }

  lemma {:induction false} AllLeft(c: seq<Entry>)
    requires forall j | 0 <= j < |c| :: c[j].left
    ensures Lefts(c) == c
  {
    if c != [] {
      AllLeft(c[1..]);
    }
  }

  lemma {:induction false} InsertRight(c: seq<Entry>, e: Entry)
    requires !e.left
    ensures Lefts(Insert(c, e, ByKey())) == Lefts(c)
  {
    hide ValueLess;
    if c == [] || ByKey()(e, c[0]) {
      assert ([e] + c)[1..] == c;
    } else {
      InsertRight(c[1..], e);
      var rest := Insert(c[1..], e, ByKey());
      assert ([c[0]] + rest)[1..] == rest;
    }
  }

  lemma {:induction false} LeftsLast(c: seq<Entry>)
    requires c != []
    ensures Lefts(c) == Seen(c) + if c[|c| - 1].left then [c[|c| - 1]] else []
  {
    if |c| == 1 {
      assert c[1..] == [];
    } else {
      LeftsLast(c[1..]);
      assert c[..|c| - 1][1..] == c[1..][..|c[1..]| - 1];
    }
  }

  /** The left table has a row whose key is above all keys of both tables; it comes last in key order. */
  ghost predicate GreatestIsLeft(ls: seq<Entry>, rs: seq<Entry>) {
    ls != [] && forall i | 0 <= i < |rs| :: ByKey()(rs[i], Sort(ls, ByKey())[|ls| - 1])
  }

  lemma ContentsMembers(ls: seq<Entry>, rs: seq<Entry>, e: Entry)
    ensures e in Contents(ls, rs) <==> e in ls || e in rs
  {
    hide ByKey;
    SortMembers(ls + rs, ByKey());
    assert e in multiset(Contents(ls, rs)) <==> e in multiset(ls + rs);
  }

  lemma LastIsLeft(ls: seq<Entry>, rs: seq<Entry>, ty: ValueType)
    requires Inputs(ls, rs, ty) && ls + rs != []
    ensures var c := Contents(ls, rs); c[|c| - 1].left <==> GreatestIsLeft(ls, rs)
  {
    hide Orderly, ByKey, SameKey, Contents, LeftFirst, Seen;
    var c := Contents(ls, rs);
    var z := c[|c| - 1];
    LeftsOfContents(ls, rs);
    LeftsLast(c);
    if z.left {
      ContentsMembers(ls, rs, z);
      forall i | 0 <= i < |rs| ensures ByKey()(rs[i], z) {
        RightIsBelow(c, ls, rs, rs[i], ty);
      }
    } else if ls != [] {
      var l := Sort(ls, ByKey())[|ls| - 1];
      LeftIsNotAbove(c, ls, rs, l, ty);
    }
  }

  /** A right entry is below a left one that comes last. */
  lemma RightIsBelow(c: seq<Entry>, ls: seq<Entry>, rs: seq<Entry>, r: Entry, ty: ValueType)
    requires Inputs(ls, rs, ty) && c == Contents(ls, rs) && c != [] && c[|c| - 1].left && r in rs
    ensures ByKey()(r, c[|c| - 1])
  {
    hide Orderly, ByKey, SameKey, Contents;
    ContentsMembers(ls, rs, r);
    ContentsOrder(ls, rs, ty);
    var m :| 0 <= m < |c| && c[m] == r;
    var z := c[|c| - 1];
    KeyFacts(r, z, z, ty);
  }

  /** Nothing in the multimap is above what comes last. */
  lemma LastIsHighest(c: seq<Entry>, e: Entry, ty: ValueType)
    requires All(c, Keyed(ty)) && Sorted(c, ByKey()) && e in c
    ensures !ByKey()(c[|c| - 1], e)
  {
    hide Orderly, ByKey;
    var m :| 0 <= m < |c| && c[m] == e;
    KeyFacts(e, e, e, ty);
  }

  /** A left entry is not above a right one that comes last. */
  lemma LeftIsNotAbove(c: seq<Entry>, ls: seq<Entry>, rs: seq<Entry>, l: Entry, ty: ValueType)
    requires Inputs(ls, rs, ty) && c == Contents(ls, rs) && c != [] && !c[|c| - 1].left && ls != []
    requires l == Sort(ls, ByKey())[|ls| - 1]
    ensures !GreatestIsLeft(ls, rs)
  {
    hide Orderly, ByKey, SameKey, Contents, Sort, LeftFirst;
    var z := c[|c| - 1];
    SortMembers(ls, ByKey());
    assert l in multiset(Sort(ls, ByKey()));
    assert l in multiset(ls);
    ContentsMembers(ls, rs, l);
    ContentsMembers(ls, rs, z);
    ContentsOrder(ls, rs, ty);
    LastIsHighest(c, l, ty);
    assert z in rs by {
      assert z !in ls;
    }
  }

  /** With unique keys LEFT JOIN is the left outer join in key order, without the left row of the
      greatest key if that is above all right keys. */
  lemma LeftJoinOrdered(ls: seq<Entry>, rs: seq<Entry>, width: nat, ty: ValueType)
    requires Inputs(ls, rs, ty) && KeysUnique(ls, rs)
    ensures var sorted := Sort(ls, ByKey());
            LeftMerge(Contents(ls, rs), width) ==
            LeftOuter(if GreatestIsLeft(ls, rs) then sorted[..|sorted| - 1] else sorted, rs, width)
  {
    hide Orderly, ByKey, SameKey, KeysUnique, LeftOuter, LeftMerge, Seen, Contents, LoopRow, GreatestIsLeft;
    var c := Contents(ls, rs);
    forall i: nat ensures PairedAt(c, rs, i) {
      if i + 1 < |c| && c[i].left {
        PartnerIsNeighbour(c, ls, rs, i, ty);
        if SameKey(c[i + 1], c[i]) {
          NeighbourIsRight(c, ls, rs, i, ty);
        }
      }
    }
    PairedMerge(c, rs, width);
    SeenOfContents(ls, rs, ty);
  }

  /** The left entries the merge looks at. */
  lemma SeenOfContents(ls: seq<Entry>, rs: seq<Entry>, ty: ValueType)
    requires Inputs(ls, rs, ty)
    ensures var sorted := Sort(ls, ByKey());
            Seen(Contents(ls, rs)) == if GreatestIsLeft(ls, rs) then sorted[..|sorted| - 1] else sorted
  {
    hide Orderly, ByKey, SameKey, Seen, Contents;
    var c := Contents(ls, rs);
    var sorted := Sort(ls, ByKey());
    if c == [] {
      NothingSeen(c);
    } else {
      LeftsOfContents(ls, rs);
      LeftsLast(c);
      LastIsLeft(ls, rs, ty);
      if c[|c| - 1].left {
        assert Seen(c) == sorted[..|sorted| - 1];
      } else {
        assert Seen(c) == sorted;
      }
    }
  }

  // ---- When the merge is the left outer join ----

  lemma {:induction false} LeftOuterInsert(ls: seq<Entry>, e: Entry, rs: seq<Entry>, width: nat)
    ensures multiset(LeftOuter(Insert(ls, e, ByKey()), rs, width))
            == multiset(LeftOuter(ls, rs, width)) + multiset(OuterRow(e, rs, width))
  {
    hide ByKey, OuterRow;
    if ls == [] || ByKey()(e, ls[0]) {
      LeftOuterCons(e, ls, rs, width);
    } else {
      LeftOuterInsert(ls[1..], e, rs, width);
      LeftOuterCons(ls[0], Insert(ls[1..], e, ByKey()), rs, width);
    }
  }

  lemma {:induction false} LeftOuterSnoc(ls: seq<Entry>, e: Entry, rs: seq<Entry>, width: nat)
    ensures LeftOuter(ls + [e], rs, width) == LeftOuter(ls, rs, width) + OuterRow(e, rs, width)
  {
    hide OuterRow;
    if ls == [] {
      assert ls + [e] == [e] && [e][1..] == [];
    } else {
      LeftOuterSnoc(ls[1..], e, rs, width);
      assert (ls + [e])[1..] == ls[1..] + [e];
    }
  }

  /** The left outer join has the same rows whatever the order of the left table. */
  lemma {:induction false} LeftOuterSort(ls: seq<Entry>, rs: seq<Entry>, width: nat)
    ensures multiset(LeftOuter(Sort(ls, ByKey()), rs, width)) == multiset(LeftOuter(ls, rs, width))
  {
    hide ByKey, OuterRow, LeftOuter;
    if ls != [] {
      var init, e := ls[..|ls| - 1], ls[|ls| - 1];
      LeftOuterSort(init, rs, width);
      LeftOuterInsert(Sort(init, ByKey()), e, rs, width);
      LeftOuterSnoc(init, e, rs, width);
      assert init + [e] == ls;
    }
  }

  /** The left outer join has a row for every left row, more if a left row has several matches. */
  lemma {:induction false} LeftOuterLong(ls: seq<Entry>, rs: seq<Entry>, width: nat)
    ensures |LeftOuter(ls, rs, width)| >= |ls|
    ensures (exists i :: 0 <= i < |ls| && |LoopRow(ls[i], rs)| > 1) ==> |LeftOuter(ls, rs, width)| > |ls|
  {
    hide LoopRow;
    if ls != [] {
      LeftOuterLong(ls[1..], rs, width);
      if i :| 0 <= i < |ls| && |LoopRow(ls[i], rs)| > 1 {
        if i > 0 {
          assert ls[1..][i - 1] == ls[i];
        }
      }
    }
  }

  lemma {:induction false} LoopRowCount(x: Entry, rs: seq<Entry>)
    requires x.left && forall i | 0 <= i < |rs| :: !rs[i].left
    ensures |LoopRow(x, rs)| == Count(rs, false, x)
  {
    hide SameKey;
    if rs != [] {
      LoopRowCount(x, rs[1..]);
    }
  }

  /** The merge emits at most one row for each left entry it looks at, and none for a left entry that
      it joins as if it were a right one. */
  lemma {:induction false} MergeShort(c: seq<Entry>, width: nat)
    ensures |LeftMerge(c, width)| <= |Seen(c)| <= |Lefts(c)|
    ensures (exists i :: 0 <= i && TwoLefts(c, i)) ==> |LeftMerge(c, width)| < |Lefts(c)|
    decreases |c|
  {
    hide SameKey, Seen;
    if |c| >= 2 {
      SeenCons(c);
      MergeShort(c[1..], width);
      if c[0].left && SameKey(c[1], c[0]) {
        SeenCons2(c);
        MergeShort(c[2..], width);
        assert c[1..][1..] == c[2..];
      }
      if i :| 0 <= i && TwoLefts(c, i) {
        if i > 0 {
          assert TwoLefts(c[1..], i - 1);
          if i > 1 {
            assert TwoLefts(c[2..], i - 2);
          }
        }
      }
    } else {
      NothingSeen(c);
    }
  }

  lemma SeenCons2(c: seq<Entry>)
    requires |c| >= 2
    ensures |Seen(c[2..])| <= |Seen(c[1..])|
  {
    if |c| >= 3 {
      SeenCons(c[1..]);
      assert c[1..][1..] == c[2..];
    }
  }

  ghost predicate TwoLefts(c: seq<Entry>, i: int)
    requires 0 <= i
  {
    i + 1 < |c| && c[i].left && c[i + 1].left && SameKey(c[i + 1], c[i])
  }

  /** Two left rows of one key become neighbours in the multimap. */
  lemma TwoLeftsThere(ls: seq<Entry>, rs: seq<Entry>, k: Entry, ty: ValueType) returns (i: nat)
    requires Inputs(ls, rs, ty) && Keyed(ty)(k) && Count(ls, true, k) > 1
    ensures TwoLefts(Contents(ls, rs), i)
  {
    hide Orderly, ByKey, SameKey, Count, Contents;
    var c := Contents(ls, rs);
    ContentsOrder(ls, rs, ty);
    ContentsCount(ls, rs, k, ty);
    var a, b := CountedAt(c, true, k);
    i := a;
    KeyFacts(c[a], k, c[b], ty);
    KeyFacts(c[b], k, c[a], ty);
    Between(c, a, a + 1, b, ty);
    KeyFacts(c[a + 1], c[a], c[b], ty);
    KeyFacts(c[a], k, c[b], ty);
    KeyFacts(k, c[b], c[a], ty);
  }

  /** LEFT JOIN emits the rows of the left outer join, each as often, exactly if every left key is the
      key of one left row only and of one right row at most, and not all right keys are below the
      greatest left key. Otherwise rows are missing. */
  lemma LeftJoinExact(ls: seq<Entry>, rs: seq<Entry>, width: nat, ty: ValueType)
    requires Inputs(ls, rs, ty)
    ensures var out := LeftMerge(Contents(ls, rs), width);
            var good := KeysUnique(ls, rs) && !GreatestIsLeft(ls, rs);
            && (multiset(out) == multiset(LeftOuter(ls, rs, width)) <==> good)
            && (!good ==> |out| < |LeftOuter(ls, rs, width)|)
  {
    hide Orderly, ByKey, SameKey, LeftOuter, LeftMerge, Seen, Contents, LoopRow, GreatestIsLeft, Count;
    var c := Contents(ls, rs);
    MergeShort(c, width);
    LeftOuterLong(ls, rs, width);
    LeftsOfContents(ls, rs);
    SeenOfContents(ls, rs, ty);
    if !KeysUnique(ls, rs) {
      var i :| 0 <= i < |ls| && !(Count(ls, true, ls[i]) <= 1 && Count(rs, false, ls[i]) <= 1);
      LoopRowCount(ls[i], rs);
      if Count(ls, true, ls[i]) > 1 {
        var j := TwoLeftsThere(ls, rs, ls[i], ty);
      }
    } else if GreatestIsLeft(ls, rs) {
      NotEmpty(ls, rs);
    } else {
      LeftJoinOrdered(ls, rs, width, ty);
      LeftOuterSort(ls, rs, width);
    }
    SameLength(LeftMerge(c, width), LeftOuter(ls, rs, width));
  }

  lemma SameLength(s: seq<Tuple>, t: seq<Tuple>)
    ensures multiset(s) == multiset(t) ==> |s| == |t|
  {
    assert |multiset(s)| == |s| && |multiset(t)| == |t|;
  }

  lemma NotEmpty(ls: seq<Entry>, rs: seq<Entry>)
    requires GreatestIsLeft(ls, rs)
    ensures ls != []
  {
  }

  /** Two failing inputs: two left rows of one key are joined with each other, although the right table
      has a row of that key; and the last left row is lost. */
  lemma LeftJoinFails(width: nat)
    ensures var a := Entry(Int(1), true, [Int(1), Int(10)]);
            var b := Entry(Int(1), true, [Int(1), Int(20)]);
            var r := Entry(Int(1), false, [Int(1), Int(30)]);
            && LeftMerge(Contents([a, b], [r]), width) == [a.row + b.row]
            && LeftOuter([a, b], [r], width) == [a.row + r.row, b.row + r.row]
    ensures var a := Entry(Int(1), true, [Int(1), Int(10)]);
            LeftMerge(Contents([a], []), width) == [] && LeftOuter([a], [], width) == [a.row + Nulls(width)]
  {
    hide Nulls;
    var a := Entry(Int(1), true, [Int(1), Int(10)]);
    var b := Entry(Int(1), true, [Int(1), Int(20)]);
    var r := Entry(Int(1), false, [Int(1), Int(30)]);
    SortOne(a);
    SortThree(a, b, r);
    assert [a] + [] == [a] && [a, b] + [r] == [a, b, r];
    LeftOuterCons(a, [b], [r], width);
    LeftOuterCons(b, [], [r], width);
    LeftOuterCons(a, [], [], width);
    assert [a] + [b] == [a, b] && [b] + [] == [b] && [a] + [] == [a];
    assert [r][1..] == [] && LoopRow(a, [r]) == [a.row + r.row] && LoopRow(b, [r]) == [b.row + r.row];
    assert [a, b, r][2..] == [r];
  }
}
