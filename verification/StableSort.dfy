/** Stable sorting by a strict weak order: what `std::stable_sort` and insertion into a
    `std::multimap` give. */
module StableSorting {
  /** `lt` is a strict weak order on the values that satisfy `p`. */
  ghost predicate StrictWeakOrder<T(!new)>(lt: (T, T) -> bool, p: T -> bool) {
    && (forall x | p(x) :: !lt(x, x))
    && (forall x, y, z | p(x) && p(y) && p(z) && lt(x, y) && lt(y, z) :: lt(x, z))
    && (forall x, y, z | p(x) && p(y) && p(z) && !lt(x, y) && !lt(y, z) :: !lt(x, z))
  }

  ghost predicate All<T>(s: seq<T>, p: T -> bool) {
    forall i | 0 <= i < |s| :: p(s[i])
  }

  predicate Equivalent<T>(lt: (T, T) -> bool, x: T, y: T) {
    !lt(x, y) && !lt(y, x)
  }

  ghost predicate Sorted<T>(s: seq<T>, lt: (T, T) -> bool) {
    forall i, j | 0 <= i < j < |s| :: !lt(s[j], s[i])
  }

  /** The elements equivalent to `k`, in order. */
  ghost function Class<T>(s: seq<T>, lt: (T, T) -> bool, k: T): seq<T> {
    if s == [] then [] else (if Equivalent(lt, s[0], k) then [s[0]] else []) + Class(s[1..], lt, k)
  }

  /** The elements of `s` in ascending order, those that are equivalent in their original order. */
  ghost predicate IsStableSort<T(!new)>(r: seq<T>, s: seq<T>, lt: (T, T) -> bool, p: T -> bool) {
    All(r, p) && Sorted(r, lt) && forall k | p(k) :: Class(r, lt, k) == Class(s, lt, k)
  }

  /** Behind everything that is not greater. */
  function Insert<T>(s: seq<T>, x: T, lt: (T, T) -> bool): (r: seq<T>)
    ensures |r| == |s| + 1
  {
    if s == [] || lt(x, s[0]) then [x] + s else [s[0]] + Insert(s[1..], x, lt)
  }

  function Sort<T>(s: seq<T>, lt: (T, T) -> bool): (r: seq<T>)
    ensures |r| == |s|
  {
    if s == [] then [] else Insert(Sort(s[..|s| - 1], lt), s[|s| - 1], lt)
  }

  lemma {:induction false} InsertMembers<T>(s: seq<T>, x: T, lt: (T, T) -> bool)
    ensures multiset(Insert(s, x, lt)) == multiset(s) + multiset{x}
  {
    if !(s == [] || lt(x, s[0])) {
      InsertMembers(s[1..], x, lt);
      assert s == [s[0]] + s[1..];
    }
  }

  lemma {:induction false} SortMembers<T>(s: seq<T>, lt: (T, T) -> bool)
    ensures multiset(Sort(s, lt)) == multiset(s)
  {
    if s != [] {
      SortMembers(s[..|s| - 1], lt);
      InsertMembers(Sort(s[..|s| - 1], lt), s[|s| - 1], lt);
      assert s == s[..|s| - 1] + [s[|s| - 1]];
    }
  }

  /** The order facts about three values. */
  lemma Order<T(!new)>(lt: (T, T) -> bool, p: T -> bool, x: T, y: T, z: T)
    requires StrictWeakOrder(lt, p) && p(x) && p(y) && p(z)
    ensures !lt(x, x) && (lt(x, y) ==> !lt(y, x))
    ensures lt(x, y) && lt(y, z) ==> lt(x, z)
    ensures !lt(x, y) && !lt(y, z) ==> !lt(x, z)
    ensures lt(x, y) && !lt(z, y) ==> lt(x, z) && !lt(z, x)
    ensures Equivalent(lt, x, y) && Equivalent(lt, y, z) ==> Equivalent(lt, x, z)
  {
  }

  lemma {:induction false} InsertSorts<T(!new)>(s: seq<T>, x: T, lt: (T, T) -> bool, p: T -> bool)
    requires StrictWeakOrder(lt, p) && All(s, p) && p(x) && Sorted(s, lt)
    ensures All(Insert(s, x, lt), p) && Sorted(Insert(s, x, lt), lt)
  {
    hide StrictWeakOrder;
    if s == [] {
    } else if lt(x, s[0]) {
      forall j | 0 <= j < |s| ensures !lt(s[j], x) {
        Order(lt, p, x, s[0], s[j]);
        Order(lt, p, s[0], s[0], s[j]);
      }
    } else {
      InsertSorts(s[1..], x, lt, p);
      var rest := Insert(s[1..], x, lt);
      InsertMembers(s[1..], x, lt);
      forall j | 0 <= j < |rest| ensures !lt(rest[j], s[0]) {
        assert rest[j] in multiset(rest);
        assert rest[j] == x || rest[j] in s[1..];
      }
    }
  }

  lemma {:induction false} InsertClass<T(!new)>(s: seq<T>, x: T, lt: (T, T) -> bool, p: T -> bool, k: T)
    requires StrictWeakOrder(lt, p) && All(s, p) && p(x) && p(k) && Sorted(s, lt)
    ensures Class(Insert(s, x, lt), lt, k) == Class(s, lt, k) + if Equivalent(lt, x, k) then [x] else []
  {
    hide StrictWeakOrder, Class;
    if s == [] || lt(x, s[0]) {
      ClassCons(x, s, lt, k);
      if s == [] {
        EmptyClass(s, lt, k);
      } else if Equivalent(lt, x, k) {
        AllGreater(s, x, lt, p, k);
      }
    } else {
      InsertClass(s[1..], x, lt, p, k);
      ClassCons(s[0], Insert(s[1..], x, lt), lt, k);
      ClassCons(s[0], s[1..], lt, k);
      assert [s[0]] + s[1..] == s;
    }
  }

  lemma ClassCons<T>(x: T, s: seq<T>, lt: (T, T) -> bool, k: T)
    ensures Class([x] + s, lt, k) == (if Equivalent(lt, x, k) then [x] else []) + Class(s, lt, k)
  {
    assert ([x] + s)[1..] == s;
  }

  lemma AllGreater<T(!new)>(s: seq<T>, x: T, lt: (T, T) -> bool, p: T -> bool, k: T)
    requires StrictWeakOrder(lt, p) && All(s, p) && p(x) && p(k) && Sorted(s, lt)
    requires s != [] && lt(x, s[0]) && Equivalent(lt, x, k)
    ensures Class(s, lt, k) == []
  {
    hide StrictWeakOrder, Class;
    forall j | 0 <= j < |s| ensures !Equivalent(lt, s[j], k) {
      Order(lt, p, x, s[0], s[j]);
      Order(lt, p, s[0], s[0], s[j]);
      Order(lt, p, s[j], k, x);
    }
    EmptyClass(s, lt, k);
  }

  lemma {:induction false} EmptyClass<T>(s: seq<T>, lt: (T, T) -> bool, k: T)
    requires forall j | 0 <= j < |s| :: !Equivalent(lt, s[j], k)
    ensures Class(s, lt, k) == []
  {
    if s != [] {
      EmptyClass(s[1..], lt, k);
    }
  }

  lemma {:induction false} ClassSnoc<T>(s: seq<T>, x: T, lt: (T, T) -> bool, k: T)
    ensures Class(s + [x], lt, k) == Class(s, lt, k) + if Equivalent(lt, x, k) then [x] else []
  {
    if s == [] {
      assert [x][1..] == [] && s + [x] == [x];
    } else {
      ClassSnoc(s[1..], x, lt, k);
      assert (s + [x])[1..] == s[1..] + [x];
    }
  }

  /** `Sort` is a stable sort. */
  lemma {:induction false} SortIsStable<T(!new)>(s: seq<T>, lt: (T, T) -> bool, p: T -> bool)
    requires StrictWeakOrder(lt, p) && All(s, p)
    ensures IsStableSort(Sort(s, lt), s, lt, p)
  {
    hide StrictWeakOrder;
    if s != [] {
      var init, x := s[..|s| - 1], s[|s| - 1];
      SortIsStable(init, lt, p);
      InsertSorts(Sort(init, lt), x, lt, p);
      forall k | p(k) ensures Class(Sort(s, lt), lt, k) == Class(s, lt, k) {
        InsertClass(Sort(init, lt), x, lt, p, k);
        ClassSnoc(init, x, lt, k);
        assert init + [x] == s;
      }
    }
  }

  /** There is only one stable sort. */
  lemma {:induction false} StableSortIsUnique<T(!new)>(r: seq<T>, t: seq<T>, lt: (T, T) -> bool, p: T -> bool)
    requires StrictWeakOrder(lt, p) && All(r, p) && All(t, p) && Sorted(r, lt) && Sorted(t, lt)
    requires forall k | p(k) :: Class(r, lt, k) == Class(t, lt, k)
    ensures r == t
  {
    hide StrictWeakOrder, Class;
    if r == [] || t == [] {
      SameEmptiness(r, t, lt, p);
      SameEmptiness(t, r, lt, p);
    } else {
      HeadIsFirst(r, t, lt, p);
      forall k | p(k) ensures Class(r[1..], lt, k) == Class(t[1..], lt, k) {
        TailClass(r, t, lt, k);
      }
      StableSortIsUnique(r[1..], t[1..], lt, p);
    }
  }

  lemma TailClass<T(!new)>(r: seq<T>, t: seq<T>, lt: (T, T) -> bool, k: T)
    requires r != [] && t != [] && r[0] == t[0] && Class(r, lt, k) == Class(t, lt, k)
    ensures Class(r[1..], lt, k) == Class(t[1..], lt, k)
  {
    var c := if Equivalent(lt, r[0], k) then [r[0]] else [];
    assert Class(r, lt, k)[|c|..] == Class(r[1..], lt, k);
    assert Class(t, lt, k)[|c|..] == Class(t[1..], lt, k);
  }

  lemma SameEmptiness<T(!new)>(r: seq<T>, t: seq<T>, lt: (T, T) -> bool, p: T -> bool)
    requires StrictWeakOrder(lt, p) && All(r, p)
    requires forall k | p(k) :: Class(r, lt, k) == Class(t, lt, k)
    ensures t == [] ==> r == []
  {
    hide StrictWeakOrder;
    if r != [] {
      Order(lt, p, r[0], r[0], r[0]);
      assert Class(r, lt, r[0]) != [];
      assert Class(t, lt, r[0]) != [];
    }
  }

  lemma HeadIsFirst<T(!new)>(r: seq<T>, t: seq<T>, lt: (T, T) -> bool, p: T -> bool)
    requires StrictWeakOrder(lt, p) && All(r, p) && All(t, p) && Sorted(r, lt) && Sorted(t, lt) && r != [] && t != []
    requires forall k | p(k) :: Class(r, lt, k) == Class(t, lt, k)
    ensures r[0] == t[0]
  {
    hide StrictWeakOrder, Class;
    var x, y := r[0], t[0];
    Order(lt, p, x, x, x);
    Order(lt, p, y, y, y);
    ClassHead(r, lt, x);
    ClassHead(t, lt, y);
    assert Class(r, lt, x) == Class(t, lt, x);
    assert Class(r, lt, y) == Class(t, lt, y);
    InClass(t, lt, x, x);
    InClass(r, lt, y, y);
    ClassHead(t, lt, x);
  }

  lemma ClassHead<T>(s: seq<T>, lt: (T, T) -> bool, k: T)
    requires s != []
    ensures Equivalent(lt, s[0], k) ==> Class(s, lt, k) != [] && Class(s, lt, k)[0] == s[0]
  {
  }

  lemma {:induction false} InClass<T>(s: seq<T>, lt: (T, T) -> bool, k: T, x: T)
    requires x in Class(s, lt, k)
    ensures x in s
  {
    if s != [] && !(Equivalent(lt, s[0], k) && x == s[0]) {
      InClass(s[1..], lt, k, x);
    }
  }
}
