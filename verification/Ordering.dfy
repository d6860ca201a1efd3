/** Comparing values and tuples (db/core/Value.cpp:392-440, db/core/Tuple.cpp:14-35). */
module Ordering {
  import opened Bytes
  import opened Floats
  import opened Values
  import opened StableSorting

  /** A NaN compares with nothing. */
  predicate IsNaN(bits: nat) {
    bits % 0x8000_0000 > 0x7F80_0000
  }

  /** The position of a float among all floats; both zeros have the same. */
  function FloatRank(bits: nat): int {
    if bits < 0x8000_0000 then bits else 0x8000_0000 - bits
  }

  /** Bytewise comparison of strings. */
  predicate BytesLess(s: seq<byte>, t: seq<byte>) {
    if s == [] || t == [] then s == [] && t != []
    else s[0] < t[0] || (s[0] == t[0] && BytesLess(s[1..], t[1..]))
  }

  /** The byte string "null", which a NULL becomes where a string is asked for. */
  const NULL_TEXT: seq<byte> := [110, 117, 108, 108]

  /** Days before the first of March of year `y`, and days from there to the first of a month (counted
      from zero). */
  function DaysToMarch(y: int): int {
    365 * y + y / 4 - y / 100 + y / 400
  }

  function DaysFromMarch(month: int): int
    requires 0 <= month < 12
  {
    [306, 337, 0, 31, 61, 92, 122, 153, 184, 214, 245, 275][month]
  }

  /** Days from 1970-01-01 to the first day of a month of year `y`, in the Gregorian calendar; months
      out of range run over into other years, as with `mktime`. */
  function DaysToMonth(y: int, month: int): int {
    DaysToMarch(y + month / 12 - if month % 12 < 2 then 1 else 0) + DaysFromMarch(month % 12) - 719468
  }

  predicate IsLeap(y: int) {
    y % 4 == 0 && (y % 100 != 0 || y % 400 == 0)
  }

  function MonthLength(y: int, month: int): int {
    if month == 1 then (if IsLeap(y) then 29 else 28)
    else if month == 3 || month == 5 || month == 8 || month == 10 then 30 else 31
  }

  /** Month after month, the days add up to the calendar. */
  lemma CalendarIsRight(y: int, month: int)
    requires 0 <= month < 12
    ensures DaysToMonth(y, month + 1) == DaysToMonth(y, month) + MonthLength(y, month)
    ensures DaysToMonth(y, month + 12) == DaysToMonth(y + 1, month)
  {
    hide DaysToMarch, DaysFromMarch, IsLeap;
    assert month / 12 == 0 && month % 12 == month && (month + 12) / 12 == 1 && (month + 12) % 12 == month;
    MonthsFromMarch(month);
    YearLength(y);
    if month < 11 {
      assert (month + 1) / 12 == 0 && (month + 1) % 12 == month + 1;
    } else {
      assert (month + 1) / 12 == 1 && (month + 1) % 12 == 0;
    }
  }

  lemma MonthsFromMarch(month: int)
    requires 0 <= month < 12
    ensures DaysFromMarch(0) == 306 && DaysFromMarch(1) == 337 && DaysFromMarch(2) == 0
    ensures month == 11 ==> DaysFromMarch(0) == DaysFromMarch(11) + 31
    ensures month != 1 && month < 11 ==> DaysFromMarch(month + 1) == DaysFromMarch(month) + MonthLength(0, month)
  {
  }

  lemma YearLength(y: int)
    ensures DaysToMarch(y) == DaysToMarch(y - 1) + if IsLeap(y) then 366 else 365
  {
    YearAfter(y, 4);
    YearAfter(y, 100);
    YearAfter(y, 400);
    Centuries(y);
  }

  lemma YearAfter(y: int, n: int)
    requires n == 4 || n == 100 || n == 400
    ensures y / n == (y - 1) / n + if y % n == 0 then 1 else 0
  {
  }

  lemma Centuries(y: int)
    ensures (y % 400 == 0 ==> y % 100 == 0) && (y % 100 == 0 ==> y % 4 == 0)
  {
    if y % 100 == 0 {
      assert y == 4 * (25 * (y / 100));
    }
    if y % 400 == 0 {
      assert y == 100 * (4 * (y / 400));
    }
  }

  /** `to_utc_epoch`, on a host whose time zone is UTC. */
  function EpochOf(t: Date): int {
    86400 * (DaysToMonth(t.year, t.month - 1) + t.day - 1) + 3600 * t.hour + 60 * t.min + t.sec
  }

  /** `to_int` of a time fails beyond the greatest C++ `int`; below the least one it wraps around. */
  predicate HasEpoch(t: Date) {
    EpochOf(t) < 0x8000_0000
  }

  function EpochInt(t: Date): int {
    (EpochOf(t) + 0x8000_0000) % 0x1_0000_0000 - 0x8000_0000
  }

  /** The comparisons of `a` with `b` fail: a time has no epoch. */
  predicate CompareFails(a: Value, b: Value) {
    a.Time? && (!HasEpoch(a.t) || (b.Time? && !HasEpoch(b.t)))
  }

  /** `operator==`, for values of one type and NULL; false where it fails. The left value decides: it
      converts a NULL on the right to zero, false or "null", but a NULL on the left equals NULL only. */
  predicate ValueEqual(a: Value, b: Value) {
    match a
    case Null => b.Null?
    case Int(i) => if b.Null? then i == 0 else b.Int? && i == b.i
    case Bool(x) => if b.Null? then !x else b.Bool? && x == b.b
    case Varchar(s) => if b.Null? then s == NULL_TEXT else b.Varchar? && s == b.s
    case Float(bits) => if b.Null? then FloatRank(bits) == 0
        else b.Float? && !IsNaN(bits) && FloatRank(bits) == FloatRank(b.bits)
    case Time(t) => !CompareFails(a, b) && if b.Null? then EpochInt(t) == 0 else b.Time? && EpochInt(t) == EpochInt(b.t)
  }

  /** `operator<`, for values of one type and NULL; false where it fails. */
  predicate ValueLess(a: Value, b: Value) {
    if a.Null? then true
    else if b.Null? then false
    else
      match a
      case Int(i) => b.Int? && i < b.i
      case Bool(x) => b.Bool? && !x && b.b
      case Varchar(s) => b.Varchar? && BytesLess(s, b.s)
      case Float(bits) => b.Float? && !IsNaN(bits) && !IsNaN(b.bits) && FloatRank(bits) < FloatRank(b.bits)
      case Time(t) => b.Time? && !CompareFails(a, b) && EpochInt(t) < EpochInt(b.t)
      case _ => false
  }

  /** A value of a column whose values the order is right for: of the column's type, not NULL, not a
      NaN, not a time without an epoch. */
  predicate Orderly(v: Value, ty: ValueType) {
    HasType(v, ty) && (v.Float? ==> !IsNaN(v.bits)) && (v.Time? ==> HasEpoch(v.t))
  }

  lemma {:induction false} BytesOrder(a: seq<byte>, b: seq<byte>, c: seq<byte>)
    ensures !BytesLess(a, a) && (!BytesLess(a, b) && !BytesLess(b, a) <==> a == b)
    ensures BytesLess(a, b) && BytesLess(b, c) ==> BytesLess(a, c)
    ensures !BytesLess(a, b) && !BytesLess(b, c) ==> !BytesLess(a, c)
    decreases |a| + |b| + |c|
  {
    if a != [] && b != [] && c != [] {
      BytesOrder(a[1..], b[1..], c[1..]);
      assert a == [a[0]] + a[1..] && b == [b[0]] + b[1..];
    } else if a != [] && b != [] {
      BytesOrder(a[1..], b[1..], []);
      assert a == [a[0]] + a[1..] && b == [b[0]] + b[1..];
    } else if a != [] {
      BytesOrder(a[1..], [], []);
    }
  }

  /** On orderly values of one type, `operator<` is a strict weak order and agrees with `operator==`. */
  lemma ValueOrder(a: Value, b: Value, c: Value, ty: ValueType)
    requires Orderly(a, ty) && Orderly(b, ty) && Orderly(c, ty)
    ensures !ValueLess(a, a) && (ValueLess(a, b) ==> !ValueLess(b, a))
    ensures !ValueLess(a, b) && !ValueLess(b, a) <==> ValueEqual(a, b)
    ensures ValueEqual(a, b) <==> ValueEqual(b, a)
    ensures ValueLess(a, b) && ValueLess(b, c) ==> ValueLess(a, c)
    ensures !ValueLess(a, b) && !ValueLess(b, c) ==> !ValueLess(a, c)
  {
    if ty.VarcharType? {
      BytesOrder(a.s, b.s, c.s);
      BytesOrder(a.s, b.s, a.s);
    }
  }

  // ---- What the comparisons mean ----

  /** Integers are compared as numbers; false is below true; a string is below another if it is the
      beginning of it, or has the smaller byte where they differ first. */
  lemma ComparedPlainly(a: Value, b: Value)
    ensures a.Int? && b.Int? ==> (ValueEqual(a, b) <==> a.i == b.i) && (ValueLess(a, b) <==> a.i < b.i)
    ensures a.Bool? && b.Bool? ==> (ValueEqual(a, b) <==> a.b == b.b) && (ValueLess(a, b) <==> !a.b && b.b)
    ensures a.Varchar? && b.Varchar? ==>
              && (ValueEqual(a, b) <==> a.s == b.s)
              && (ValueLess(a, b) <==>
                  exists k: nat :: k <= |a.s| && k < |b.s| && a.s[..k] == b.s[..k]
                                   && (k == |a.s| || a.s[k] < b.s[k]))
  {
    if a.Varchar? && b.Varchar? {
      FirstDifference(a.s, b.s);
    }
  }

  lemma {:induction false} FirstDifference(s: seq<byte>, t: seq<byte>)
    ensures BytesLess(s, t) <==>
            exists k: nat :: k <= |s| && k < |t| && s[..k] == t[..k] && (k == |s| || s[k] < t[k])
  {
    if s != [] && t != [] {
      FirstDifference(s[1..], t[1..]);
      if k: nat :| k <= |s[1..]| && k < |t[1..]| && s[1..][..k] == t[1..][..k]
                   && (k == |s[1..]| || s[1..][k] < t[1..][k]) && s[0] == t[0] {
        assert s[..k + 1] == [s[0]] + s[1..][..k] && t[..k + 1] == [t[0]] + t[1..][..k];
      }
      if k: nat :| k <= |s| && k < |t| && s[..k] == t[..k] && (k == |s| || s[k] < t[k]) {
        if k > 0 {
          assert s[0] == s[..k][0] == t[..k][0] == t[0];
          assert s[1..][..k - 1] == s[..k][1..] == t[..k][1..] == t[1..][..k - 1];
        }
      }
    } else if s == [] && t != [] {
      assert s[..0] == t[..0];
    }
  }

  /** Floats that are numbers are compared as numbers: by their magnitudes if both are positive, the other
      way round if both are negative; zeros are equal, and anything else negative is below anything
      positive. */
  lemma FloatsCompared(x: nat, y: nat)
    requires x < 0x8000_0000 && y < 0x8000_0000 && !IsNaN(x) && !IsNaN(y)
    ensures ValueLess(Float(x), Float(y)) <==> Magnitude(x) < Magnitude(y)
    ensures ValueLess(Float(0x8000_0000 + x), Float(0x8000_0000 + y)) <==> Magnitude(y) < Magnitude(x)
    ensures ValueLess(Float(0x8000_0000 + x), Float(y)) <==> x != 0 || y != 0
    ensures !ValueLess(Float(x), Float(0x8000_0000 + y))
    ensures ValueEqual(Float(x), Float(y)) <==> x == y
    ensures ValueEqual(Float(0x8000_0000 + x), Float(0x8000_0000 + y)) <==> x == y
    ensures ValueEqual(Float(x), Float(0x8000_0000 + y)) <==> x == 0 && y == 0
    ensures ValueEqual(Float(0x8000_0000 + x), Float(y)) <==> x == 0 && y == 0
  {
    hide Magnitude;
    if x < y {
      BitsOrder(x, y);
    } else if y < x {
      BitsOrder(y, x);
    }
    assert (0x8000_0000 + x) % 0x8000_0000 == x && (0x8000_0000 + y) % 0x8000_0000 == y;
  }

  /** Not a number: the exponent has all its bits set, and there is a fraction. It is equal to and below
      nothing. */
  lemma NotANumber(bits: nat, v: Value)
    requires bits < 0x1_0000_0000 && Exponent(bits) == 255 && Fraction(bits) != 0 && !v.Null?
    ensures !ValueEqual(Float(bits), v) && !ValueEqual(v, Float(bits))
    ensures !ValueLess(Float(bits), v) && !ValueLess(v, Float(bits))
  {
    NaNBits(bits);
  }

  lemma NaNBits(bits: nat)
    requires bits < 0x1_0000_0000
    ensures IsNaN(bits) <==> Exponent(bits) == 255 && Fraction(bits) != 0
  {
    var low := bits % 0x8000_0000;
    Unsigned(low);
    assert bits == low || bits == low + 256 * LEAD;
    SameParts(low);
  }

  /** What the order is right for. */
  lemma OrderedValues(v: Value)
    ensures !exists ty :: v.Null? && Orderly(v, ty)
    ensures v.Int? ==> Orderly(v, IntType)
    ensures v.Bool? ==> Orderly(v, BoolType)
    ensures v.Varchar? ==> Orderly(v, VarcharType)
    ensures v.Float? && v.bits < 0x1_0000_0000 && !(Exponent(v.bits) == 255 && Fraction(v.bits) != 0) ==>
              Orderly(v, FloatType)
    ensures v.Time? && EpochOf(v.t) < 0x8000_0000 ==> Orderly(v, TimeType)
  {
    hide EpochOf;
    if v.Float? && v.bits < 0x1_0000_0000 {
      NaNBits(v.bits);
    }
  }

  lemma SameParts(low: nat)
    requires low < 0x8000_0000
    ensures Exponent(low + 256 * LEAD) == Exponent(low) && Fraction(low + 256 * LEAD) == Fraction(low)
  {
    assert (low + 256 * LEAD) / LEAD == low / LEAD + 256;
  }

  /** Times are compared by the second; each unit counts as many seconds as it has. */
  lemma TimesCompared(s: Date, t: Date)
    requires -0x8000_0000 <= EpochOf(s) < 0x8000_0000 && -0x8000_0000 <= EpochOf(t) < 0x8000_0000
    ensures ValueEqual(Time(s), Time(t)) <==> EpochOf(s) == EpochOf(t)
    ensures ValueLess(Time(s), Time(t)) <==> EpochOf(s) < EpochOf(t)
  {
    hide EpochOf;
    InIntRange(s);
    InIntRange(t);
  }

  lemma InIntRange(t: Date)
    requires -0x8000_0000 <= EpochOf(t) < 0x8000_0000
    ensures HasEpoch(t) && EpochInt(t) == EpochOf(t)
  {
    hide EpochOf;
  }

  lemma EpochUnits(t: Date)
    ensures EpochOf(t.(sec := t.sec + 1)) == EpochOf(t) + 1
    ensures EpochOf(t.(min := t.min + 1)) == EpochOf(t) + 60
    ensures EpochOf(t.(hour := t.hour + 1)) == EpochOf(t) + 3600
    ensures EpochOf(t.(day := t.day + 1)) == EpochOf(t) + 86400
    ensures 1 <= t.month <= 12 ==>
              EpochOf(t.(month := t.month + 1)) == EpochOf(t) + 86400 * MonthLength(t.year, t.month - 1)
    ensures 1 <= t.month <= 12 ==> EpochOf(t.(month := t.month + 12)) == EpochOf(t.(year := t.year + 1))
    ensures t == Date(1970, 1, 1, 0, 0, 0) ==> EpochOf(t) == 0
  {
    hide DaysToMonth, MonthLength;
    if 1 <= t.month <= 12 {
      CalendarIsRight(t.year, t.month - 1);
    }
    FirstDay();
  }

  lemma MonthLengths(y: int)
    ensures MonthLength(y, 0) == MonthLength(y, 2) == MonthLength(y, 4) == MonthLength(y, 6) == MonthLength(y, 7) == 31
    ensures MonthLength(y, 9) == MonthLength(y, 11) == 31
    ensures MonthLength(y, 3) == MonthLength(y, 5) == MonthLength(y, 8) == MonthLength(y, 10) == 30
    ensures MonthLength(y, 1) == if y % 4 == 0 && (y % 100 != 0 || y % 400 == 0) then 29 else 28
  {
  }

  /** NULL is below everything and nothing is below it; only NULL is what NULL equals, but zero, false, the
      text "null" and the start of the epoch equal NULL. Comparing fails for times beyond the range of `int`. */
  lemma NullCompared(v: Value)
    ensures ValueLess(Null, v) && (!v.Null? ==> !ValueLess(v, Null))
    ensures ValueEqual(Null, v) <==> v.Null?
    ensures v.Int? ==> (ValueEqual(v, Null) <==> v.i == 0)
    ensures v.Bool? ==> (ValueEqual(v, Null) <==> !v.b)
    ensures v.Varchar? ==> (ValueEqual(v, Null) <==> v.s == [110, 117, 108, 108])
    ensures v.Float? && v.bits < 0x1_0000_0000 ==> (ValueEqual(v, Null) <==> v.bits == 0 || v.bits == 0x8000_0000)
    ensures v.Time? && -0x8000_0000 <= EpochOf(v.t) < 0x8000_0000 ==> (ValueEqual(v, Null) <==> EpochOf(v.t) == 0)
  {
    hide EpochOf;
  }

  lemma FailureMeans(a: Value, b: Value)
    ensures CompareFails(a, b) <==>
            a.Time? && (EpochOf(a.t) >= 0x8000_0000 || (b.Time? && EpochOf(b.t) >= 0x8000_0000))
  {
    hide EpochOf;
  }

  // ---- Tuples ----

  /** A column that rows are compared by: whether it may have NULLs, and the value a NULL equals (zero,
      false, the text "null", the start of the epoch). */
  datatype KeyColumn = KeyColumn(ty: ValueType, nullable: bool, zero: bool)

  predicate Comparable(v: Value, c: KeyColumn) {
    (Orderly(v, c.ty) && (ValueEqual(v, Null) ==> c.zero)) || (c.nullable && v.Null?)
  }

  /** Tuples with a comparable value in every column. */
  predicate OrderlyTuple(t: Tuple, cs: seq<KeyColumn>) {
    |t| == |cs| && forall i | 0 <= i < |t| :: Comparable(t[i], cs[i])
  }

  /** More than one value can occur in the column. */
  predicate Varied(c: KeyColumn) {
    !c.ty.BoolType? || c.nullable || c.zero
  }

  /** In no column in front of a varied one both NULL and the value it equals can occur. */
  predicate Settled(cs: seq<KeyColumn>) {
    forall i, j | 0 <= i < j < |cs| && Varied(cs[j]) :: !(cs[i].nullable && cs[i].zero)
  }

  function ColumnOrNull(t: Tuple, i: nat): Value {
    if i < |t| then t[i] else Null
  }

  /** `operator<` of tuples, from column `i` on; the shorter tuple is filled up with NULLs. */
  predicate TupleLessFrom(a: Tuple, b: Tuple, i: nat)
    decreases (if |a| < |b| then |b| else |a|) - i
  {
    if i >= |a| && i >= |b| then false
    else if ValueEqual(ColumnOrNull(a, i), ColumnOrNull(b, i)) then TupleLessFrom(a, b, i + 1)
    else ValueLess(ColumnOrNull(a, i), ColumnOrNull(b, i))
  }

  /** `operator==` of tuples. */
  predicate TupleEqual(a: Tuple, b: Tuple) {
    |a| == |b| && forall i | 0 <= i < |a| :: ValueEqual(a[i], b[i])
  }

  /** `operator<` of tuples, as its loop. */
  method TupleLess(a: Tuple, b: Tuple) returns (r: bool)
    ensures r == TupleLessFrom(a, b, 0)
  {
    var s := 0;
    while s < |a| || s < |b|
      invariant TupleLessFrom(a, b, 0) == TupleLessFrom(a, b, s)
      decreases (if |a| < |b| then |b| else |a|) - s
    {
      if !ValueEqual(ColumnOrNull(a, s), ColumnOrNull(b, s)) {
        return ValueLess(ColumnOrNull(a, s), ColumnOrNull(b, s));
      }
      s := s + 1;
    }
    return false;
  }

  /** The first column in which two tuples are not equal decides. */
  lemma FirstColumnDecides(a: Tuple, b: Tuple)
    requires |a| == |b|
    ensures TupleLessFrom(a, b, 0) <==>
            exists k: nat :: k < |a| && !ValueEqual(a[k], b[k]) && ValueLess(a[k], b[k])
                             && forall j | 0 <= j < k :: ValueEqual(a[j], b[j])
  {
    DecidesFrom(a, b, 0);
  }

  lemma {:induction false} DecidesFrom(a: Tuple, b: Tuple, i: nat)
    requires i <= |a| == |b|
    ensures TupleLessFrom(a, b, i) <==>
            exists k: nat :: i <= k < |a| && !ValueEqual(a[k], b[k]) && ValueLess(a[k], b[k])
                             && forall j | i <= j < k :: ValueEqual(a[j], b[j])
    decreases |a| - i
  {
    hide ValueEqual, ValueLess;
    if i < |a| {
      DecidesFrom(a, b, i + 1);
    }
  }

  /** A tuple that is shorter is filled up with NULLs. */
  lemma {:induction false} FilledUp(a: Tuple, b: Tuple, i: nat)
    ensures |a| < |b| ==> TupleLessFrom(a, b, i) == TupleLessFrom(a + [Null], b, i)
    ensures |b| < |a| ==> TupleLessFrom(a, b, i) == TupleLessFrom(a, b + [Null], i)
    decreases (if |a| < |b| then |b| else |a|) - i
  {
    hide ValueEqual, ValueLess;
    if i < |a| || i < |b| {
      FilledUp(a, b, i + 1);
    }
  }

  /** ORDER BY: the first column in which two rows are not equal decides, the lower value first where it is
      ascending, the higher value first where it is descending. */
  lemma FirstKeyDecides(a: Tuple, b: Tuple, d: seq<bool>)
    requires |a| == |b| == |d|
    ensures OrderBy(d)(a, b) <==>
            exists k: nat :: k < |a|
              && (if d[k] then !ValueEqual(b[k], a[k]) && ValueLess(b[k], a[k])
                  else !ValueEqual(a[k], b[k]) && ValueLess(a[k], b[k]))
              && forall j | 0 <= j < k :: if d[j] then ValueEqual(b[j], a[j]) else ValueEqual(a[j], b[j])
  {
    hide ValueEqual, ValueLess, TupleLessFrom;
    var x, y := Exchanged(a, b, d), Exchanged(b, a, d);
    FirstColumnDecides(x, y);
    forall k | 0 <= k < |a|
      ensures ValueEqual(x[k], y[k]) <==> if d[k] then ValueEqual(b[k], a[k]) else ValueEqual(a[k], b[k])
      ensures ValueLess(x[k], y[k]) <==> if d[k] then ValueLess(b[k], a[k]) else ValueLess(a[k], b[k])
    {
    }
    if k: nat :| k < |a|
                 && (if d[k] then !ValueEqual(b[k], a[k]) && ValueLess(b[k], a[k])
                     else !ValueEqual(a[k], b[k]) && ValueLess(a[k], b[k]))
                 && (forall j | 0 <= j < k :: if d[j] then ValueEqual(b[j], a[j]) else ValueEqual(a[j], b[j])) {
      assert !ValueEqual(x[k], y[k]) && ValueLess(x[k], y[k]);
      forall j | 0 <= j < k ensures ValueEqual(x[j], y[j]) {
        assert if d[j] then ValueEqual(b[j], a[j]) else ValueEqual(a[j], b[j]);
      }
    }
  }

  /** What ORDER BY compares: the values of the columns to order by, those of descending columns
      exchanged between the two rows. */
  function Exchanged(a: Tuple, b: Tuple, descending: seq<bool>): (r: Tuple)
    requires |a| == |b| == |descending|
    ensures |r| == |a|
  {
    seq(|a|, i requires 0 <= i < |a| => if descending[i] then b[i] else a[i])
  }

  /** The comparator of ORDER BY. */
  predicate OrderLess(a: Tuple, b: Tuple, descending: seq<bool>)
    requires |a| == |b| == |descending|
  {
    TupleLessFrom(Exchanged(a, b, descending), Exchanged(b, a, descending), 0)
  }

  /** Equal, whichever value is asked: NULL is the same as NULL only. */
  predicate Same(a: Value, b: Value) {
    ValueEqual(a, b) && ValueEqual(b, a)
  }

  predicate TupleSame(a: Tuple, b: Tuple) {
    |a| == |b| && forall i | 0 <= i < |a| :: Same(a[i], b[i])
  }

  /** Without NULLs that is what `operator==` says. */
  lemma SameIsEqual(a: Tuple, b: Tuple, cs: seq<KeyColumn>)
    requires OrderlyTuple(a, cs) && OrderlyTuple(b, cs) && forall i | 0 <= i < |cs| :: !a[i].Null? && !b[i].Null?
    ensures TupleSame(a, b) <==> TupleEqual(a, b)
  {
    hide ValueEqual, ValueLess, Orderly;
    forall i | 0 <= i < |cs| ensures Same(a[i], b[i]) <==> ValueEqual(a[i], b[i]) {
      ValueOrder(a[i], b[i], a[i], cs[i].ty);
    }
  }

  /** What decides when the columns in front are equal: NULL is below everything but NULL and the zero it equals. */
  predicate Below(x: Value, y: Value) {
    !ValueEqual(x, y) && ValueLess(x, y)
  }

  predicate ColumnLess(x: Value, y: Value, descending: bool) {
    if descending then Below(y, x) else Below(x, y)
  }

  /** Lexicographic comparison, each column in its own direction. */
  predicate LexLess(a: Tuple, b: Tuple, descending: seq<bool>, i: nat)
    requires |a| == |b| == |descending|
    decreases |a| - i
  {
    if i >= |a| then false
    else if Same(a[i], b[i]) then LexLess(a, b, descending, i + 1)
    else ColumnLess(a[i], b[i], descending[i])
  }

  /** Exchanging values turns the direction of their columns round. */
  lemma {:induction false} ExchangeTurns(a: Tuple, b: Tuple, cs: seq<KeyColumn>, d: seq<bool>, i: nat)
    requires OrderlyTuple(a, cs) && OrderlyTuple(b, cs) && |d| == |cs| && Settled(cs)
    ensures TupleLessFrom(Exchanged(a, b, d), Exchanged(b, a, d), i) == LexLess(a, b, d, i)
    decreases |cs| - i
  {
    hide Comparable, ValueEqual, ValueLess;
    if i < |cs| {
      ExchangeTurns(a, b, cs, d, i + 1);
      if cs[i].nullable && cs[i].zero {
        NothingVaries(Exchanged(a, b, d), Exchanged(b, a, d), cs, i + 1);
      } else {
        EqualBothWays(a[i], b[i], cs[i]);
      }
    }
  }

  lemma EqualBothWays(x: Value, y: Value, c: KeyColumn)
    requires Comparable(x, c) && Comparable(y, c) && !(c.nullable && c.zero)
    ensures ValueEqual(x, y) <==> ValueEqual(y, x)
  {
    hide ValueEqual;
    if !x.Null? && !y.Null? {
      ValueOrder(x, y, x, c.ty);
    } else {
      OnlyNull(x);
      OnlyNull(y);
    }
  }

  lemma OnlyNull(x: Value)
    ensures ValueEqual(Null, x) <==> x.Null?
  {
  }

  /** Columns that do not vary decide nothing. */
  lemma {:induction false} NothingVaries(a: Tuple, b: Tuple, cs: seq<KeyColumn>, i: nat)
    requires OrderlyTuple(a, cs) && OrderlyTuple(b, cs) && forall k | i <= k < |cs| :: !Varied(cs[k])
    ensures !TupleLessFrom(a, b, i)
    decreases |cs| - i
  {
    hide Comparable, ValueEqual, ValueLess;
    if i < |cs| {
      NothingVaries(a, b, cs, i + 1);
      OneValue(a[i], cs[i]);
      OneValue(b[i], cs[i]);
    }
  }

  lemma OneValue(v: Value, c: KeyColumn)
    requires Comparable(v, c) && !Varied(c)
    ensures v == Bool(true) && ValueEqual(v, v)
  {
  }

  /** The order facts about one column of three rows. NULL, if it is allowed, comes first. */
  lemma ColumnOrder(x: Value, y: Value, z: Value, c: KeyColumn, d: bool)
    requires Comparable(x, c) && Comparable(y, c) && Comparable(z, c)
    ensures Same(x, y) <==> !ColumnLess(x, y, d) && !ColumnLess(y, x, d)
    ensures ColumnLess(x, y, d) ==> !ColumnLess(y, x, d)
    ensures ColumnLess(x, y, d) && ColumnLess(y, z, d) ==> ColumnLess(x, z, d)
    ensures !ColumnLess(x, y, d) && !ColumnLess(y, z, d) ==> !ColumnLess(x, z, d)
  {
    hide Comparable, Same, Below;
    BelowOrder(x, y, z, c);
    BelowOrder(z, y, x, c);
  }

  lemma BelowOrder(x: Value, y: Value, z: Value, c: KeyColumn)
    requires Comparable(x, c) && Comparable(y, c) && Comparable(z, c)
    ensures Same(x, y) <==> !Below(x, y) && !Below(y, x)
    ensures Below(x, y) ==> !Below(y, x)
    ensures Below(x, y) && Below(y, z) ==> Below(x, z)
    ensures !Below(x, y) && !Below(y, z) ==> !Below(x, z)
  {
    hide Same, Below, Orderly;
    NullFirst(x, c.ty);
    NullFirst(y, c.ty);
    NullFirst(z, c.ty);
    if !x.Null? && !y.Null? {
      NotNull(x, y, if z.Null? then x else z, c.ty);
    }
  }

  lemma NotNull(x: Value, y: Value, z: Value, ty: ValueType)
    requires Orderly(x, ty) && Orderly(y, ty) && Orderly(z, ty)
    ensures Same(x, y) <==> !Below(x, y) && !Below(y, x)
    ensures Below(x, y) ==> !Below(y, x)
    ensures Below(x, y) && Below(y, z) ==> Below(x, z)
    ensures !Below(x, y) && !Below(y, z) ==> !Below(x, z)
  {
    hide ValueEqual, ValueLess, Orderly;
    ValueOrder(x, y, z, ty);
    ValueOrder(y, z, x, ty);
    ValueOrder(x, z, y, ty);
  }

  lemma NullFirst(x: Value, ty: ValueType)
    requires Orderly(x, ty) || x.Null?
    ensures !Below(x, Null) && (Below(Null, x) <==> !x.Null?) && (Same(Null, x) <==> x.Null?)
    ensures Same(x, Null) <==> x.Null?
  {
  }

  /** The order facts about three rows, by induction over the columns. */
  lemma {:induction false} LexOrder(a: Tuple, b: Tuple, c: Tuple, cs: seq<KeyColumn>, d: seq<bool>, i: nat)
    requires OrderlyTuple(a, cs) && OrderlyTuple(b, cs) && OrderlyTuple(c, cs) && |d| == |cs| && i <= |cs|
    ensures !LexLess(a, b, d, i) && !LexLess(b, a, d, i) <==> forall k | i <= k < |a| :: Same(a[k], b[k])
    ensures LexLess(a, b, d, i) ==> !LexLess(b, a, d, i)
    ensures LexLess(a, b, d, i) && LexLess(b, c, d, i) ==> LexLess(a, c, d, i)
    ensures !LexLess(a, b, d, i) && !LexLess(b, c, d, i) ==> !LexLess(a, c, d, i)
    decreases |cs| - i
  {
    hide Comparable, Same, ColumnLess;
    if i < |cs| {
      LexOrder(a, b, c, cs, d, i + 1);
      var x, y, z := a[i], b[i], c[i];
      ColumnOrder(x, y, z, cs[i], d[i]);
      ColumnOrder(y, z, x, cs[i], d[i]);
      ColumnOrder(z, x, y, cs[i], d[i]);
      ColumnOrder(y, x, z, cs[i], d[i]);
      ColumnOrder(z, y, x, cs[i], d[i]);
      ColumnOrder(x, z, y, cs[i], d[i]);
    }
  }

  // ---- The two orders on tuples ----

  function OrderBy(descending: seq<bool>): (Tuple, Tuple) -> bool {
    (a, b) => |a| == |b| == |descending| && OrderLess(a, b, descending)
  }

  function Tuples(cs: seq<KeyColumn>): Tuple -> bool {
    t => OrderlyTuple(t, cs)
  }

  /** The comparator of ORDER BY is a strict weak order on the rows with comparable values in the
      columns to order by exactly if in no column in front of a varied one both NULL and the value it
      equals can occur, whatever the directions. */
  lemma OrderByIsOrder(cs: seq<KeyColumn>, d: seq<bool>)
    requires |d| == |cs|
    ensures StrictWeakOrder(OrderBy(d), Tuples(cs)) <==> Settled(cs)
  {
    hide OrderlyTuple, OrderBy, Settled;
    if Settled(cs) {
      forall a, b, c | Tuples(cs)(a) && Tuples(cs)(b) && Tuples(cs)(c)
        ensures !OrderBy(d)(a, a)
        ensures OrderBy(d)(a, b) && OrderBy(d)(b, c) ==> OrderBy(d)(a, c)
        ensures !OrderBy(d)(a, b) && !OrderBy(d)(b, c) ==> !OrderBy(d)(a, c)
      {
        OrderByFacts(a, b, c, cs, d);
        OrderByFacts(a, a, a, cs, d);
      }
    } else {
      var a, b := BothLess(cs, d);
      assert Tuples(cs)(a) && Tuples(cs)(b);
    }
  }

  lemma OrderByFacts(a: Tuple, b: Tuple, c: Tuple, cs: seq<KeyColumn>, d: seq<bool>)
    requires OrderlyTuple(a, cs) && OrderlyTuple(b, cs) && OrderlyTuple(c, cs) && |d| == |cs| && Settled(cs)
    ensures OrderBy(d)(a, b) ==> !OrderBy(d)(b, a)
    ensures Equivalent(OrderBy(d), a, b) <==> TupleSame(a, b)
    ensures OrderBy(d)(a, b) && OrderBy(d)(b, c) ==> OrderBy(d)(a, c)
    ensures !OrderBy(d)(a, b) && !OrderBy(d)(b, c) ==> !OrderBy(d)(a, c)
  {
    hide TupleLessFrom, LexLess, Same, Exchanged, Comparable, Settled;
    ExchangeTurns(a, b, cs, d, 0);
    ExchangeTurns(b, a, cs, d, 0);
    ExchangeTurns(b, c, cs, d, 0);
    ExchangeTurns(a, c, cs, d, 0);
    LexOrder(a, b, c, cs, d, 0);
  }

  /** The value a NULL equals, and two above it. */
  function Low(ty: ValueType): Value {
    match ty
    case IntType => Int(0)
    case FloatType => Float(0)
    case VarcharType => Varchar(NULL_TEXT)
    case BoolType => Bool(false)
    case TimeType => Time(Date(1970, 1, 1, 0, 0, 0))
  }

  function High(ty: ValueType): Value {
    match ty
    case IntType => Int(1)
    case FloatType => Float(1)
    case VarcharType => Varchar(NULL_TEXT + [0])
    case BoolType => Bool(true)
    case TimeType => Time(Date(1970, 1, 1, 0, 0, 1))
  }

  /** There is none for BOOL. */
  function Higher(ty: ValueType): Value {
    match ty
    case IntType => Int(2)
    case FloatType => Float(2)
    case VarcharType => Varchar(NULL_TEXT + [0] + [0])
    case BoolType => Bool(true)
    case TimeType => Time(Date(1970, 1, 1, 0, 0, 2))
  }

  lemma LowIsNull(ty: ValueType)
    ensures Orderly(Low(ty), ty) && Orderly(High(ty), ty)
    ensures ValueEqual(Low(ty), Null) && !ValueEqual(Null, Low(ty))
    ensures ValueEqual(High(ty), High(ty)) && !ValueEqual(High(ty), Null)
    ensures !ValueEqual(Low(ty), High(ty)) && ValueLess(Low(ty), High(ty))
  {
    hide BytesLess, EpochOf, EpochInt, HasEpoch, NULL_TEXT;
    TextBelow(NULL_TEXT, 0);
    assert |NULL_TEXT| < |NULL_TEXT + [0]|;
    EpochStart(Date(1970, 1, 1, 0, 0, 0));
    EpochStart(Date(1970, 1, 1, 0, 0, 1));
  }

  lemma HigherIsAbove(ty: ValueType)
    requires !ty.BoolType?
    ensures Orderly(Higher(ty), ty) && !ValueEqual(Higher(ty), Null)
    ensures !ValueEqual(High(ty), Higher(ty)) && ValueLess(High(ty), Higher(ty))
  {
    hide BytesLess, EpochOf, EpochInt, HasEpoch, NULL_TEXT;
    TextBelow(NULL_TEXT + [0], 0);
    assert |NULL_TEXT| < |NULL_TEXT + [0]| < |NULL_TEXT + [0] + [0]|;
    EpochStart(Date(1970, 1, 1, 0, 0, 1));
    EpochStart(Date(1970, 1, 1, 0, 0, 2));
  }

  /** Two values of a varied column, the lower one first. */
  function TwoValues(c: KeyColumn): (Value, Value) {
    if c.zero then (Low(c.ty), High(c.ty))
    else if c.ty.BoolType? then (Null, High(c.ty))
    else (High(c.ty), Higher(c.ty))
  }

  lemma TwoValuesDiffer(c: KeyColumn)
    requires Varied(c)
    ensures Comparable(TwoValues(c).0, c) && Comparable(TwoValues(c).1, c)
    ensures !ValueEqual(TwoValues(c).0, TwoValues(c).1) && ValueLess(TwoValues(c).0, TwoValues(c).1)
  {
    hide ValueEqual, ValueLess, Orderly, Low, High, Higher;
    LowIsNull(c.ty);
    OnlyNull(High(c.ty));
    NullIsLess(High(c.ty));
    NotNullItself(High(c.ty), c.ty);
    if !c.ty.BoolType? {
      HigherIsAbove(c.ty);
    }
  }

  lemma NotNullItself(v: Value, ty: ValueType)
    requires Orderly(v, ty)
    ensures !v.Null?
  {
  }

  lemma EpochStart(t: Date)
    requires t.year == 1970 && t.month == 1 && t.day == 1 && t.hour == 0 && t.min == 0 && 0 <= t.sec < 3
    ensures HasEpoch(t) && EpochInt(t) == t.sec
  {
    hide DaysToMonth;
    FirstDay();
  }

  lemma FirstDay()
    ensures DaysToMonth(1970, 0) == 0
  {
    assert 1969 / 4 == 492 && 1969 / 100 == 19 && 1969 / 400 == 4;
    MonthsFromMarch(0);
  }

  lemma {:induction false} TextBelow(s: seq<byte>, b: byte)
    ensures BytesLess(s, s + [b])
  {
    if s != [] {
      TextBelow(s[1..], b);
      assert (s + [b])[1..] == s[1..] + [b];
    }
  }

  /** Otherwise two rows can each be below the other: zero equals NULL, and a later column decides; but
      NULL does not equal zero, and is below it. */
  lemma BothLess(cs: seq<KeyColumn>, d: seq<bool>) returns (a: Tuple, b: Tuple)
    requires |d| == |cs| && !Settled(cs)
    ensures OrderlyTuple(a, cs) && OrderlyTuple(b, cs)
    ensures OrderBy(d)(a, b) && OrderBy(d)(b, a)
  {
    hide ValueEqual, ValueLess, Orderly, Low, High, TwoValues, TupleLessFrom;
    var i: nat, j: nat :| i < j < |cs| && Varied(cs[j]) && cs[i].nullable && cs[i].zero;
    var highs := seq(|cs|, k requires 0 <= k < |cs| => High(cs[k].ty));
    var zero := Low(cs[i].ty);
    var (low, high) := TwoValues(cs[j]);
    a := highs[i := if d[i] then zero else Null][j := if d[j] then low else high];
    b := highs[i := if d[i] then Null else zero][j := if d[j] then high else low];
    TwoValuesDiffer(cs[j]);
    forall k | 0 <= k < |cs| ensures Comparable(a[k], cs[k]) && Comparable(b[k], cs[k]) {
      LowIsNull(cs[k].ty);
    }
    var x, y := Exchanged(a, b, d), Exchanged(b, a, d);
    forall k | 0 <= k < |cs| && k != i && k != j ensures ValueEqual(x[k], y[k]) && ValueEqual(y[k], x[k]) {
      LowIsNull(cs[k].ty);
    }
    LowIsNull(cs[i].ty);
    assert x[i] == Null && y[i] == zero && y[j] == low && x[j] == high;
    LessBothWays(x, y, i, j);
  }

  lemma LessBothWays(x: Tuple, y: Tuple, i: nat, j: nat)
    requires i < j < |x| == |y|
    requires forall k | 0 <= k < |x| && k != i && k != j :: ValueEqual(x[k], y[k]) && ValueEqual(y[k], x[k])
    requires x[i].Null? && !ValueEqual(x[i], y[i]) && ValueEqual(y[i], x[i])
    requires !ValueEqual(y[j], x[j]) && ValueLess(y[j], x[j])
    ensures TupleLessFrom(x, y, 0) && TupleLessFrom(y, x, 0)
  {
    hide ValueEqual, ValueLess;
    NullIsLess(y[i]);
    SkipEqual(x, y, 0, i);
    SkipEqual(y, x, 0, i);
    SkipEqual(y, x, i + 1, j);
  }

  lemma NullIsLess(v: Value)
    ensures ValueLess(Null, v)
  {
  }

  /** Equal columns do not matter. */
  lemma {:induction false} SkipEqual(a: Tuple, b: Tuple, i: nat, j: nat)
    requires i <= j <= |a| == |b| && forall k | i <= k < j :: ValueEqual(a[k], b[k])
    ensures TupleLessFrom(a, b, i) == TupleLessFrom(a, b, j)
  {
    hide ValueEqual, ValueLess;
    if i < j {
      SkipEqual(a, b, i, j - 1);
    }
  }

  function Ascending(n: nat): seq<bool> {
    seq(n, i => false)
  }

  /** The order of tuples, which GROUP BY keeps its groups in. */
  function Less(): (Tuple, Tuple) -> bool {
    (a, b) => TupleLessFrom(a, b, 0)
  }

  /** `operator<` of tuples is ORDER BY with all columns ascending: a strict weak order exactly if
      in no column in front of a varied one both NULL and the value it equals can occur. Then tuples are
      equivalent if all their values are the same. */
  lemma LessIsOrder(cs: seq<KeyColumn>)
    ensures StrictWeakOrder(Less(), Tuples(cs)) <==> Settled(cs)
    ensures Settled(cs) ==>
              forall a, b | OrderlyTuple(a, cs) && OrderlyTuple(b, cs) :: Equivalent(Less(), a, b) <==> TupleSame(a, b)
  {
    hide OrderlyTuple, TupleLessFrom, TupleSame, Settled;
    var d := Ascending(|cs|);
    OrderByIsOrder(cs, d);
    forall a, b | Tuples(cs)(a) && Tuples(cs)(b)
      ensures Less()(a, b) == OrderBy(d)(a, b)
      ensures Settled(cs) ==> (Equivalent(OrderBy(d), a, b) <==> TupleSame(a, b))
    {
      NothingExchanged(a, b, cs);
      if Settled(cs) {
        OrderByFacts(a, b, a, cs, d);
      }
    }
    SameOrder(Less(), OrderBy(d), Tuples(cs));
  }

  lemma SameOrder(lt: (Tuple, Tuple) -> bool, lt': (Tuple, Tuple) -> bool, p: Tuple -> bool)
    requires forall a, b | p(a) && p(b) :: lt(a, b) == lt'(a, b)
    ensures StrictWeakOrder(lt, p) <==> StrictWeakOrder(lt', p)
  {
  }

  lemma NothingExchanged(a: Tuple, b: Tuple, cs: seq<KeyColumn>)
    requires OrderlyTuple(a, cs) && OrderlyTuple(b, cs)
    ensures |a| == |cs| == |b| && Exchanged(a, b, Ascending(|cs|)) == a && Exchanged(b, a, Ascending(|cs|)) == b
  {
  }
}
