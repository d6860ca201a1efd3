/** The packed row: per column an optional null flag followed by a fixed-size value
    (db/storage/edb/Serializer.cpp:26-56, db/storage/edb/EDBRelationIterator.cpp:78-114,
    db/storage/edb/EDBFile.cpp:476-485). */
module RowCodec {
  import opened Bytes
  import opened Blocks
  import opened Floats
  import opened Values

  /** A stored value before varchars are looked up in the heap. */
  datatype Field =
    | NullField
    | IntField(n: nat)
    | FloatField(bits: nat)
    | SpanField(span: Span)
    | BoolField(b: bool)
    | DateField(year: nat, month: nat, day: nat)

  /** The bytes of a stored default value: a union over the types of values. */
  type Union = s: seq<byte> | |s| == 16 witness Zeros(16)

  /** The stored column definition; `default` is the stored default value, if there is one. */
  datatype Column = Column(name: Span, ty: ValueType, autoIncrement: bool, unique: bool, notNull: bool,
                           hasDefault: bool, default: Union)

  function ValueSize(t: ValueType): nat {
    match t
    case IntType => 4
    case FloatType => 4
    case VarcharType => 16
    case BoolType => 1
    case TimeType => 4
  }

  function Width(c: Column): nat {
    (if c.notNull then 0 else 1) + ValueSize(c.ty)
  }

  function RowSize(cs: seq<Column>): nat {
    if cs == [] then 0 else Width(cs[0]) + RowSize(cs[1..])
  }

  function EncodeSpan(sp: Span): (s: seq<byte>)
    ensures |s| == 16
  {
    LE(sp.ptr.block, 4) + LE(sp.ptr.off, 4) + LE(sp.size, 8)
  }

  function DecodeSpan(s: seq<byte>): Span
    requires |s| == 16
  {
    Span(Ptr(Val(s[..4]), Val(s[4..8])), Val(s[8..]))
  }

  function DecodePtr(s: seq<byte>): Ptr
    requires |s| == 8
  {
    Ptr(Val(s[..4]), Val(s[4..]))
  }

  function EncodePtr(p: Ptr): (s: seq<byte>)
    ensures |s| == 8
  {
    LE(p.block, 4) + LE(p.off, 4)
  }

  lemma PtrRoundTrip(p: Ptr)
    requires p.Encodable()
    ensures DecodePtr(EncodePtr(p)) == p
  {
    Widths();
    ValLE(p.block, 4);
    ValLE(p.off, 4);
    var s := EncodePtr(p);
    assert s[..4] == LE(p.block, 4);
    assert s[4..] == LE(p.off, 4);
  }

  lemma SpanRoundTrip(sp: Span)
    requires sp.ptr.Encodable() && sp.size < U64_LIMIT
    ensures DecodeSpan(EncodeSpan(sp)) == sp
  {
    Widths();
    ValLE(sp.ptr.block, 4);
    ValLE(sp.ptr.off, 4);
    ValLE(sp.size, 8);
    var s := EncodeSpan(sp);
    assert s[..4] == LE(sp.ptr.block, 4);
    assert s[4..8] == LE(sp.ptr.off, 4);
    assert s[8..] == LE(sp.size, 8);
  }

  /** A field a column can hold: of its type, in range, null only where null is allowed. */
  predicate FieldOk(c: Column, f: Field) {
    match f
    case NullField => !c.notNull
    case IntField(n) => c.ty == IntType && n < U32_LIMIT
    case FloatField(bits) => c.ty == FloatType && bits < U32_LIMIT
    case SpanField(sp) => c.ty == VarcharType && sp.ptr.Encodable() && sp.size < U64_LIMIT
    case BoolField(_) => c.ty == BoolType
    case DateField(y, m, d) => c.ty == TimeType && y < 0x1_0000 && m < 256 && d < 256
  }

  ghost predicate FieldsOk(cs: seq<Column>, fs: seq<Field>) {
    |cs| == |fs| && forall i | 0 <= i < |cs| :: FieldOk(cs[i], fs[i])
  }

  /** The bytes of a non-null value; a null is stored as the zero of its column's type. */
  function EncodeValue(t: ValueType, f: Field): (s: seq<byte>)
    ensures f.NullField? ==> |s| == ValueSize(t)
  {
    match f
    case NullField => Zeros(ValueSize(t))
    case IntField(n) => LE(n, 4)
    case FloatField(bits) => LE(bits, 4)
    case SpanField(sp) => EncodeSpan(sp)
    case BoolField(b) => [if b then 1 else 0]
    case DateField(y, m, d) => LE(y, 2) + LE(m, 1) + LE(d, 1)
  }

  function DecodeValue(t: ValueType, s: seq<byte>): Field
    requires |s| == ValueSize(t)
  {
    match t
    case IntType => IntField(Val(s))
    case FloatType => FloatField(Val(s))
    case VarcharType => SpanField(DecodeSpan(s))
    case BoolType => BoolField(s[0] != 0)
    case TimeType => DateField(Val(s[..2]), Val(s[2..3]), Val(s[3..]))
  }

  /** A union to which the field was written; its other bytes are taken to be zero. */
  function UnionOf(f: Field): Union {
    match f
    case NullField => Zeros(16)
    case IntField(n) => LE(n, 4) + Zeros(12)
    case FloatField(bits) => LE(bits, 4) + Zeros(12)
    case SpanField(sp) => EncodeSpan(sp)
    case BoolField(b) => [if b then 1 else 0] + Zeros(15)
    case DateField(y, m, d) => LE(y, 2) + LE(m, 1) + LE(d, 1) + Zeros(12)
  }

  /** The default value, read by the type of its column, whatever was written to the union. An integer in
      the union is converted to a float. */
  function DefaultOf(c: Column): Field {
    if !c.hasDefault then NullField
    else if c.ty.FloatType? then FloatField(Rounded(Val(c.default[..4])))
    else DecodeValue(c.ty, c.default[..ValueSize(c.ty)])
  }

  /** A field that was written to the union is read back by a column of its type. */
  lemma UnionRoundTrip(c: Column, f: Field)
    requires FieldOk(c, f) && !f.NullField? && !f.FloatField? && c.hasDefault && c.default == UnionOf(f)
    ensures DefaultOf(c) == f
  {
    hide LE, Val, EncodeSpan, DecodeSpan;
    ValueRoundTrip(c, f);
    assert c.default[..ValueSize(c.ty)] == EncodeValue(c.ty, f);
  }

  function EncodeField(c: Column, f: Field): (s: seq<byte>)
    requires FieldOk(c, f)
    ensures |s| == Width(c)
  {
    (if c.notNull then [] else [if f.NullField? then 1 else 0 as byte]) + EncodeValue(c.ty, f)
  }

  function DecodeField(c: Column, s: seq<byte>): Field
    requires |s| == Width(c)
  {
    if c.notNull then DecodeValue(c.ty, s)
    else if s[0] != 0 then NullField
    else DecodeValue(c.ty, s[1..])
  }

  lemma FieldRoundTrip(c: Column, f: Field)
    requires FieldOk(c, f)
    ensures DecodeField(c, EncodeField(c, f)) == f
  {
    var s := EncodeField(c, f);
    if !c.notNull {
      assert s[1..] == EncodeValue(c.ty, f);
    } else {
      assert s == EncodeValue(c.ty, f);
    }
    if !f.NullField? {
      ValueRoundTrip(c, f);
    }
  }

  lemma ValueRoundTrip(c: Column, f: Field)
    requires FieldOk(c, f) && !f.NullField?
    ensures |EncodeValue(c.ty, f)| == ValueSize(c.ty) && DecodeValue(c.ty, EncodeValue(c.ty, f)) == f
  {
    Widths();
    match f
    case IntField(n) => ValLE(n, 4);
    case FloatField(bits) => ValLE(bits, 4);
    case SpanField(sp) => SpanRoundTrip(sp);
    case BoolField(b) =>
    case DateField(y, m, d) =>
      ValLE(y, 2);
      ValLE(m, 1);
      ValLE(d, 1);
      var s := EncodeValue(c.ty, f);
      assert s[..2] == LE(y, 2) && s[2..3] == LE(m, 1) && s[3..] == LE(d, 1);
  }

  /** In bytes: a flag that is one for NULL, where NULL is allowed; then the value, least significant
      byte first, and zeros for NULL. */
  lemma FieldBytes(c: Column, f: Field)
    requires FieldOk(c, f)
    ensures var s := EncodeField(c, f);
            var o := if c.notNull then 0 else 1;
            && |s| == o + (match c.ty case IntType => 4 case FloatType => 4 case VarcharType => 16 case BoolType => 1
                           case TimeType => 4)
            && (!c.notNull ==> s[0] == if f.NullField? then 1 else 0)
            && match f
               case NullField => forall i | 1 <= i < |s| :: s[i] == 0
               case IntField(n) => Val(s[o..]) == n
               case FloatField(bits) => Val(s[o..]) == bits
               case SpanField(sp) =>
                 && Val(s[o..o + 4]) == sp.ptr.block && Val(s[o + 4..o + 8]) == sp.ptr.off
                 && Val(s[o + 8..]) == sp.size
               case BoolField(b) => s[o] == if b then 1 else 0
               case DateField(y, m, d) =>
                 Val(s[o..o + 2]) == y && s[o + 2] as nat == m && s[o + 3] as nat == d
  {
    hide LE, Val;
    Widths();
    var s := EncodeField(c, f);
    var o := if c.notNull then 0 else 1;
    match f
    case NullField =>
    case IntField(n) =>
      ValLE(n, 4);
      assert s[o..] == LE(n, 4);
    case FloatField(bits) =>
      ValLE(bits, 4);
      assert s[o..] == LE(bits, 4);
    case SpanField(sp) =>
      ValLE(sp.ptr.block, 4);
      ValLE(sp.ptr.off, 4);
      ValLE(sp.size, 8);
      assert s[o..o + 4] == LE(sp.ptr.block, 4) && s[o + 4..o + 8] == LE(sp.ptr.off, 4) && s[o + 8..] == LE(sp.size, 8);
    case BoolField(_) =>
    case DateField(y, m, d) =>
      ValLE(y, 2);
      OneByte(m);
      OneByte(d);
      assert s[o..o + 2] == LE(y, 2) && s[o + 2..o + 3] == LE(m, 1) && s[o + 3..] == LE(d, 1);
      assert s[o + 2] == s[o + 2..o + 3][0] && s[o + 3] == s[o + 3..][0];
  }

  lemma OneByte(n: nat)
    requires n < 256
    ensures |LE(n, 1)| == 1 && LE(n, 1)[0] as nat == n
  {
    assert LE(n / 256, 0) == [];
  }

  /** What the writer emits, column by column. */
  ghost function EncodeRow(cs: seq<Column>, fs: seq<Field>): (s: seq<byte>)
    requires FieldsOk(cs, fs)
    ensures |s| == RowSize(cs)
  {
    if cs == [] then [] else EncodeField(cs[0], fs[0]) + EncodeRow(cs[1..], fs[1..])
  }

  /** What the reader sees, column by column. */
  ghost function DecodeRow(cs: seq<Column>, s: seq<byte>): (fs: seq<Field>)
    requires |s| == RowSize(cs)
    ensures |fs| == |cs|
  {
    if cs == [] then [] else [DecodeField(cs[0], s[..Width(cs[0])])] + DecodeRow(cs[1..], s[Width(cs[0])..])
  }

  /** Reading back a written row gives the fields that were written. */
  lemma {:induction false} RowRoundTrip(cs: seq<Column>, fs: seq<Field>)
    requires FieldsOk(cs, fs)
    ensures DecodeRow(cs, EncodeRow(cs, fs)) == fs
  {
    hide EncodeField, DecodeField, FieldOk;
    if cs != [] {
      FieldRoundTrip(cs[0], fs[0]);
      RowRoundTrip(cs[1..], fs[1..]);
      var s := EncodeRow(cs, fs);
      assert s[..Width(cs[0])] == EncodeField(cs[0], fs[0]);
      assert s[Width(cs[0])..] == EncodeRow(cs[1..], fs[1..]);
    }
  }

  lemma {:induction false} RowSizeAppend(a: seq<Column>, b: seq<Column>)
    ensures RowSize(a + b) == RowSize(a) + RowSize(b)
  {
    if a == [] {
      assert a + b == b;
    } else {
      RowSizeAppend(a[1..], b);
      assert (a + b)[1..] == a[1..] + b;
    }
  }

  /** The writer goes from left to right: one more column adds that column's bytes at the end. */
  lemma {:induction false} EncodeSnoc(cs: seq<Column>, fs: seq<Field>, c: Column, f: Field)
    requires FieldsOk(cs, fs) && FieldOk(c, f)
    ensures FieldsOk(cs + [c], fs + [f])
    ensures EncodeRow(cs + [c], fs + [f]) == EncodeRow(cs, fs) + EncodeField(c, f)
  {
    hide EncodeField, FieldOk;
    if cs == [] {
      assert cs + [c] == [c] && fs + [f] == [f];
      assert [c][1..] == [] && [f][1..] == [];
    } else {
      EncodeSnoc(cs[1..], fs[1..], c, f);
      assert (cs + [c])[1..] == cs[1..] + [c] && (fs + [f])[1..] == fs[1..] + [f];
    }
  }

  // ---- Fields and values ----

  /** The heap spans a row refers to, each as often as it does. */
  ghost function SpansOf(fs: seq<Field>): multiset<Span> {
    if fs == [] then multiset{} else SpanOf(fs[0]) + SpansOf(fs[1..])
  }

  ghost function SpanOf(f: Field): multiset<Span> {
    if f.SpanField? then multiset{f.span} else multiset{}
  }

  lemma SpansCons(fs: seq<Field>)
    ensures SpansOf(fs) == if fs == [] then multiset{} else SpanOf(fs[0]) + SpansOf(fs[1..])
  {
  }

  lemma {:induction false} SpansAppend(a: seq<Field>, b: seq<Field>)
    ensures SpansOf(a + b) == SpansOf(a) + SpansOf(b)
  {
    hide SpanOf, SpansOf;
    SpansCons(a + b);
    SpansCons(a);
    if a == [] {
      assert a + b == b;
    } else {
      SpansAppend(a[1..], b);
      assert (a + b)[1..] == a[1..] + b;
    }
  }

  /** The value a field stands for, varchars read from the heap. */
  function ValueOf(bl: seq<Block>, f: Field): Value {
    match f
    case NullField => Null
    case IntField(n) => Int(if n < 0x8000_0000 then n else n - U32_LIMIT)
    case FloatField(bits) => Float(bits)
    case SpanField(sp) => Varchar(Content(bl, sp))
    case BoolField(b) => Bool(b)
    case DateField(y, m, d) => Time(Date(y, m, d, 0, 0, 0))
  }

  ghost function ValuesOf(bl: seq<Block>, fs: seq<Field>): (t: Tuple)
    ensures |t| == |fs|
  {
    seq(|fs|, i requires 0 <= i < |fs| => ValueOf(bl, fs[i]))
  }

  /** What storing keeps of a value: a time loses its clock, and its date is cut to the stored width. */
  function Stored(v: Value): Value {
    match v
    case Time(t) => Time(Date(t.year % 0x1_0000, t.month % 256, t.day % 256, 0, 0, 0))
    case _ => v
  }

  ghost function StoredTuple(t: Tuple): (r: Tuple)
    ensures |r| == |t|
  {
    seq(|t|, i requires 0 <= i < |t| => Stored(t[i]))
  }

  /** Storing is lossless exactly for dates with no clock part that fit the stored widths. */
  lemma StoredExact(v: Value)
    ensures Stored(v) == v <==>
            (v.Time? ==> v.t.hour == v.t.min == v.t.sec == 0
                         && 0 <= v.t.year < 0x1_0000 && 0 <= v.t.month < 256 && 0 <= v.t.day < 256)
  {
  }

  /** What is kept of the fields of a time: year, month and day, each modulo the width it is stored in;
      not its clock. Everything else is kept as it is. */
  lemma StoredFields(v: Value)
    ensures v.Time? <==> Stored(v).Time?
    ensures v.Time? ==>
              && Stored(v).t.year == v.t.year % 0x1_0000 && Stored(v).t.month == v.t.month % 0x100
              && Stored(v).t.day == v.t.day % 0x100
              && Stored(v).t.hour == 0 && Stored(v).t.min == 0 && Stored(v).t.sec == 0
    ensures !v.Time? ==> Stored(v) == v
  {
  }

  /** The same, for all columns of a row. */
  lemma RowFields(t: Tuple)
    ensures forall c | 0 <= c < |t| ::
              && (!t[c].Time? ==> StoredTuple(t)[c] == t[c])
              && (t[c].Time? ==>
                    StoredTuple(t)[c] ==
                    Time(Date(t[c].t.year % 0x1_0000, t[c].t.month % 0x100, t[c].t.day % 0x100, 0, 0, 0)))
  {
    forall c | 0 <= c < |t| ensures StoredTuple(t)[c] == Stored(t[c]) {
      StoredFields(t[c]);
    }
  }

  /** What `insert` asks of a value for a column; the checks of `Table::insert` establish it. */
  predicate ValueOk(c: Column, v: Value) {
    InRange(v) && if v.Null? then !c.notNull else HasType(v, c.ty)
  }

  ghost predicate TupleOk(cs: seq<Column>, t: Tuple) {
    |cs| == |t| && forall i | 0 <= i < |cs| :: ValueOk(cs[i], t[i])
  }

  /** The field of a value that needs no heap space. */
  function ScalarField(v: Value): Field
    requires !v.Varchar?
  {
    match v
    case Null => NullField
    case Int(i) => IntField(i % U32_LIMIT)
    case Float(bits) => FloatField(bits)
    case Bool(b) => BoolField(b)
    case Time(t) => DateField(t.year % 0x1_0000, t.month % 256, t.day % 256)
  }

  lemma ScalarFieldStores(c: Column, v: Value, bl: seq<Block>)
    requires ValueOk(c, v) && !v.Varchar?
    ensures FieldOk(c, ScalarField(v)) && SpanOf(ScalarField(v)) == multiset{}
    ensures ValueOf(bl, ScalarField(v)) == Stored(v)
  {
  }

  lemma {:induction false} InSpans(fs: seq<Field>, i: nat)
    requires i < |fs| && fs[i].SpanField?
    ensures fs[i].span in SpansOf(fs)
  {
    if i > 0 {
      InSpans(fs[1..], i - 1);
    }
  }

  /** A row reads the same as long as the spans it refers to keep their content. */
  lemma ValuesFrame(bl: seq<Block>, bl': seq<Block>, fs: seq<Field>)
    requires forall sp | sp in SpansOf(fs) :: Content(bl, sp) == Content(bl', sp)
    ensures ValuesOf(bl, fs) == ValuesOf(bl', fs)
  {
    hide Content;
    forall i | 0 <= i < |fs| ensures ValueOf(bl, fs[i]) == ValueOf(bl', fs[i]) {
      if fs[i].SpanField? {
        InSpans(fs, i);
      }
    }
  }
}
