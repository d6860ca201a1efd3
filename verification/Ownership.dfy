/** Which heap spans a table file refers to, and that these are exactly the spans in use. */
module Ownership {
  import opened Bytes
  import opened Blocks
  import opened RowCodec
  import opened Values

  /** The fields of a raw row. */
  ghost function FieldsOf(cs: seq<Column>, row: seq<byte>): seq<Field> {
    if |row| == RowSize(cs) then DecodeRow(cs, row) else []
  }

  ghost function SpansIn(cs: seq<Column>, row: seq<byte>): multiset<Span> {
    SpansOf(FieldsOf(cs, row))
  }

  ghost function OwnedBy(cs: seq<Column>, rows: seq<seq<byte>>): multiset<Span> {
    if rows == [] then multiset{} else SpansIn(cs, rows[0]) + OwnedBy(cs, rows[1..])
  }

  /** Column names and stored varchar defaults. */
  ghost function ColumnSpans(cs: seq<Column>): multiset<Span> {
    if cs == [] then multiset{} else multiset{cs[0].name} + SpanOf(DefaultOf(cs[0])) + ColumnSpans(cs[1..])
  }

  /** Everything the file refers to: its name, its columns, its rows. */
  ghost function References(cs: seq<Column>, name: Span, rows: seq<seq<byte>>): multiset<Span> {
    multiset{name} + ColumnSpans(cs) + OwnedBy(cs, rows)
  }

  /** The spans in use are exactly the references plus `leaked`, each once. */
  ghost predicate Owned(bl: seq<Block>, cs: seq<Column>, name: Span, rows: seq<seq<byte>>, leaked: multiset<Span>) {
    Exact(bl, References(cs, name, rows) + leaked)
  }

  /** The abstract content: one tuple per row. */
  ghost function TuplesOf(bl: seq<Block>, cs: seq<Column>, rows: seq<seq<byte>>): (r: seq<Tuple>)
    ensures |r| == |rows|
  {
    seq(|rows|, i requires 0 <= i < |rows| => ValuesOf(bl, FieldsOf(cs, rows[i])))
  }

  lemma {:induction false} OwnedAppend(cs: seq<Column>, a: seq<seq<byte>>, b: seq<seq<byte>>)
    ensures OwnedBy(cs, a + b) == OwnedBy(cs, a) + OwnedBy(cs, b)
  {
    hide SpansIn;
    if a == [] {
      assert a + b == b;
    } else {
      OwnedAppend(cs, a[1..], b);
      assert (a + b)[1..] == a[1..] + b;
    }
  }

  lemma OwnedOne(cs: seq<Column>, row: seq<byte>)
    ensures OwnedBy(cs, [row]) == SpansIn(cs, row)
  {
    hide SpansIn;
    assert OwnedBy(cs, [row][1..]) == multiset{};
  }

  lemma OwnedSplit(cs: seq<Column>, rows: seq<seq<byte>>, i: nat)
    requires i < |rows|
    ensures OwnedBy(cs, rows) == OwnedBy(cs, rows[..i]) + SpansIn(cs, rows[i]) + OwnedBy(cs, rows[i + 1..])
  {
    hide SpansIn;
    assert rows == rows[..i] + [rows[i]] + rows[i + 1..];
    OwnedAppend(cs, rows[..i] + [rows[i]], rows[i + 1..]);
    OwnedAppend(cs, rows[..i], [rows[i]]);
    OwnedOne(cs, rows[i]);
  }

  /** What a row refers to is in use, and referred to once. */
  lemma RowOwnsOnce(bl: seq<Block>, cs: seq<Column>, name: Span, rows: seq<seq<byte>>, leaked: multiset<Span>, i: nat,
                    sp: Span)
    requires Owned(bl, cs, name, rows, leaked) && i < |rows| && sp in SpansIn(cs, rows[i])
    ensures SpansIn(cs, rows[i])[sp] == 1 && InUse(bl, sp)
    ensures sp !in OwnedBy(cs, rows[..i] + rows[i + 1..])
  {
    hide SpansIn, OwnedBy, InUse, ColumnSpans;
    OwnedSplit(cs, rows, i);
    OwnedAppend(cs, rows[..i], rows[i + 1..]);
    var m := References(cs, name, rows) + leaked;
    assert m[sp] == if InUse(bl, sp) then 1 else 0;
  }

  lemma {:induction false} SpanOfSomeRow(cs: seq<Column>, rows: seq<seq<byte>>, i: nat, sp: Span)
    requires i < |rows| && sp in SpansIn(cs, rows[i])
    ensures sp in OwnedBy(cs, rows)
  {
    hide SpansIn;
    OwnedSplit(cs, rows, i);
  }

  /** Rows read the same in `bl'` if everything they own is in use there with the same content. */
  lemma TuplesFrame(bl: seq<Block>, bl': seq<Block>, cs: seq<Column>, rows: seq<seq<byte>>)
    requires forall sp | sp in OwnedBy(cs, rows) :: Content(bl', sp) == Content(bl, sp)
    ensures TuplesOf(bl', cs, rows) == TuplesOf(bl, cs, rows)
  {
    hide OwnedBy, Content, FieldsOf, SpansOf, ValuesOf;
    forall i | 0 <= i < |rows| ensures ValuesOf(bl', FieldsOf(cs, rows[i])) == ValuesOf(bl, FieldsOf(cs, rows[i])) {
      forall sp | sp in SpansOf(FieldsOf(cs, rows[i])) ensures Content(bl', sp) == Content(bl, sp) {
        SpanOfSomeRow(cs, rows, i, sp);
      }
      ValuesFrame(bl, bl', FieldsOf(cs, rows[i]));
    }
  }

  lemma OwnedInUse(bl: seq<Block>, cs: seq<Column>, name: Span, rows: seq<seq<byte>>, leaked: multiset<Span>, sp: Span)
    requires Owned(bl, cs, name, rows, leaked)
    requires sp in References(cs, name, rows) || sp in leaked
    ensures InUse(bl, sp)
  {
    hide InUse, References;
    var m := References(cs, name, rows) + leaked;
    assert m[sp] == if InUse(bl, sp) then 1 else 0;
  }

  /** Heap growth changes no tuple; the new spans are leaked until something refers to them. */
  lemma OwnedGrown(bl: seq<Block>, bl': seq<Block>, cs: seq<Column>, name: Span, rows: seq<seq<byte>>,
                   leaked: multiset<Span>, n: multiset<Span>)
    requires Owned(bl, cs, name, rows, leaked) && Grown(bl, bl', n)
    ensures Owned(bl', cs, name, rows, leaked + n)
    ensures TuplesOf(bl', cs, rows) == TuplesOf(bl, cs, rows)
    ensures Content(bl', name) == Content(bl, name)
  {
    hide InUse, Content, OwnedBy, TuplesOf;
    ExactGrown(bl, bl', References(cs, name, rows) + leaked, n);
    assert References(cs, name, rows) + leaked + n == References(cs, name, rows) + (leaked + n);
    forall sp | sp in OwnedBy(cs, rows) || sp == name ensures Content(bl', sp) == Content(bl, sp) {
      OwnedInUse(bl, cs, name, rows, leaked, sp);
      assert InUse(bl', sp);
    }
    TuplesFrame(bl, bl', cs, rows);
  }

  /** A new last row takes over spans that nothing else refers to. */
  lemma OwnedInsert(bl: seq<Block>, cs: seq<Column>, name: Span, rows: seq<seq<byte>>, leaked: multiset<Span>,
                    row: seq<byte>)
    requires Owned(bl, cs, name, rows, leaked + SpansIn(cs, row))
    ensures Owned(bl, cs, name, rows + [row], leaked)
    ensures TuplesOf(bl, cs, rows + [row]) == TuplesOf(bl, cs, rows) + [ValuesOf(bl, FieldsOf(cs, row))]
  {
    hide Exact, OwnedBy, SpansIn, FieldsOf, ValuesOf;
    OwnedAppend(cs, rows, [row]);
    OwnedOne(cs, row);
    assert References(cs, name, rows) + (leaked + SpansIn(cs, row)) == References(cs, name, rows + [row]) + leaked;
  }

  /** Freeing what row `i` owns leaves exactly what the other rows own, and changes no other row. */
  lemma OwnedFreed(bl: seq<Block>, bl': seq<Block>, cs: seq<Column>, name: Span, rows: seq<seq<byte>>,
                   leaked: multiset<Span>, i: nat)
    requires Owned(bl, cs, name, rows, leaked) && i < |rows|
    requires Shrunk(bl, bl', SpansIn(cs, rows[i]))
    ensures Owned(bl', cs, name, rows[..i] + rows[i + 1..], leaked)
    ensures TuplesOf(bl', cs, rows[..i] + rows[i + 1..])
            == TuplesOf(bl, cs, rows)[..i] + TuplesOf(bl, cs, rows)[i + 1..]
    ensures Content(bl', name) == Content(bl, name)
  {
    hide InUse, Content, OwnedBy, SpansIn, TuplesOf, ColumnSpans;
    var rest := rows[..i] + rows[i + 1..];
    ExactShrunk(bl, bl', References(cs, name, rows) + leaked, SpansIn(cs, rows[i]));
    OwnedSplit(cs, rows, i);
    OwnedAppend(cs, rows[..i], rows[i + 1..]);
    assert References(cs, name, rows) + leaked - SpansIn(cs, rows[i]) == References(cs, name, rest) + leaked;
    forall sp | sp in OwnedBy(cs, rest) || sp == name ensures Content(bl', sp) == Content(bl, sp) {
      OwnedInUse(bl', cs, name, rest, leaked, sp);
    }
    TuplesFrame(bl, bl', cs, rest);
    TuplesWithout(bl, cs, rows, i);
  }

  lemma TuplesWithout(bl: seq<Block>, cs: seq<Column>, rows: seq<seq<byte>>, i: nat)
    requires i < |rows|
    ensures TuplesOf(bl, cs, rows[..i] + rows[i + 1..]) == TuplesOf(bl, cs, rows)[..i] + TuplesOf(bl, cs, rows)[i + 1..]
  {
    hide ValuesOf, FieldsOf;
  }

  /** Row `i` replaced by a row that owns `leaked`-until-now spans. */
  lemma OwnedReplace(bl: seq<Block>, cs: seq<Column>, name: Span, rows: seq<seq<byte>>, leaked: multiset<Span>,
                     i: nat, row: seq<byte>)
    requires i < |rows| && Owned(bl, cs, name, rows[..i] + rows[i + 1..], leaked + SpansIn(cs, row))
    ensures Owned(bl, cs, name, rows[i := row], leaked)
    ensures TuplesOf(bl, cs, rows[i := row]) ==
            var rest := TuplesOf(bl, cs, rows[..i] + rows[i + 1..]);
            rest[..i] + [ValuesOf(bl, FieldsOf(cs, row))] + rest[i..]
  {
    hide Exact, OwnedBy, SpansIn, FieldsOf, ValuesOf, ColumnSpans;
    var rest := rows[..i] + rows[i + 1..];
    var rows' := rows[i := row];
    OwnedSplit(cs, rows', i);
    assert rows'[..i] == rows[..i] && rows'[i + 1..] == rows[i + 1..];
    OwnedAppend(cs, rows[..i], rows[i + 1..]);
    assert References(cs, name, rest) + (leaked + SpansIn(cs, row)) == References(cs, name, rows') + leaked;
  }

  /** Renaming: the old name's span was freed and `name'` took its place. */
  lemma OwnedRenamed(bl: seq<Block>, cs: seq<Column>, name: Span, name': Span, rows: seq<seq<byte>>,
                     leaked: multiset<Span>)
    requires Exact(bl, References(cs, name, rows) + leaked - multiset{name} + multiset{name'})
    ensures Owned(bl, cs, name', rows, leaked)
  {
    hide Exact, OwnedBy, ColumnSpans;
    assert References(cs, name, rows) + leaked - multiset{name} + multiset{name'}
        == References(cs, name', rows) + leaked;
  }

  /** The bytes a written row decodes to are the fields it was written from. */
  lemma WrittenFields(cs: seq<Column>, fs: seq<Field>)
    requires FieldsOk(cs, fs)
    ensures FieldsOf(cs, EncodeRow(cs, fs)) == fs
  {
    RowRoundTrip(cs, fs);
  }
}
