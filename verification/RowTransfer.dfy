/** Transferring a row between its tuple, its bytes and the heap, column by column
    (db/storage/edb/Serializer.cpp:26-56, db/storage/edb/Definitions.cpp:26-55). */
module RowTransfer {
  import opened Bytes
  import opened Blocks
  import opened RowCodec
  import opened Values
  import opened HeapChain

  /** `done` are the fields in front of `offset`, where column `s` starts. */
  ghost predicate ReadSoFar(cs: seq<Column>, row: seq<byte>, s: nat, offset: nat, done: seq<Field>) {
    && s <= |cs| && |row| == RowSize(cs) && offset + RowSize(cs[s..]) == |row|
    && DecodeRow(cs, row) == done + DecodeRow(cs[s..], row[offset..])
  }

  lemma ReadStart(cs: seq<Column>, row: seq<byte>)
    requires |row| == RowSize(cs)
    ensures ReadSoFar(cs, row, 0, 0, []) && SpansOf([]) == multiset{}
  {
  }

  lemma ReadStep(cs: seq<Column>, row: seq<byte>, s: nat, offset: nat, done: seq<Field>)
    requires ReadSoFar(cs, row, s, offset, done) && s < |cs|
    ensures var w := Width(cs[s]);
            && offset + w <= |row| && |row[offset + w..]| == RowSize(cs[s + 1..])
            && var f := DecodeField(cs[s], row[offset..offset + w]);
               && ReadSoFar(cs, row, s + 1, offset + w, done + [f])
               && DecodeRow(cs, row) == done + [f] + DecodeRow(cs[s + 1..], row[offset + w..])
  {
    hide DecodeField, Width;
    var w := Width(cs[s]);
    assert cs[s..][0] == cs[s] && cs[s..][1..] == cs[s + 1..];
    assert row[offset..][..w] == row[offset..offset + w];
    assert row[offset..][w..] == row[offset + w..];
    var f := DecodeField(cs[s], row[offset..offset + w]);
    var rest := DecodeRow(cs[s + 1..], row[offset + w..]);
    assert DecodeRow(cs[s..], row[offset..]) == [f] + rest;
    assert done + ([f] + rest) == done + [f] + rest;
  }

  lemma ReadEnd(cs: seq<Column>, row: seq<byte>, offset: nat, done: seq<Field>)
    requires ReadSoFar(cs, row, |cs|, offset, done)
    ensures done == DecodeRow(cs, row)
  {
    assert done + [] == done;
  }

  /** Where `free_data` finds a column's value: behind the null flag, if there is one that is not set.
      Its field is the reader's, and the next column starts behind the value. */
  lemma FieldAt(c: Column, row: seq<byte>, offset: nat)
    requires offset + Width(c) <= |row|
    ensures var f := DecodeField(c, row[offset..offset + Width(c)]);
            var o := if c.notNull then offset else offset + 1;
            && o + ValueSize(c.ty) == offset + Width(c) && (c.ty.VarcharType? ==> ValueSize(c.ty) == 16)
            && (!c.notNull && row[offset] != 0 ==> f == NullField)
            && (c.notNull || row[offset] == 0 ==>
                  if c.ty.VarcharType? then f == SpanField(DecodeSpan(row[o..o + 16])) else !f.SpanField?)
  {
    hide DecodeSpan, Val;
    var w := row[offset..offset + Width(c)];
    if c.notNull {
      assert w == row[offset..offset + ValueSize(c.ty)];
    } else {
      assert w[1..] == row[offset + 1..offset + 1 + ValueSize(c.ty)];
    }
  }

  lemma FreeStep(bl: seq<Block>, bl1: seq<Block>, bl2: seq<Block>, done: seq<Field>, f: Field)
    requires Shrunk(bl, bl1, SpansOf(done)) && HeapOnly(bl, bl1)
    requires Shrunk(bl1, bl2, SpanOf(f)) && HeapOnly(bl1, bl2)
    ensures Shrunk(bl, bl2, SpansOf(done + [f])) && HeapOnly(bl, bl2)
  {
    ShrunkTrans(bl, bl1, bl2, SpansOf(done), SpanOf(f));
    HeapOnlyTrans(bl, bl1, bl2);
    SpansAppend(done, [f]);
    SpansOfOne(f);
  }

  /** Every span counted in `m` is in use and counted once. */
  ghost predicate OwnsOnce(bl: seq<Block>, m: multiset<Span>) {
    forall sp: Span | sp in m :: m[sp] == 1 && InUse(bl, sp)
  }

  /** A span referred to once is still in use when the spans before it were freed. */
  lemma StillInUse(bl: seq<Block>, bl1: seq<Block>, done: seq<Field>, f: Field, rest: seq<Field>)
    requires OwnsOnce(bl, SpansOf(done + [f] + rest)) && f.SpanField?
    requires Shrunk(bl, bl1, SpansOf(done))
    ensures InUse(bl1, f.span)
  {
    hide InUse, Content;
    SpansAppend(done + [f], rest);
    SpansAppend(done, [f]);
    SpansOfOne(f);
    assert f.span in SpansOf(done + [f] + rest);
    assert SpansOf(done)[f.span] == 0;
  }

  lemma InUseSized(bl: seq<Block>, sp: Span)
    requires InUse(bl, sp)
    ensures InFile(bl, sp.ptr.block) && sp.ptr.off + sp.size <= |At(bl, sp.ptr.block)|
  {
    InUseRange(bl, sp);
  }

  /** The state of `write_row` after `s` columns. */
  ghost predicate RowSoFar(cs: seq<Column>, t: Tuple, s: nat, fs: seq<Field>, bytes: seq<byte>, bl: seq<Block>) {
    && s <= |cs| == |t| && |fs| == s
    && FieldsOk(cs[..s], fs) && bytes == EncodeRow(cs[..s], fs)
    && ValuesOf(bl, fs) == StoredTuple(t[..s])
    && |SpansOf(fs)| == VarcharCount(t[..s])
    && forall i | 0 <= i < s :: StaysSame(bl, fs[i])
  }

  /** The span a field refers to, if any, is in use, so heap growth does not change its value. */
  ghost predicate StaysSame(bl: seq<Block>, f: Field) {
    f.SpanField? ==> InUse(bl, f.span)
  }

  lemma RowStep(cs: seq<Column>, t: Tuple, s: nat, fs: seq<Field>, bytes: seq<byte>, f: Field,
                bl: seq<Block>, bl1: seq<Block>, bl2: seq<Block>)
    requires RowSoFar(cs, t, s, fs, bytes, bl1) && s < |cs|
    requires Grown(bl, bl1, SpansOf(fs)) && Grown(bl1, bl2, SpanOf(f))
    requires FieldOk(cs[s], f) && ValueOf(bl2, f) == Stored(t[s]) && StaysSame(bl2, f)
    requires f.SpanField? <==> t[s].Varchar?
    ensures Grown(bl, bl2, SpansOf(fs + [f]))
    ensures RowSoFar(cs, t, s + 1, fs + [f], bytes + EncodeField(cs[s], f), bl2)
  {
    hide FieldOk, SpanOf, Stored, FieldsOk, SpansOf, EncodeRow, EncodeField, Content, ValueOf, StaysSame, InUse,
         Grown, ValuesOf, StoredTuple;
    GrownTrans(bl, bl1, bl2, SpansOf(fs), SpanOf(f));
    SpansAppend(fs, [f]);
    SpansOfOne(f);
    SpanSize(f);
    VarcharCountSnoc(t[..s], t[s]);
    assert t[..s + 1] == t[..s] + [t[s]];
    assert cs[..s + 1] == cs[..s] + [cs[s]];
    EncodeSnoc(cs[..s], fs, cs[s], f);
    RowStepValues(t, s, fs, f, bl1, bl2, SpanOf(f));
  }

  lemma RowStepValues(t: Tuple, s: nat, fs: seq<Field>, f: Field, bl1: seq<Block>, bl2: seq<Block>, n: multiset<Span>)
    requires |fs| == s < |t|
    requires Grown(bl1, bl2, n)
    requires ValuesOf(bl1, fs) == StoredTuple(t[..s]) && forall i | 0 <= i < s :: StaysSame(bl1, fs[i])
    requires ValueOf(bl2, f) == Stored(t[s]) && StaysSame(bl2, f)
    ensures ValuesOf(bl2, fs + [f]) == StoredTuple(t[..s + 1])
    ensures forall i | 0 <= i < s + 1 :: StaysSame(bl2, (fs + [f])[i])
  {
    hide Stored, Content, InUse;
    forall i | 0 <= i < s ensures StaysSame(bl2, fs[i]) && ValueOf(bl2, fs[i]) == ValuesOf(bl1, fs)[i] {
      assert StaysSame(bl1, fs[i]);
    }
    assert StoredTuple(t[..s + 1]) == StoredTuple(t[..s]) + [Stored(t[s])];
  }

  lemma SpanSize(f: Field)
    ensures |SpanOf(f)| == if f.SpanField? then 1 else 0
  {
  }

  lemma SpansOfOne(f: Field)
    ensures SpansOf([f]) == SpanOf(f)
  {
    assert SpansOf([f][1..]) == multiset{};
  }

  datatype WriteResult = RowBytes(bytes: seq<byte>) | Failed(error: HeapResult)

  /** Every varchar of the tuple fits in a fresh heap block. */
  ghost predicate VarcharsFit(t: Tuple, blockSize: nat) {
    forall i | 0 <= i < |t| :: t[i].Varchar? ==> Fits(|t[i].s|, blockSize)
  }

  /** How many varchars `insert` has copied to the heap when it meets the first one that is too long. */
  ghost function LeakCount(t: Tuple, blockSize: nat): nat {
    if t == [] || (t[0].Varchar? && !Fits(|t[0].s|, blockSize)) then 0
    else (if t[0].Varchar? then 1 else 0) + LeakCount(t[1..], blockSize)
  }

  ghost function VarcharCount(t: Tuple): nat {
    if t == [] then 0 else (if t[0].Varchar? then 1 else 0) + VarcharCount(t[1..])
  }

  predicate NoVarchar(t: Tuple) {
    forall i | 0 <= i < |t| :: !t[i].Varchar?
  }

  lemma {:induction false} VarcharCountPrefix(t: Tuple, k: nat)
    requires k < |t| && t[k].Varchar?
    ensures VarcharCount(t[..k]) < VarcharCount(t)
  {
    if k > 0 {
      VarcharCountPrefix(t[1..], k - 1);
      assert t[..k][1..] == t[1..][..k - 1];
    }
  }

  lemma SpansAreVarchars(bl: seq<Block>, f: Field)
    ensures ValueOf(bl, f).Varchar? <==> SpanOf(f) != multiset{}
  {
    hide Content;
  }

  /** A row owns no span exactly if no value in it is a varchar. */
  lemma {:induction false} OwnsNothing(bl: seq<Block>, fs: seq<Field>)
    ensures SpansOf(fs) == multiset{} <==> NoVarchar(ValuesOf(bl, fs))
  {
    hide ValueOf, SpanOf;
    if fs != [] {
      OwnsNothing(bl, fs[1..]);
      SpansAreVarchars(bl, fs[0]);
      assert ValuesOf(bl, fs) == [ValueOf(bl, fs[0])] + ValuesOf(bl, fs[1..]);
      NoVarcharCons(ValueOf(bl, fs[0]), ValuesOf(bl, fs[1..]));
    }
  }

  lemma NoVarcharCons(v: Value, t: Tuple)
    ensures NoVarchar([v] + t) <==> !v.Varchar? && NoVarchar(t)
  {
    if NoVarchar([v] + t) {
      assert ([v] + t)[0] == v;
      assert forall i | 0 <= i < |t| :: t[i] == ([v] + t)[i + 1];
    }
  }

  lemma {:induction false} VarcharCountSnoc(t: Tuple, v: Value)
    ensures VarcharCount(t + [v]) == VarcharCount(t) + if v.Varchar? then 1 else 0
  {
    if t == [] {
      assert t + [v] == [v] && [v][1..] == [];
    } else {
      VarcharCountSnoc(t[1..], v);
      assert (t + [v])[1..] == t[1..] + [v];
    }
  }

  lemma {:induction false} LeakAt(t: Tuple, blockSize: nat, k: nat)
    requires k < |t| && t[k].Varchar? && !Fits(|t[k].s|, blockSize)
    requires forall i | 0 <= i < k :: t[i].Varchar? ==> Fits(|t[i].s|, blockSize)
    ensures LeakCount(t, blockSize) == VarcharCount(t[..k])
  {
    if k > 0 {
      LeakAt(t[1..], blockSize, k - 1);
      assert t[..k][1..] == t[1..][..k - 1];
    }
  }
}
