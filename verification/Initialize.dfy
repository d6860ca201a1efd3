/** Creating a table file (db/storage/edb/EDBFile.cpp:53-71, 280-338,
    db/storage/edb/Serializer.cpp:14-24). */
module TableSetups {
  import opened Bytes
  import opened Blocks
  import opened EDBFiles
  import opened Floats
  import opened HeapChain
  import opened Ownership
  import opened RowCodec
  import opened RowList
  import opened RowTransfer
  import opened TableOps
  import opened TableStates
  import opened Values
  import H = HeapBlocks
  import M = MappedFiles

  datatype ColumnSetup = ColumnSetup(name: seq<byte>, ty: ValueType, autoIncrement: bool, unique: bool, notNull: bool,
      default: Value)

  datatype TableSetup = TableSetup(name: seq<byte>, columns: seq<ColumnSetup>)

  const FILE_HEADER: nat := 79
  const COLUMN_HEADER: nat := 37

  /** Default values are C++ values, of any type; the conversion of a float to an integer is one that C++
      defines. */
  predicate SetupOk(cs: seq<ColumnSetup>) {
    forall i | 0 <= i < |cs| :: DefaultOk(cs[i].default)
  }

  predicate DefaultOk(v: Value) {
    InRange(v) && (v.Float? ==> Converts(v.bits))
  }

  /** The default value survives: it is NULL, or of its column's type, and a float is a whole number. */
  predicate DefaultKept(s: ColumnSetup) {
    s.default.Null? || (HasType(s.default, s.ty) && (s.default.Float? ==> IsWhole(s.default.bits)))
  }

  predicate DefaultsKept(cs: seq<ColumnSetup>) {
    forall i | 0 <= i < |cs| :: DefaultKept(cs[i])
  }

  /** The stored column `c` is what the setup `s` asks for. */
  ghost predicate ColumnStored(bl: seq<Block>, c: Column, s: ColumnSetup) {
    && Content(bl, c.name) == s.name && InUse(bl, c.name)
    && c.ty == s.ty && c.autoIncrement == s.autoIncrement && c.unique == s.unique && c.notNull == s.notNull
    && ValueOf(bl, DefaultOf(c)) == Stored(s.default) && StaysSame(bl, DefaultOf(c))
  }

  /** The definition `c` was made from the setup `s`, as far as it does not depend on the heap. */
  predicate ColumnWritten(c: Column, s: ColumnSetup) {
    && c.ty == s.ty && c.autoIncrement == s.autoIncrement && c.unique == s.unique && c.notNull == s.notNull
    && c.hasDefault == !s.default.Null?
    && (!s.default.Null? && !s.default.Varchar? ==> c.default == UnionOf(UnionField(s.default)))
  }

  /** What is written to the union; a float is converted to an integer. */
  function UnionField(v: Value): Field
    requires !v.Varchar?
  {
    if v.Float? then IntField(Truncated(v.bits)) else ScalarField(v)
  }

  /** A float that was written to the union is read back exactly if it is a whole number. */
  lemma FloatDefault(c: Column, s: ColumnSetup)
    requires ColumnWritten(c, s) && s.default.Float? && s.ty.FloatType? && DefaultOk(s.default)
    ensures DefaultOf(c) == FloatField(s.default.bits) <==> IsWhole(s.default.bits)
  {
    hide Truncated, Rounded, IsWhole, Converts, LE, Val, Pow256;
    var n := Truncated(s.default.bits);
    TruncatedFits(s.default.bits);
    WholeExact(s.default.bits);
    Widths();
    ValLE(n, 4);
    assert c.default[..4] == LE(n, 4);
  }

  /** A default value that is read back as it was given is one that survives. */
  lemma StoredIsKept(bl: seq<Block>, c: Column, s: ColumnSetup)
    requires ColumnWritten(c, s) && ColumnStored(bl, c, s) && DefaultOk(s.default)
    ensures DefaultKept(s)
  {
    hide Content, InUse, Rounded, UnionOf, Val, DecodeSpan, IsWhole, Converts;
    if s.default.Float? {
      FloatDefault(c, s);
    }
  }

  /** A default value that survives is read back, and refers to the span it was written to. */
  lemma KeptIsStored(bl: seq<Block>, c: Column, s: ColumnSetup, f: Field)
    requires ColumnWritten(c, s) && DefaultKept(s) && DefaultOk(s.default)
    requires if s.default.Varchar? then f.SpanField? && Content(bl, f.span) == s.default.s && c.default == UnionOf(f)
             else f == UnionField(s.default)
    requires f.SpanField? ==> f.span.ptr.Encodable() && f.span.size < U64_LIMIT
    ensures ValueOf(bl, DefaultOf(c)) == Stored(s.default) && SpanOf(DefaultOf(c)) == SpanOf(f)
    ensures DefaultOf(c).SpanField? ==> DefaultOf(c) == f
  {
    hide Content, Truncated, Rounded, UnionOf, IsWhole, Converts, Val, DecodeSpan;
    if s.default.Float? {
      FloatDefault(c, s);
    } else if !s.default.Null? {
      UnionRoundTrip(c, f);
    }
  }

  /** A default that does not survive: an integer for a VARCHAR column is read as a span in a block of
      that number, which no heap has in use. */
  lemma IntegerAsSpan(bl: seq<Block>, c: Column)
    requires c.hasDefault && c.ty.VarcharType? && c.default == UnionOf(UnionField(Int(5)))
    ensures DefaultOf(c) == SpanField(Span(Ptr(5, 0), 0)) && !InUse(bl, DefaultOf(c).span)
  {
    hide H.Tiled, H.Used, Type, LE, Val, Pow256;
    Widths();
    ValLE(5, 4);
    ValLE(0, 4);
    ValLE(0, 8);
    ZeroBytes();
    EightZeros();
    var s := c.default;
    assert s == UnionOf(IntField(5)) && s[..16] == s;
    assert s[..4] == LE(5, 4) && s[4..8] == LE(0, 4) && s[8..] == LE(0, 8);
  }

  lemma EightZeros()
    ensures LE(0, 8) == Zeros(8)
  {
    hide Val;
    ZeroBytes();
    assert LE(0, 5) == [0] + LE(0, 4) && LE(0, 6) == [0] + LE(0, 5) && LE(0, 7) == [0] + LE(0, 6);
  }

  /** And one and a half for a FLOAT column is read as one. */
  lemma HalfIsCut(c: Column)
    requires c.hasDefault && c.ty.FloatType? && c.default == UnionOf(UnionField(Float(0x3FC0_0000)))
    ensures DefaultOf(c) == FloatField(0x3F80_0000)
  {
    hide LE, Val, Truncated, Rounded, Pow256;
    Widths();
    ValLE(1, 4);
    OneAndAHalf();
    assert UnionOf(IntField(1))[..4] == LE(1, 4);
  }

  /** One and a half is cut to one. */
  lemma OneAndAHalf()
    ensures Truncated(0x3FC0_0000) == 1 && Rounded(1) == 0x3F80_0000
  {
    LeadIsPower();
    assert Exponent(0x3FC0_0000) == 127 && Fraction(0x3FC0_0000) == 0x40_0000;
    DivBounds(LEAD + 0x40_0000, LEAD, 1, 2);
  }

  ghost predicate ColumnsStored(bl: seq<Block>, cs: seq<Column>, ss: seq<ColumnSetup>) {
    |cs| == |ss| && forall i | 0 <= i < |cs| :: ColumnStored(bl, cs[i], ss[i])
  }

  /** The row size for columns that are not stored yet. */
  ghost function SetupRowSize(cs: seq<ColumnSetup>): nat {
    RowSize(Unnamed(cs))
  }

  ghost function Unnamed(cs: seq<ColumnSetup>): (r: seq<Column>)
    ensures |r| == |cs|
  {
    seq(|cs|, i requires 0 <= i < |cs| => Unnamed1(cs[i]))
  }

  function Unnamed1(c: ColumnSetup): Column {
    Column(Span(NULL, 0), c.ty, c.autoIncrement, c.unique, c.notNull, !c.default.Null?, Zeros(16))
  }

  lemma {:induction false} RowSizeOf(cs: seq<Column>, ds: seq<Column>)
    requires |cs| == |ds| && forall i | 0 <= i < |cs| :: Width(cs[i]) == Width(ds[i])
    ensures RowSize(cs) == RowSize(ds)
  {
    hide Width;
    if cs != [] {
      RowSizeOf(cs[1..], ds[1..]);
    }
  }

  lemma {:induction false} RowSizeBound(cs: seq<Column>)
    ensures RowSize(cs) <= 17 * |cs|
  {
    if cs != [] {
      RowSizeBound(cs[1..]);
    }
  }

  /** `write_header_first_pass`: the block size, from the widths of the columns. */
  method FirstPass(cs: seq<ColumnSetup>) returns (blockSize: nat)
    ensures blockSize == BlockSizeFor(SetupRowSize(cs))
  {
    var n := SLOT_HEADER;
    for i := 0 to |cs|
      invariant n == SLOT_HEADER + RowSize(Unnamed(cs)[..i])
    {
      assert Unnamed(cs)[..i + 1] == Unnamed(cs)[..i] + [Unnamed1(cs[i])];
      RowSizeAppend(Unnamed(cs)[..i], [Unnamed1(cs[i])]);
      assert [Unnamed1(cs[i])][1..] == [];
      if !cs[i].notNull {
        n := n + 1;
      }
      n := n + ValueSize(cs[i].ty);
    }
    assert Unnamed(cs)[..|cs|] == Unnamed(cs);
    blockSize := n * SLOTS + FIRST_SLOT;
  }

  // ---- How much of the first heap block the header needs ----

  /** The strings the header puts on the heap. */
  ghost function Strings(c: ColumnSetup): seq<seq<byte>> {
    [c.name] + if c.default.Varchar? then [c.default.s] else []
  }

  /** Each string takes its length and a chunk header. */
  ghost function Demand(ss: seq<seq<byte>>): nat {
    if ss == [] then 0 else |ss[0]| + H.HEADER + Demand(ss[1..])
  }

  ghost function ColumnDemand(cs: seq<ColumnSetup>): nat {
    if cs == [] then 0 else Demand(Strings(cs[0])) + ColumnDemand(cs[1..])
  }

  /** The name, the column names and the varchar defaults fit into one heap block. */
  ghost predicate HeaderFits(s: TableSetup) {
    Room(BlockSizeFor(SetupRowSize(s.columns)), Demand([s.name]) + ColumnDemand(s.columns))
  }

  ghost predicate Room(blockSize: nat, demand: nat) {
    BLOCK_HEADER + 3 * H.HEADER + demand <= blockSize
  }

  lemma {:induction false} ColumnDemandSnoc(cs: seq<ColumnSetup>, i: nat)
    requires i < |cs|
    ensures ColumnDemand(cs[..i + 1]) == ColumnDemand(cs[..i]) + Demand(Strings(cs[i]))
  {
    hide Demand, Strings;
    if i == 0 {
      assert cs[..1][1..] == [];
    } else {
      ColumnDemandSnoc(cs[1..], i - 1);
      assert cs[1..][..i] == cs[..i + 1][1..] && cs[1..][..i - 1] == cs[..i][1..];
    }
  }

  lemma {:induction false} ColumnDemandPrefix(cs: seq<ColumnSetup>, i: nat)
    requires i <= |cs|
    ensures ColumnDemand(cs[..i]) <= ColumnDemand(cs)
    decreases |cs| - i
  {
    hide Demand, Strings;
    if i == |cs| {
      assert cs[..i] == cs;
    } else {
      ColumnDemandSnoc(cs, i);
      ColumnDemandPrefix(cs, i + 1);
    }
  }

  /** After strings that need `demand` bytes: one gap is left in the first heap block, or a second
      one was added. */
  ghost predicate Placed(bl: seq<Block>, blockSize: nat, demand: nat) {
    if Room(blockSize, demand)
    then Gap(bl, H.HEADER + demand, blockSize - BLOCK_HEADER - 2 * H.HEADER - demand)
    else |bl| > 2
  }

  lemma PlacedNext(bl: seq<Block>, bl': seq<Block>, blockSize: nat, demand: nat, size: nat)
    requires Placed(bl, blockSize, demand) && GapStep(bl, bl', size) && |bl| <= |bl'|
    ensures Placed(bl', blockSize, demand + size + H.HEADER)
  {
    hide Gap;
  }

  lemma PlacedFull(bl: seq<Block>, blockSize: nat, demand: nat, size: nat)
    requires Placed(bl, blockSize, demand) && GapFull(bl, size)
    ensures !Room(blockSize, demand + size + H.HEADER)
  {
    hide Gap;
  }

  // ---- Writing the header ----

  lemma ColumnFrame(bl: seq<Block>, bl': seq<Block>, n: multiset<Span>, c: Column, s: ColumnSetup)
    requires ColumnStored(bl, c, s) && Grown(bl, bl', n)
    ensures ColumnStored(bl', c, s)
  {
    hide InUse, Content;
    StaysInUse(bl, bl', n, c.name);
    if DefaultOf(c).SpanField? {
      StaysInUse(bl, bl', n, DefaultOf(c).span);
    }
  }

  lemma ColumnsFrame(bl: seq<Block>, bl': seq<Block>, n: multiset<Span>, cs: seq<Column>, ss: seq<ColumnSetup>)
    requires ColumnsStored(bl, cs, ss) && Grown(bl, bl', n)
    ensures ColumnsStored(bl', cs, ss)
  {
    hide Grown, ColumnStored;
    forall i | 0 <= i < |cs| ensures ColumnStored(bl', cs[i], ss[i]) {
      ColumnFrame(bl, bl', n, cs[i], ss[i]);
    }
  }

  lemma {:induction false} ColumnSpansSnoc(cs: seq<Column>, c: Column)
    ensures ColumnSpans(cs + [c]) == ColumnSpans(cs) + multiset{c.name} + SpanOf(DefaultOf(c))
  {
    hide SpanOf, DefaultOf;
    if cs == [] {
      assert [c][1..] == [];
      assert cs + [c] == [c];
    } else {
      ColumnSpansSnoc(cs[1..], c);
      assert (cs + [c])[1..] == cs[1..] + [c];
    }
  }

  /** `write_edb_value`, for a default that is not missing: the field that is written to the union. */
  method WriteDefault(db: EDBFile, v: Value, ghost demand: nat) returns (r: HeapResult, f: Field)
    requires db.HeapValid() && DefaultOk(v) && Placed(db.file.blocks, db.file.blockSize, demand)
    modifies db.file, db`lastTableBlock, db`lastHeapBlock
    ensures db.HeapValid() && HeapOnly(old(db.file.blocks), db.file.blocks)
    ensures var need := if v.Varchar? then |v.s| + H.HEADER else 0;
            if r.Allocated? then Placed(db.file.blocks, db.file.blockSize, demand + need)
            else !Room(db.file.blockSize, demand + need)
    ensures r.Allocated? ==>
              && Grown(old(db.file.blocks), db.file.blocks, SpanOf(f)) && StaysSame(db.file.blocks, f)
              && if v.Varchar? then f.SpanField? && Content(db.file.blocks, f.span) == v.s else f == UnionField(v)
    ensures r.Allocated? && f.SpanField? ==> f.span.ptr.Encodable() && f.span.size < U64_LIMIT
  {
    hide Chains, Grown, InUse, Content, M.Maps, Gap, GapStep, GapFull, Placed, HeapOnly, Truncated, Converts;
    ghost var bl := db.file.blocks;
    GrownRefl(bl);
    if v.Varchar? {
      r := db.CopyToHeap(v.s);
      HeapOnlyTypes(bl, db.file.blocks);
      if r.Allocated? {
        f := SpanField(r.span);
        InUseSized(db.file.blocks, r.span);
        PlacedNext(bl, db.file.blocks, db.file.blockSize, demand, |v.s|);
      } else {
        f := NullField;
        PlacedFull(bl, db.file.blockSize, demand, |v.s|);
      }
    } else {
      f := UnionField(v);
      r := Allocated(Span(NULL, 0));
    }
  }

  /** `Serializer::write_column`. The column is stored as set up if its default survives. */
  method WriteColumn(db: EDBFile, s: ColumnSetup, ghost demand: nat)
    returns (r: HeapResult, c: Column, ghost spans: multiset<Span>)
    requires db.HeapValid() && DefaultOk(s.default)
    requires Placed(db.file.blocks, db.file.blockSize, demand)
    modifies db.file, db`lastTableBlock, db`lastHeapBlock
    ensures db.HeapValid() && HeapOnly(old(db.file.blocks), db.file.blocks)
    ensures if r.Allocated? then Placed(db.file.blocks, db.file.blockSize, demand + Demand(Strings(s)))
            else !Room(db.file.blockSize, demand + Demand(Strings(s)))
    ensures r.Allocated? ==>
              && Grown(old(db.file.blocks), db.file.blocks, spans) && ColumnWritten(c, s)
              && (DefaultKept(s) ==>
                    ColumnStored(db.file.blocks, c, s) && spans == multiset{c.name} + SpanOf(DefaultOf(c)))
  {
    hide Chains, Grown, InUse, Content, M.Maps, Gap, GapStep, GapFull, Placed, HeapOnly, SpanOf, ValueOf, Stored,
         UnionOf, UnionField, DefaultOf, DefaultOk, DefaultKept;
    ghost var bl := db.file.blocks;
    DemandOf(s);
    c := Unnamed1(s);
    spans := multiset{};
    r := db.CopyToHeap(s.name);
    HeapOnlyTypes(bl, db.file.blocks);
    if !r.Allocated? {
      PlacedFull(bl, db.file.blockSize, demand, |s.name|);
      return;
    }
    PlacedNext(bl, db.file.blocks, db.file.blockSize, demand, |s.name|);
    ghost var bl1 := db.file.blocks;
    var name := r.span;
    var f;
    r, f := WriteDefault(db, s.default, demand + |s.name| + H.HEADER);
    HeapOnlyTrans(bl, bl1, db.file.blocks);
    c := c.(name := name, default := UnionOf(f));
    if r.Allocated? {
      spans := multiset{name} + SpanOf(f);
      GrownTrans(bl, bl1, db.file.blocks, multiset{name}, SpanOf(f));
      StaysInUse(bl1, db.file.blocks, SpanOf(f), name);
      if DefaultKept(s) {
        KeptIsStored(db.file.blocks, c, s, f);
      }
    }
  }

  lemma StaysInUse(bl: seq<Block>, bl': seq<Block>, n: multiset<Span>, sp: Span)
    requires Grown(bl, bl', n) && InUse(bl, sp)
    ensures InUse(bl', sp) && Content(bl', sp) == Content(bl, sp)
  {
    hide InUse, Content;
  }

  lemma DemandOf(s: ColumnSetup)
    ensures Demand(Strings(s)) == |s.name| + H.HEADER + if s.default.Varchar? then |s.default.s| + H.HEADER else 0
  {
    var ss := Strings(s);
    if s.default.Varchar? {
      assert ss[1..] == [s.default.s] && ss[1..][1..] == [];
      assert Demand(ss[1..]) == |s.default.s| + H.HEADER;
    } else {
      assert ss[1..] == [];
    }
  }

  ghost function HeaderDemand(s: TableSetup): nat {
    |s.name| + H.HEADER + ColumnDemand(s.columns)
  }

  /** The first `i` columns of the header are written, and have brought `spans` into use. */
  ghost predicate HeaderSoFar(bl0: seq<Block>, bl: seq<Block>, blockSize: nat, s: TableSetup, name: Span, i: nat,
                              cs: seq<Column>, spans: multiset<Span>) {
    && i <= |s.columns|
    && HeapOnly(bl0, bl)
    && Grown(bl0, bl, multiset{name} + spans)
    && Placed(bl, blockSize, |s.name| + H.HEADER + ColumnDemand(s.columns[..i]))
    && InUse(bl, name) && Content(bl, name) == s.name
    && ColumnsWritten(cs, s.columns[..i])
    && (DefaultsKept(s.columns[..i]) ==> spans == ColumnSpans(cs) && ColumnsStored(bl, cs, s.columns[..i]))
  }

  ghost predicate ColumnsWritten(cs: seq<Column>, ss: seq<ColumnSetup>) {
    |cs| == |ss| && forall i | 0 <= i < |cs| :: ColumnWritten(cs[i], ss[i])
  }

  lemma HeaderStep(bl0: seq<Block>, bl: seq<Block>, bl': seq<Block>, blockSize: nat, s: TableSetup, name: Span,
                   i: nat, cs: seq<Column>, spans: multiset<Span>, c: Column, n: multiset<Span>)
    requires HeaderSoFar(bl0, bl, blockSize, s, name, i, cs, spans) && i < |s.columns|
    requires HeapOnly(bl, bl') && Grown(bl, bl', n) && ColumnWritten(c, s.columns[i])
    requires DefaultKept(s.columns[i]) ==>
               ColumnStored(bl', c, s.columns[i]) && n == multiset{c.name} + SpanOf(DefaultOf(c))
    requires Placed(bl', blockSize, |s.name| + H.HEADER + ColumnDemand(s.columns[..i]) + Demand(Strings(s.columns[i])))
    ensures HeaderSoFar(bl0, bl', blockSize, s, name, i + 1, cs + [c], spans + n)
  {
    hide HeapOnly, Grown, Placed, InUse, Content, ColumnsStored, ColumnStored, ColumnSpans, ColumnDemand, Demand,
         Strings, SpanOf, ColumnWritten, DefaultKept, DefaultOf;
    HeapOnlyTrans(bl0, bl, bl');
    GrownTrans(bl0, bl, bl', multiset{name} + spans, n);
    assert multiset{name} + spans + n == multiset{name} + (spans + n);
    ColumnDemandSnoc(s.columns, i);
    StaysInUse(bl, bl', n, name);
    assert s.columns[..i + 1] == s.columns[..i] + [s.columns[i]];
    if DefaultsKept(s.columns[..i + 1]) {
      assert DefaultKept(s.columns[..i + 1][i]);
      assert DefaultsKept(s.columns[..i]) by {
        assert forall j | 0 <= j < i :: s.columns[..i][j] == s.columns[..i + 1][j];
      }
      ColumnSpansSnoc(cs, c);
      assert ColumnSpans(cs + [c]) == spans + n;
      ColumnsFrame(bl, bl', n, cs, s.columns[..i]);
      ColumnsSnoc(bl', cs, s.columns, i, c);
    }
  }

  lemma ColumnsSnoc(bl: seq<Block>, cs: seq<Column>, ss: seq<ColumnSetup>, i: nat, c: Column)
    requires i < |ss| && ColumnsStored(bl, cs, ss[..i]) && ColumnStored(bl, c, ss[i])
    ensures ColumnsStored(bl, cs + [c], ss[..i + 1])
  {
    hide ColumnStored;
  }

  /** `write_header`: the table name, then the columns. It fails only when the strings do not fit
      into one heap block. */
  method WriteHeader(db: EDBFile, s: TableSetup) returns (r: HeapResult, ghost spans: multiset<Span>)
    requires db.HeapValid() && SetupOk(s.columns) && Placed(db.file.blocks, db.file.blockSize, 0)
    modifies db.file, db`lastTableBlock, db`lastHeapBlock, db`tableName, db`columns
    ensures db.HeapValid()
    ensures r.Allocated? ==>
              HeaderSoFar(old(db.file.blocks), db.file.blocks, db.file.blockSize, s, db.tableName, |s.columns|,
                          db.columns, spans)
    ensures !r.Allocated? ==> !Room(db.file.blockSize, HeaderDemand(s))
  {
    hide Chains, HeapOnly, Grown, M.Maps, Placed, InUse, Content, ColumnStored, Demand, Strings, Gap, GapStep,
         GapFull, ColumnDemand, DefaultOk, ColumnWritten, DefaultKept, HeaderSoFar;
    ghost var bl := db.file.blocks;
    spans := multiset{};
    ColumnDemandPrefix(s.columns, 0);
    r := db.CopyToHeap(s.name);
    HeapOnlyTypes(bl, db.file.blocks);
    if !r.Allocated? {
      PlacedFull(bl, db.file.blockSize, 0, |s.name|);
      return;
    }
    PlacedNext(bl, db.file.blocks, db.file.blockSize, 0, |s.name|);
    HeaderStart(bl, db.file.blocks, db.file.blockSize, s, r.span);
    db.tableName := r.span;
    var columns: seq<Column> := [];
    for i := 0 to |s.columns|
      invariant db.HeapValid() && r.Allocated?
      invariant HeaderSoFar(bl, db.file.blocks, db.file.blockSize, s, db.tableName, i, columns, spans)
    {
      ghost var bl1 := db.file.blocks;
      ghost var demand := |s.name| + H.HEADER + ColumnDemand(s.columns[..i]);
      SoFarPlaced(bl, bl1, db.file.blockSize, s, db.tableName, i, columns, spans);
      var c;
      ghost var n;
      r, c, n := WriteColumn(db, s.columns[i], demand);
      if !r.Allocated? {
        ColumnDemandSnoc(s.columns, i);
        ColumnDemandPrefix(s.columns, i + 1);
        return;
      }
      HeaderStep(bl, bl1, db.file.blocks, db.file.blockSize, s, db.tableName, i, columns, spans, c, n);
      columns := columns + [c];
      spans := spans + n;
    }
    db.columns := columns;
  }

  lemma SoFarPlaced(bl0: seq<Block>, bl: seq<Block>, blockSize: nat, s: TableSetup, name: Span, i: nat,
                    cs: seq<Column>, spans: multiset<Span>)
    requires HeaderSoFar(bl0, bl, blockSize, s, name, i, cs, spans)
    ensures i <= |s.columns| && Placed(bl, blockSize, |s.name| + H.HEADER + ColumnDemand(s.columns[..i]))
  {
    hide HeapOnly, Grown, Placed, InUse, Content;
  }

  lemma HeaderStart(bl: seq<Block>, bl': seq<Block>, blockSize: nat, s: TableSetup, name: Span)
    requires HeapOnly(bl, bl') && Grown(bl, bl', multiset{name})
    requires Placed(bl', blockSize, |s.name| + H.HEADER) && InUse(bl', name) && Content(bl', name) == s.name
    ensures HeaderSoFar(bl, bl', blockSize, s, name, 0, [], multiset{})
  {
    hide HeapOnly, Grown, Placed, InUse, Content;
    assert multiset{name} + multiset{} == multiset{name};
  }

  // ---- The new file ----

  ghost function FirstBlocks(blockSize: nat): seq<Block>
    requires BLOCK_HEADER + 2 * H.HEADER <= blockSize
  {
    Appended(Appended([], TABLE, 0, blockSize), HEAP, 0, blockSize)
  }

  /** The two blocks of a new file: no row, nothing in use, one gap. */
  lemma FirstBlocksState(rs: nat)
    requires BlockSizeFor(rs) < U32_LIMIT
    ensures var bl := FirstBlocks(BlockSizeFor(rs));
            && |bl| == 2 && IsType(bl, 1, TABLE) && IsType(bl, 2, HEAP)
            && ListPart(bl, rs, [], NULL, NULL)
            && Exact(bl, multiset{})
            && Placed(bl, BlockSizeFor(rs), 0)
  {
    hide Appended, H.Fresh, H.OneGap, ListOk, CountOk, Slots, Type, Payload, InUse, HeapOnly;
    var size := BlockSizeFor(rs);
    var bl1 := Appended([], TABLE, 0, size);
    var bl2 := FirstBlocks(size);
    NoBlocks(rs);
    AppendedList([], 0, rs, [], NULL, NULL);
    AppendedNew([], TABLE, 0, size);
    AppendedNew(bl1, HEAP, 0, size);
    AppendedOld(bl1, HEAP, 0, size, 1);
    FreshBlockAnswers(bl1, 0, 0, size);
    AppendedSized(bl1, size);
    HeapOnlyList(bl1, bl2, rs, [], NULL, NULL);
    AppendedGrows([], TABLE, 0, size);
    AppendedGrows(bl1, HEAP, 0, size);
    ExactGrown([], bl1, multiset{}, multiset{});
    ExactGrown(bl1, bl2, multiset{}, multiset{});
    H.FreshGap(size - BLOCK_HEADER);
  }

  lemma NoBlocks(rs: nat)
    ensures ListPart([], rs, [], NULL, NULL) && Exact([], multiset{})
  {
    hide SpecAt;
  }

  lemma AppendedSized(bl: seq<Block>, size: nat)
    requires BLOCK_HEADER + 2 * H.HEADER <= size && Sized(bl, size)
    ensures Sized(Appended(bl, HEAP, 0, size), size)
  {
  }

  datatype Created = Created(db: EDBFile) | TooManyColumns | Failed(error: HeapResult)

  /** What a caller wants: a sound, empty table of that name and those columns. */
  ghost predicate IsNewTable(db: EDBFile, s: TableSetup)
    reads db, db.file
  {
    && db.Valid() && db.Tuples() == [] && db.Name() == s.name && db.leaked == multiset{}
    && ColumnsStored(db.file.blocks, db.columns, s.columns)
  }

  /** A new table: no rows, the name, and the columns with their types, flags, names and default values. */
  lemma NewTableMeans(db: EDBFile, s: TableSetup)
    requires IsNewTable(db, s)
    ensures |db.Tuples()| == 0 && db.Name() == s.name && |db.columns| == |s.columns|
    ensures forall i | 0 <= i < |s.columns| ::
              var c, t := db.columns[i], s.columns[i];
              && c.ty == t.ty && c.autoIncrement == t.autoIncrement && c.unique == t.unique && c.notNull == t.notNull
              && Content(db.file.blocks, c.name) == t.name
    ensures forall i | 0 <= i < |s.columns| ::
              ValueOf(db.file.blocks, DefaultOf(db.columns[i])) == Stored(s.columns[i].default)
  {
    hide Content, InUse, StaysSame, ValueOf, DefaultOf, Stored, EDBFile.Valid, EDBFile.Tuples, EDBFile.Name;
  }

  /** Allocates the blocks for the table and its data. */
  method AllocateFirstBlocks(db: EDBFile) returns (ok: bool)
    requires db.file.Valid() && db.file.blocks == [] && db.lastTableBlock == db.lastHeapBlock == 0
    modifies db.file, db`lastTableBlock, db`lastHeapBlock
    ensures ok <==> db.file.capacity >= 2
    ensures ok ==> db.ChainsValid() && db.file.blocks == FirstBlocks(db.file.blockSize)
  {
    hide Chains, M.Maps, Appended;
    EmptyChains();
    var b;
    ok, b := db.AllocateBlock(TABLE);
    if ok {
      ok, b := db.AllocateBlock(HEAP);
    }
  }

  /** `initialize`. The header is written with 1 and 2 as the last blocks of the two chains. That is
      right exactly when the strings in the header fit into the first heap block; otherwise
      initialization reports success for a file whose heap chain does not end where the header says,
      or fails. Default values are written to a union by their own type and read by the column's, so a
      sound table as set up is there exactly if besides all defaults survive that. The check of the
      column count comes first here; the two blocks the source allocates before it are of no
      consequence, as the file is given up. */
  method Initialize(s: TableSetup, capacity: nat) returns (r: Created)
    requires SetupOk(s.columns) && capacity + 1 < U32_LIMIT
    ensures r.TooManyColumns? <==> |s.columns| > 255
    ensures |s.columns| <= 255 && capacity >= 2 && HeaderFits(s) ==> r.Created?
    ensures r.Created? ==> fresh(r.db) && fresh(r.db.file)
    ensures r.Created? ==> (IsNewTable(r.db, s) <==> HeaderFits(s) && DefaultsKept(s.columns))
    ensures r.Created? ==> (r.db.HeapValid() <==> HeaderFits(s))
    ensures r.Created? && HeaderFits(s) ==> |r.db.file.blocks| == 2
    ensures r.Created? ==> r.db.file.headerSize == 79 + 37 * |s.columns|
    ensures r.Created? && HeaderFits(s) && DefaultsKept(s.columns) ==>
              && r.db.Valid() && |r.db.Tuples()| == 0 && r.db.Name() == s.name && |r.db.columns| == |s.columns|
              && forall i | 0 <= i < |s.columns| ::
                   var c, t := r.db.columns[i], s.columns[i];
                   && c.ty == t.ty && c.autoIncrement == t.autoIncrement && c.unique == t.unique
                   && c.notNull == t.notNull && Content(r.db.file.blocks, c.name) == t.name
                   && ValueOf(r.db.file.blocks, DefaultOf(c)) == Stored(t.default)
  {
    hide Chains, HeapOnly, Grown, M.Maps, Placed, InUse, Content, StateOk, HeaderSoFar, RowSize, FirstBlocks,
         ColumnsStored, HeaderFits, Type, HeaderDemand, SetupOk, DefaultsKept;
    if |s.columns| > 255 {
      return TooManyColumns;
    }
    var blockSize := FirstPass(s.columns);
    RowSizeBound(Unnamed(s.columns));
    ghost var rs := SetupRowSize(s.columns);
    FirstBlocksState(rs);
    var file := new M.MappedFile(FILE_HEADER + COLUMN_HEADER * |s.columns|, blockSize, capacity);
    var db := new EDBFile(file);
    var ok := AllocateFirstBlocks(db);
    if !ok {
      return Created.Failed(DiskFull);
    }
    ghost var bl := file.blocks;
    var w, spans := WriteHeader(db, s);
    DemandSum(s);
    if !w.Allocated? {
      return Created.Failed(w);
    }
    HeaderWritten(bl, file.blocks, s, db.tableName, db.columns, spans, db.lastTableBlock, db.lastHeapBlock);
    db.lastTableBlock, db.lastHeapBlock := 1, 2;
    if HeaderFits(s) && DefaultsKept(s.columns) {
      NewTableMeans(db, s);
    }
    return Created(db);
  }

  lemma EmptyChains()
    ensures Chains([], 0, 0)
  {
  }

  lemma DemandSum(s: TableSetup)
    ensures HeaderFits(s) <==> Room(BlockSizeFor(SetupRowSize(s.columns)), HeaderDemand(s))
  {
    assert [s.name][1..] == [];
    assert Demand([s.name]) == |s.name| + H.HEADER;
  }

  lemma HeaderWritten(bl: seq<Block>, bl': seq<Block>, s: TableSetup, name: Span, cs: seq<Column>,
                      spans: multiset<Span>, lastTable: nat, lastHeap: nat)
    requires var size := BlockSizeFor(SetupRowSize(s.columns));
             && size < U32_LIMIT && bl == FirstBlocks(size)
             && HeaderSoFar(bl, bl', size, s, name, |s.columns|, cs, spans)
             && Sized(bl', size)
    requires Chains(bl', lastTable, lastHeap) && SetupOk(s.columns)
    ensures RowSize(cs) == SetupRowSize(s.columns) && Content(bl', name) == s.name
    ensures ColumnsStored(bl', cs, s.columns) <==> DefaultsKept(s.columns)
    ensures DefaultsKept(s.columns) ==> StateOk(bl', cs, [], NULL, NULL, name, multiset{})
    ensures IsType(bl', 1, TABLE) && IsType(bl', 2, HEAP)
    ensures Chains(bl', 1, 2) <==> HeaderFits(s)
    ensures HeaderFits(s) ==> |bl'| == 2
  {
    hide Chains, HeapOnly, Grown, Placed, InUse, Content, ListPart, ColumnStored, Exact, ColumnDemand, FirstBlocks,
         HeaderFits, Type, ColumnWritten, DefaultKept, DefaultOk;
    var rs := SetupRowSize(s.columns);
    assert s.columns[..|s.columns|] == s.columns;
    WidthsMatch(cs, s.columns);
    FirstBlocksState(rs);
    HeapOnlyTypes(bl, bl');
    HeapOnlyList(bl, bl', rs, [], NULL, NULL);
    ExactGrown(bl, bl', multiset{}, multiset{name} + spans);
    if DefaultsKept(s.columns) {
      NewOwned(bl', cs, name);
    }
    if ColumnsStored(bl', cs, s.columns) {
      forall i | 0 <= i < |s.columns| ensures DefaultKept(s.columns[i]) {
        StoredIsKept(bl', cs[i], s.columns[i]);
      }
    }
    DemandSum(s);
    ChainEnds(bl, bl', lastTable, lastHeap, BlockSizeFor(rs), HeaderDemand(s));
  }

  lemma NewOwned(bl: seq<Block>, cs: seq<Column>, name: Span)
    requires Exact(bl, multiset{} + (multiset{name} + ColumnSpans(cs)))
    ensures Owned(bl, cs, name, [], multiset{})
  {
    hide Exact, ColumnSpans;
    assert multiset{} + (multiset{name} + ColumnSpans(cs)) == References(cs, name, []) + multiset{};
  }

  lemma WidthsMatch(cs: seq<Column>, ss: seq<ColumnSetup>)
    requires ColumnsWritten(cs, ss)
    ensures RowSize(cs) == SetupRowSize(ss)
  {
    forall i | 0 <= i < |cs| ensures Width(cs[i]) == Width(Unnamed(ss)[i]) {
      assert ColumnWritten(cs[i], ss[i]);
    }
    RowSizeOf(cs, Unnamed(ss));
  }

  /** With one Heap block, 1 and 2 are the chain ends; with more, 2 is not. */
  lemma ChainEnds(bl: seq<Block>, bl': seq<Block>, lastTable: nat, lastHeap: nat, size: nat, demand: nat)
    requires |bl| == 2 && IsType(bl, 1, TABLE) && IsType(bl, 2, HEAP) && HeapOnly(bl, bl')
    requires Chains(bl', lastTable, lastHeap) && Placed(bl', size, demand)
    ensures Chains(bl', 1, 2) <==> Room(size, demand)
    ensures Room(size, demand) ==> |bl'| == 2
  {
    hide Type, H.OneGap, H.Tiled, Payload, LinkedAt, Next, Prev;
    if |bl'| == 2 {
      assert PrevFrom(bl', HEAP, 2) == 2;
      assert PrevFrom(bl', TABLE, 2) == PrevFrom(bl', TABLE, 1) == 1;
    } else {
      assert InFile(bl', |bl'|) && !InFile(bl, |bl'|);
      assert PrevFrom(bl', HEAP, |bl'|) == |bl'|;
    }
  }
}
