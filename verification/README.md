# EssaDB in Dafny

EssaDB is a small SQL engine with its own on-disk table format. This project models the parts of it that
carry the hard guarantees, and proves those guarantees for all inputs:

* **The EDB table file** (`Bytes`, `HeapBlock`, `Blocks`, `MappedFile`, `HeapChain`, `RowCodec`,
  `RowTransfer`, `RowList`, `TableState`, `Ownership`, `TableOps`, `SlotScan`, `EDBFile`, `Floats`,
  `Initialize`, `RelationIterator`, `Statements`, `Runs`, `Overflow`). A file is a byte string, cut into
  blocks; blocks of a type are doubly linked; heap blocks hold a first-fit free store; table blocks hold 255
  slots each, and the rows are a singly linked list through slots. `EDBFile` works on those bytes. Its
  invariant `Valid` says that both block chains are in order, that every heap block is tiled by its chunks,
  that the list of rows runs through exactly the used slots, that the counters are right, and that the chunks
  in use are exactly those that the table name, the columns and the rows refer to, each once (plus `leaked`,
  the chunks that failed insertions left behind). `Tuples()` is what the file means: a sequence of tuples.
* **The expression parser, the lexer and the printer** (`Tokens`, `Grammar`, `Reading`, `Completeness`,
  `Soundness`, `Precedence`, `Binding`, `Parser`, `Meaning`, `Lexer`, `Printing`, `Lexemes`). `Grammar` gives
  trees, the tokens they are written with, and which of them are *canonical*; the parser reads exactly the
  canonical trees. `Binding`, `Meaning` and `Lexemes` say the same by the kinds of tokens and by characters.
* **Queries and constraints** (`StableSort`, `Ordering`, `Joins`, `LeftJoin`, `JoinEvaluation`, `Select`,
  `Constraints`). The one-pass merge joins over a sorted multimap against the nested-loop join and the left
  outer join; GROUP BY, COUNT, ORDER BY and TOP; the checks of `Table::insert` over runs of statements.

Classes with mutable fields are classes here, and loops are methods with invariants; each is tied to
functions and predicates on values, about which the lemmas speak.

What the functions mean is said again without them, in bytes, in positions of rows, and by kinds of tokens:
`InUseBytes`, `ChainsInBytes`, `ListInSlots` and `FieldBytes` for the file, `DeleteFrom`, `Evaluate` and
`CheckForeignKeys` for statements, `TighterBinds` for the parser.

Several properties do not hold of the code on all inputs. The model keeps the code as it is; the exact
condition is proved in each case:

* `HeapAllocate`: the size guard lets through requests that end in the unreachable branch
  (`size + 41 > block_size`).
* `Insert`: the scan for a free slot does not look at block types, so a row can be written into a Heap block.
  `Insert` keeps the file sound exactly if every Heap block with a zero byte where the scan reads a flag has a
  Table block with room (by its counter) in front of it (`PlaceSafe`, `SafeExactly`). Below 255 rows that is so
  (`FewRowsAreSafe`); with rows of at most three bytes it is so exactly while the counter of block 1 is below 255
  (`TheRow256`). Otherwise the heap is no tiling any more; `InsertRow256` is a run from a new table that ends so.
* `Insert`: a row with a varchar that is too long is refused, but the varchars copied before it stay
  allocated (`LeakCount`).
* `Rename`: a name that does not fit leaves the header pointing to a freed chunk.
* `WriteBack`, and with it UPDATE: when the new row cannot be stored the file stays sound exactly if the old row
  had no varchars; otherwise the row refers to chunks that were freed.
* `Initialize`: the header claims 1 and 2 as the last blocks, which is right exactly if the name, the column
  names and the varchar defaults fit into one heap block (`HeaderFits`). And a default value is written to a
  union by its own type and read by the column's, floats by way of an integer. So the table is as set up exactly
  if besides every default is NULL or of its column's type, and a whole number if it is a float
  (`DefaultsKept`); `IntegerAsSpan` and `HalfIsCut` are failing inputs.
* `StoredExact`: storing a time loses its clock part.
* `InnerJoinExact`: the merge is the nested-loop join exactly if every key common to both tables is unique in
  each of them.
* `LeftJoinExact`: the merge is the left outer join exactly if every left key is the key of one left row only
  and of one right row at most, and the greatest left key is not above all right keys. `InnerJoinFails` and
  `LeftJoinFails` are failing inputs.
* `OrderByIsOrder` and `LessIsOrder`: the comparisons of ORDER BY and GROUP BY are orders exactly if no column in
  front of one that varies can have both NULL and the value it equals (zero, false, "null", the start of the
  epoch); `BothLess` gives two rows each below the other otherwise.

Where code and documentation disagree the code is followed: `docs/EDBFileFormat.md` gives column names and
values 14 bytes, the code 16.

`dafny verify dfyconfig.toml` checks the whole project.

## Model

| member | source | states |
|---|---|---|
| HeapBlocks.ChunkRange | db/storage/edb/Heap.cpp:71-115 | every chunk of a tiled block lies between the headers and the end edge, and its own header says its signature and size |
| HeapBlocks.ChunksDisjoint | db/storage/edb/Heap.cpp:75-115 | two chunks are the same chunk or their payloads are at least a header apart |
| HeapBlocks.EndsWithEdge | db/storage/edb/Heap.cpp:51-56 | a tiled block ends with an end edge of size zero |
| HeapBlocks.FirstFitIsLowest | db/storage/edb/Heap.cpp:84-101 | if any available chunk has 16 bytes more than requested, first fit finds one, and none of those lies before it |
| HeapBlocks.FirstFitIsChunk | db/storage/edb/Heap.cpp:84-101 | what first fit returns is a chunk of the block |
| HeapBlocks.ServedExactly | db/storage/edb/Heap.cpp:75-101 | first fit serves a request if and only if an empty or a freed chunk has sixteen bytes more, and takes the first of these |
| HeapBlocks.CarveEffect | db/storage/edb/Heap.cpp:91-100 | allocation keeps the block tiled, replaces one available chunk by a used one of exactly the requested size and an empty one of the rest, and leaves every other chunk |
| HeapBlocks.CarvePayloads | db/storage/edb/Heap.cpp:91-100 | allocation changes no byte of a used payload, and hands out bytes no used chunk has |
| HeapBlocks.CarveOutgrown | db/storage/edb/Heap.cpp:84-101 | where a chunk of some size was freed, no later allocation makes a used chunk of that size |
| HeapBlocks.FreeEffect | db/storage/edb/Heap.cpp:117-122 | freeing keeps the block tiled and turns exactly one used chunk into a freed one |
| HeapBlocks.FreePayloads | db/storage/edb/Heap.cpp:117-122 | freeing changes no byte of another payload |
| HeapBlocks.WriteEffect | db/storage/edb/EDBFile.hpp:65-69 | writing through a used span changes no header: the chunks stay the same |
| HeapBlocks.WritePayloads | db/storage/edb/EDBFile.hpp:65-69 | writing through one used span leaves every other used payload unchanged |
| HeapBlocks.FreshEffect | db/storage/edb/Heap.cpp:51-63 | a new heap block of n data bytes is tiled by one empty chunk and serves a request exactly if it is 32 bytes smaller than n |
| HeapBlocks.GapServes | db/storage/edb/Heap.cpp:84-101 | a block with a single gap serves a request exactly if the gap has 16 bytes more, and then the gap shrinks by the request and a header |
| HeapBlocks.FirstByteHit | db/storage/edb/EDBFile.cpp:439 | counting up the first byte of a heap block makes its first chunk invalid |
| Bytes.LittleEndian | db/storage/edb/Endian.hpp:10-27 | a number of four bytes has the least significant one first |
| HeapBlocks.FreshBytes | db/storage/edb/Heap.cpp:51-63 | a new heap block byte by byte: an empty header with the size, scrub bytes 0xEF, the end edge |
| HeapBlocks.CarveBytes | db/storage/edb/Heap.cpp:84-101 | which bytes an allocation changes: the header becomes used with the requested size, an empty header with the rest comes behind the span, and nothing else changes |
| HeapBlocks.FreedBytes | db/storage/edb/Heap.cpp:117-122 | freeing changes the four bytes of the signature only |
| HeapBlocks.HeapBlock.Init | db/storage/edb/Heap.cpp:51-63 | writes the empty header, the end edge and the scrub bytes in between |
| HeapBlocks.HeapBlock.Alloc | db/storage/edb/Heap.cpp:75-115 | on a tiled block: terminates, returns neither corruption error, carves the first fitting chunk, or returns none and changes nothing, which it does if and only if no empty or freed chunk has sixteen bytes more than requested |
| HeapBlocks.HeapBlock.Free | db/storage/edb/Heap.cpp:117-122 | marks the chunk before the offset as freed and changes nothing else |
| Blocks.AppendedOld | db/storage/edb/EDBFile.cpp:224-278 | allocating a block changes nothing in the old blocks but the next pointer of the last block of that type |
| Blocks.AppendedChain | db/storage/edb/EDBFile.cpp:246-266 | allocating a block keeps a chain doubly linked in index order, through every block of its type, up to its last block |
| Blocks.AppendedChains | db/storage/edb/EDBFile.cpp:224-278 | allocating a Table or Heap block keeps both chains and the tiling of all heap blocks |
| Blocks.InUseUnique | db/storage/edb/Heap.cpp:75-115 | two spans in use that begin at the same place or have a byte position in common are the same span |
| Blocks.InUseBytes | db/storage/edb/Heap.cpp:75-101 | a span in use lies in a block of type 2, with the used signature and its size in the eight bytes in front of it |
| Blocks.AppendedBytes | db/storage/edb/EDBFile.cpp:239-276 | the type and the two links a new block begins with; of all other bytes only the next pointer of the block before it changes |
| Blocks.ChainsInBytes | db/storage/edb/Definitions.hpp:48-60 | read from the bytes: links are mutual, stay in one type, skip no block of it, and end at the last Table and the last Heap block |
| Blocks.AllocGrows | db/storage/edb/Heap.cpp:153-168 | allocating in a block brings exactly one span into use and keeps the content of all others |
| Blocks.FreeShrinks | db/storage/edb/Heap.cpp:200-205 | freeing takes exactly one span out of use, for good, and keeps the content of all others |
| Blocks.ShrunkForGood | db/storage/edb/Heap.cpp:117-122 | a span that was freed is not in use again after any number of allocations |
| Blocks.FillGrows | db/storage/edb/EDBFile.hpp:65-69 | filling a new span changes the content of that span only |
| Blocks.AppendedGrows | db/storage/edb/EDBFile.cpp:224-278 | allocating a block takes no span into or out of use |
| MappedFiles.BlockOffsetInjective | db/storage/edb/EDBFile.cpp:199-202 | different places (block, offset) are different file positions |
| MappedFiles.AccessInBounds | db/storage/edb/EDBFile.hpp:37-56 | a byte range inside a block lies inside the file, so the assertions of `access` hold, and it holds the block's bytes |
| MappedFiles.FileInBytes | db/storage/edb/EDBFile.cpp:199-202 | the file is its header and the blocks, one after the other |
| MappedFiles.WriteMaps | db/storage/edb/EDBFile.hpp:37-56 | writing file bytes through (block, offset) changes those bytes of that block only |
| MappedFiles.ExpandMaps | db/storage/edb/EDBFile.cpp:212-219 | expanding the file adds one zeroed block |
| MappedFiles.MappedFile.Read | db/storage/edb/EDBFile.hpp:47-56 | reads the bytes of the block at the offset |
| MappedFiles.MappedFile.Write | db/storage/edb/EDBFile.hpp:47-56 | changes exactly the bytes of the block at the offset |
| MappedFiles.MappedFile.Expand | db/storage/edb/EDBFile.cpp:212-219 | adds a zeroed block, or fails and changes nothing when the device is full |
| HeapChain.BuildsAppended | db/storage/edb/EDBFile.cpp:239-276 | the writes of `allocate_block` (type, links, heap initialization) together are the appended file |
| HeapChain.NextInChain | db/storage/edb/Heap.cpp:170-173 | following the next pointers steps over no heap block |
| HeapChain.FreshBlockAnswers | db/storage/edb/Heap.cpp:177-186 | the block allocated for a request serves it exactly if its size plus 41 is at most the block size |
| HeapChain.TooBigNeverFits | db/storage/edb/Heap.cpp:153-175 | no block of the chain can serve a request that a new block cannot |
| RowCodec.PtrRoundTrip | db/storage/edb/Definitions.hpp:20-25 | a pointer is read back as written |
| RowCodec.SpanRoundTrip | db/storage/edb/Definitions.hpp:27-30 | a span is read back as written |
| RowCodec.FieldRoundTrip | db/storage/edb/Serializer.cpp:30-53 | a column's bytes are decoded to the field they were written from |
| RowCodec.UnionRoundTrip | db/storage/edb/EDBFile.cpp:502-538 | a default value of its column's type is read back from the union as it was written, except for floats |
| RowCodec.RowRoundTrip | db/storage/edb/EDBRelationIterator.cpp:78-114 | for every schema, a written row is decoded to the fields it was written from |
| RowCodec.EncodeSnoc | db/storage/edb/Serializer.cpp:26-56 | writing one more column appends that column's bytes |
| RowCodec.FieldBytes | db/storage/edb/Serializer.cpp:26-56 | the bytes of a column: the null flag where NULL is allowed, then the value in the width of its type, a span as block, offset and size |
| RowCodec.StoredFields | db/storage/edb/Serializer.cpp:47-51 | of a time the year, month and day are kept, each modulo its width, and the clock is zero; everything else is kept |
| RowCodec.RowFields | db/storage/edb/Serializer.cpp:26-56 | the same for each value of a row |
| RowCodec.StoredExact | db/storage/edb/Serializer.cpp:47-51 | storing is lossless exactly for values other than times and for times without clock part whose date fits the stored widths |
| RowCodec.ScalarFieldStores | db/storage/edb/Serializer.cpp:32-52 | the field written for a value that needs no heap is one the column can hold and means the stored value |
| RowCodec.ValuesFrame | db/storage/edb/EDBRelationIterator.cpp:98-102 | a row reads the same as long as the spans it refers to keep their content |
| RowTransfer.ReadStep | db/storage/edb/EDBRelationIterator.cpp:82-114 | the offset the reader keeps is where the next column's bytes are |
| RowTransfer.FieldAt | db/storage/edb/Definitions.cpp:26-55 | stepping over the null flag and then over the value, `free_data` finds the value the reader finds, and the next column behind it |
| RowTransfer.OwnsNothing | db/storage/edb/Definitions.cpp:46-52 | a row owns no heap span if and only if none of its values is a varchar |
| RowTransfer.LeakAt | db/storage/edb/Serializer.cpp:26-56 | the chunks left behind are the varchars in front of the first one that is too long |
| RowList.ExactlyFull | db/storage/edb/EDBFile.cpp:280-293 | the computed block size holds exactly 255 slots |
| RowList.PtrOfInjective | db/storage/edb/EDBFile.cpp:384-402 | different slots have different pointers |
| RowList.SlotBytes | db/storage/edb/Definitions.hpp:92-107 | slot k is at byte 10 + (9 + row size) * k of its block: the next pointer, the flag, the row |
| RowList.ListInSlots | db/storage/edb/EDBFile.cpp:421-439 | the header points to the slot of the first row, each row to that of the next, the last one nowhere; used slots are the rows listed, each once |
| RowList.SlotsWritten | db/storage/edb/EDBFile.cpp:421-424 | writing inside one slot changes the contents of that slot only |
| RowList.InsertList | db/storage/edb/EDBFile.cpp:427-437 | linking a row in keeps the list acyclic, through exactly the used slots, and puts the row at its end |
| RowList.RemoveList | db/storage/edb/EDBFile.cpp:453-470 | unlinking a row keeps the list acyclic, through exactly the used slots, with the other rows in order |
| TableStates.UsedInSize | db/storage/edb/EDBFile.cpp:439 | a block has at most 255 used slots, fewer if one is free, so the u8 counter does not wrap |
| TableStates.FewRowsLeaveRoom | db/storage/edb/EDBFile.cpp:384-402 | with fewer than 255 rows block 1 has a free slot |
| TableStates.RowCountBound | db/storage/edb/EDBFile.cpp:438 | the number of rows is at most 255 times one more than the number of blocks, so the u64 counter does not wrap |
| TableStates.HeapOnlySlots | db/storage/edb/EDBFile.cpp:416-420 | changes to heap blocks change no row slot |
| TableStates.LinkedInCorrect | db/storage/edb/EDBFile.cpp:421-439 | the three writes of `insert` link the row in, count it, and change no heap chunk |
| TableStates.UnlinkedFromCorrect | db/storage/edb/EDBFile.cpp:444-471 | the three writes of `remove` unlink the row, count it out, and change no heap chunk |
| TableStates.RewrittenCorrect | db/storage/edb/EDBRelationIterator.cpp:30-35 | overwriting a row's bytes in its slot changes that row only |
| Ownership.OwnedInsert | db/storage/edb/EDBFile.cpp:414-425 | a new row takes over the spans allocated for it: spans in use stay exactly the referenced ones |
| Ownership.OwnedFreed | db/storage/edb/EDBFile.cpp:450-451 | freeing what one row owns leaves exactly what the others own, and changes no other tuple |
| Ownership.OwnedReplace | db/storage/edb/EDBRelationIterator.cpp:26-36 | replacing a row's bytes hands the new spans over to it |
| Ownership.RowOwnsOnce | db/storage/edb/Definitions.cpp:26-55 | what a row refers to is in use and referred to once, so freeing it frees nothing twice |
| TableOps.InsertState | db/storage/edb/EDBFile.cpp:414-440 | inserting into a free slot keeps the whole invariant and appends the tuple |
| TableOps.RemoveState | db/storage/edb/EDBFile.cpp:444-474 | removing row i keeps the whole invariant and deletes tuple i |
| TableOps.RewriteState | db/storage/edb/EDBRelationIterator.cpp:26-36 | writing back row i keeps the whole invariant and replaces tuple i |
| TableOps.LostSpans | db/storage/edb/EDBRelationIterator.cpp:26-36 | if the new row cannot be stored after the spans of the old one were freed, no list of rows explains the file |
| TableOps.RenameState | db/storage/edb/EDBFile.cpp:369-373 | renaming keeps the whole invariant and all tuples |
| TableOps.HeapGrowth | db/storage/edb/Serializer.cpp:26-56 | heap allocations change no tuple; the new chunks are leaked until something refers to them |
| TableOps.TableGrowth | db/storage/edb/EDBFile.cpp:405-410 | a new Table block changes no tuple |
| TableOps.InvariantMeans | db/storage/edb/EDBFile.cpp:375-474 | used slots are exactly the listed rows, block counters are their numbers per block, every span in use is referred to exactly once |
| SlotScan.FewRowsAreSafe | db/storage/edb/EDBFile.cpp:380-403 | with fewer than 255 rows the scan stops at a row slot |
| SlotScan.SafeExactly | db/storage/edb/EDBFile.cpp:380-403 | the scan stops at a row slot or not at all if and only if every Heap block with a zero flag byte has a Table block with a counter below 255 in front of it |
| SlotScan.SmallRowsOverflowIntoHeap | db/storage/edb/EDBFile.cpp:386-400 | with rows of at most three bytes and block 1 full, the scan stops in Heap block 2 |
| SlotScan.TheRow256 | db/storage/edb/EDBFile.cpp:386-400 | with rows of at most three bytes the next place is a row slot if and only if the counter of block 1 is below 255, whatever other blocks there are |
| SlotScan.TwoBlocksTake255 | db/storage/edb/EDBFile.cpp:386-400 | a file of two blocks has a row slot for such a row if and only if it has fewer than 255 rows |
| EDBFiles.HeapHit | db/storage/edb/EDBFile.cpp:421-439 | a row linked in a Heap block damages the header of the first chunk: the heap is no tiling any more |
| EDBFiles.EDBFile.AllocateBlock | db/storage/edb/EDBFile.cpp:221-278 | the new block is always the old block count, appended and linked behind the last one of its type, or nothing changes when the device is full |
| EDBFiles.EDBFile.HeapAllocate | db/storage/edb/Heap.cpp:148-187 | over any chain: succeeds if and only if size + 41 is at most the block size and, when the device is full, some block has room; takes the lowest block with room, reports no corruption, and which error is returned otherwise |
| EDBFiles.EDBFile.HeapSearch | db/storage/edb/Heap.cpp:153-175 | finds the lowest heap block with room, or shows there is none |
| EDBFiles.EDBFile.HeapFree | db/storage/edb/Heap.cpp:200-205 | takes exactly that span out of use |
| EDBFiles.EDBFile.CopyToHeap | db/storage/edb/EDBFile.hpp:65-69 | the new span is in use, has exactly the given bytes, and nothing else changes |
| EDBFiles.EDBFile.WriteRow | db/storage/edb/Serializer.cpp:26-56 | emits row-size bytes that mean the tuple, of times the year, month and day modulo their widths and a zero clock; on failure exactly the varchars copied so far are in use |
| EDBFiles.EDBFile.FreeData | db/storage/edb/Definitions.cpp:26-55 | frees exactly the varchars of the row, each once, by its own two-step offset |
| EDBFiles.EDBFile.FindPlace | db/storage/edb/EDBFile.cpp:378-403 | the first position over all blocks whose flag byte is zero, or that there is none |
| EDBFiles.EDBFile.Insert | db/storage/edb/EDBFile.cpp:375-442 | on success keeps the invariant and appends the tuple if and only if every hole in a Heap block has room in front of it, and damages the heap otherwise; each value is read back as given, but of a time the year, month and day modulo their widths and a zero clock; on failure changes no tuple, and how much is leaked; succeeds on rows without varchars when there is a place |
| EDBFiles.EDBFile.Remove | db/storage/edb/EDBFile.cpp:444-474 | deletes exactly tuple i, keeps the invariant and the name |
| EDBFiles.EDBFile.WriteBack | db/storage/edb/EDBRelationIterator.cpp:26-36 | replaces exactly tuple i by the new one, each value as given but of a time the date modulo its widths; fails only if a varchar does not fit or the device is full, and then the file is sound if and only if the old row had no varchars |
| EDBFiles.EDBFile.Rename | db/storage/edb/EDBFile.cpp:369-373 | changes the name only; when the name does not fit no row list makes sense of the file |
| EDBFiles.EDBFile.ReadTuple | db/storage/edb/EDBRelationIterator.cpp:78-114 | the reader's loop gives the values of the decoded fields |
| EDBFiles.EDBFile.TupleOf | db/storage/edb/EDBRelationIterator.cpp:78-122 | the tuple read from row i is tuple i of the abstract sequence |
| EDBFiles.BrokenList | db/storage/edb/EDBFile.cpp:437 | with the last row outside the Table blocks no list of rows explains the file |
| EDBFiles.DanglingName | db/storage/edb/EDBFile.cpp:369-373 | with a freed name no list of rows satisfies the ownership invariant |
| TableSetups.FirstPass | db/storage/edb/EDBFile.cpp:280-293 | the block size is 255 slots and the two headers for the rows of these columns |
| TableSetups.WriteColumn | db/storage/edb/Serializer.cpp:14-24 | the column is stored as set up if its default is NULL or of its type and no broken float; fails only if its strings do not fit behind the earlier ones |
| TableSetups.StoredIsKept | db/storage/edb/EDBFile.cpp:486-500 | a default that is read back as it was given is NULL or of its column's type, and a whole number if it is a float |
| TableSetups.KeptIsStored | db/storage/edb/EDBFile.cpp:502-538 | such a default is read back, and refers to the span it was written to |
| TableSetups.IntegerAsSpan | db/storage/edb/EDBFile.cpp:502-518 | a failing input: the integer 5 as the default of a VARCHAR column is read as a span in block 5 that is not in use |
| TableSetups.HalfIsCut | db/storage/edb/Endian.hpp:27-29 | a failing input: 1.5 as the default of a FLOAT column is read as 1 |
| Floats.WholeExact | db/storage/edb/Endian.hpp:10-32 | a float is the same after the conversion to an unsigned integer and back if and only if it is a whole number |
| Floats.BitsOrder | db/core/Value.cpp:403-404 | leaving the sign out, the float with the greater bits is the greater number |
| Floats.TruncatedMeans | db/storage/edb/Endian.hpp:28-30 | the conversion to an integer drops what is behind the point |
| TableSetups.WriteHeader | db/storage/edb/EDBFile.cpp:302-338 | stores the name and all columns, as set up if all defaults survive; fails only if the strings do not fit into one heap block |
| TableSetups.HeaderWritten | db/storage/edb/EDBFile.cpp:310-325 | 1 and 2 are the ends of the chains if and only if the strings fit into one heap block; the columns are stored as set up if and only if all defaults survive |
| TableSetups.Initialize | db/storage/edb/EDBFile.cpp:53-71 | gives a sound empty table if and only if the strings fit into one heap block and every default is NULL or of its column's type, and a whole number if it is a float; then the name and the types, flags, names and defaults of all columns are as given; the header has 79 bytes and 37 for each column |
| RelationIterators.RelationIterator.Next | db/storage/edb/EDBRelationIterator.cpp:62-123 | yields the tuples in order, ends after the last, and never meets a freed row |
| RelationIterators.RelationIterator.RemoveCurrent | db/storage/edb/EDBRelationIterator.cpp:46-50 | removes the row just passed; the iterator stays between passed rows and rows to come |
| RelationIterators.RelationIterator.WriteCurrent | db/storage/edb/EDBRelationIterator.cpp:42-45 | writes back the row just passed; what is left when it fails |
| Statements.DeleteFrom | db/sql/ast/Statement.cpp:33-73 | DELETE on a table file: if WHERE gives an answer for each row, exactly the rows at the positions where it is false remain, in order and each as often as before; otherwise nothing is removed |
| Statements.DeleteFromMemory | db/sql/ast/Statement.cpp:33-73 | the same for rows in memory |
| Statements.MemoryIterator.Erase | db/core/Relation.hpp:190-192 | erasing the row just passed leaves the iterator on its element |
| Statements.ProgressStep | db/sql/ast/Statement.cpp:62-70 | one turn of the second pass keeps: kept rows behind the iterator, unseen rows in front of it |
| Statements.KeepSnoc | db/sql/ast/Statement.cpp:49-60 | the filter, one row at a time |
| Statements.KeepMeans | db/sql/ast/Statement.cpp:49-70 | what is left when WHERE answers on each row: the rows on which it is false, by their positions and by their number |
| Statements.UpdatedFields | db/sql/ast/Statement.cpp:85-97 | an updated row has the new value in the named column and its old values in the others |
| Statements.UpdateColumn | db/sql/ast/Statement.cpp:76-98 | UPDATE of a column is map: every row gets its new value, order and other rows stay; otherwise the expression fails on a row, a varchar does not fit or the device is full, the rows in front are updated, and when the file is sound |
| Runs.RemoveAt | db/storage/edb/EDBRelationIterator.cpp:46-50 | removing the i-th row through the iterator deletes tuple i |
| Runs.RoomLeft | db/storage/edb/EDBFile.cpp:378-403 | below 255 rows every insertion finds a row slot |
| Runs.StopIsFirst | db/sql/ast/Statement.cpp:85-97 | an update stops at the first row on which the expression fails or whose new varchars do not fit |
| Runs.Replay | db/storage/edb/EDBFile.cpp:369-474 | any run of inserts, removals, deletes, updates and renames with fewer than 255 rows at each insert does to the file what it does to a plain sequence of tuples, and leaks exactly the chunks of refused insertions; why it stops, and what is left then |
| Overflow.Fill | db/storage/edb/EDBFile.cpp:375-442 | a run from a new table with one BOOL NOT NULL column: 255 insertions succeed |
| Overflow.InsertRow256 | db/storage/edb/EDBFile.cpp:375-442 | the 256th insertion succeeds too, damages the heap and breaks the file |
| Completeness.ReadsThrough | db/sql/Parser.cpp:890-980 | reading a canonical tree and what follows is going on behind it with the tree as left operand |
| Completeness.ReadsAndStops | db/sql/Parser.cpp:1250-1336 | a canonical tree is read as itself when no tighter operator follows |
| Completeness.ReadsWhole | db/sql/Parser.cpp:890-980 | a canonical tree before a separator is read as itself |
| Completeness.ReadsItems | db/sql/Parser.cpp:1396-1425 | so are lists of them |
| Completeness.ReadsWhens | db/sql/Parser.cpp:932-964 | so are the branches of a CASE |
| Soundness.SoundExpression | db/sql/Parser.cpp:890-980 | what is read is a canonical tree whose tokens are the consumed ones, and no tighter operator follows |
| Soundness.SoundOperand | db/sql/Parser.cpp:1250-1336 | reading operators behind a canonical operand gives a canonical tree |
| PrecedenceTrees.ReadsExactly | db/sql/Parser.cpp:890-980 | reading gives a tree if and only if it is canonical, stands there, is tight enough and ends there |
| PrecedenceTrees.OneTree | db/sql/Parser.cpp:890-980 | no two canonical trees have the same tokens |
| PrecedenceTrees.TextsAreLexed | db/sql/Lexer.cpp:10-274 | every text is lexed into tokens of the spelling the parser's theorems assume |
| PrecedenceTrees.CanonicalIsTight | db/sql/Parser.cpp:1091-1128 | for operands joined by infix operators and BETWEEN, canonical means: right operands strictly tighter, left operands at least as tight |
| PrecedenceTrees.StopsAtFirst | db/sql/Parser.cpp:1250-1266 | such an expression ends at the first operator that is not tighter than the minimal precedence |
| PrecedenceTrees.TwoOperators | db/sql/Parser.cpp:1091-1117 | of two operators the second takes the middle operand if and only if it has the greater precedence |
| OperatorBinding.TighterBinds | db/sql/Parser.cpp:1091-1117 | of `a p b q c` the operand b belongs to q if q is on a tighter level than p, and to p otherwise; the levels, tightest first: asterisk; comparisons, LIKE, MATCH; AND; OR; `*` `/` as OpMul, OpDiv; `+` `-` |
| OperatorBinding.IsBinds | db/sql/Parser.cpp:1250-1336 | IS NULL behind a comparison is about the comparison, behind any other operator about its right operand; operators behind IS NULL have it as their left operand |
| OperatorBinding.InBinds | db/sql/Parser.cpp:1250-1336 | the same for IN |
| OperatorBinding.BetweenBinds | db/sql/Parser.cpp:1119-1128 | BETWEEN has comparisons in front of it and as bounds whole; of looser operators in front it takes the right operand, and looser ones behind it take it as a whole |
| OperatorBinding.MinusBinds | db/sql/Parser.cpp:906-909 | a sign belongs to the operand behind it, and to a product only if that is written with an asterisk |
| OperatorBinding.KeywordsBind | db/sql/Parser.cpp:1119-1128 | IS NULL behind BETWEEN is about the upper bound; BETWEEN and IN otherwise take what is in front of them |
| ExpressionParser.RightMergeIsRedundant | db/sql/Parser.cpp:1291-1334 | whenever the next token's precedence is greater it is no operator, so the recursive `parse_operand` consumes nothing and returns its argument |
| ExpressionParser.Parser.MergeRight | db/sql/Parser.cpp:1314-1334 | the merge branch gives the right operand back and does not move the cursor |
| ExpressionParser.Parser.ParseOperand | db/sql/Parser.cpp:1250-1336 | both branches build the node of the tree that is read; the cursor ends behind it |
| ExpressionParser.Parser.ParseExpression | db/sql/Parser.cpp:890-980 | returns the expression of the tree that is read and moves the cursor behind it, or fails |
| ExpressionParser.Parser.ParsePrimary | db/sql/Parser.cpp:890-975 | the same for a single operand; a wrong closing parenthesis is swallowed |
| ExpressionParser.Parser.ParseCase | db/sql/Parser.cpp:927-965 | the same for CASE, with at most one ELSE, which is last |
| ExpressionParser.Parser.ParseFunction | db/sql/Parser.cpp:1428-1470 | the same for function and aggregate calls with OVER |
| ExpressionParser.Parser.ParseExpressionList | db/sql/Parser.cpp:1396-1425 | the same for argument lists |
| ExpressionParser.Parser.ParseIn | db/sql/Parser.cpp:1472-1493 | the same for IN lists |
| ExpressionParser.Parser.ParseIs | db/sql/Parser.cpp:1495-1507 | the same for IS and IS NOT |
| ExpressionParser.Parser.ParseBetweenRange | db/sql/Parser.cpp:1119-1128 | the same for the range of BETWEEN |
| ExpressionParser.Parser.ParseIdentifier | db/sql/Parser.cpp:1509-1529 | the same for names, qualified or not |
| ExpressionParser.Parser.ParseLiteral | db/sql/Parser.cpp:1058-1089 | the same for literals; an integer that does not fit an int and a text that is no date fail |
| ParsedMeanings.OperatorsMean | db/sql/Parser.cpp:1178-1228 | which operation each infix operator becomes, with its operands in order; the asterisk multiplies |
| ParsedMeanings.KeywordsMean | db/sql/Parser.cpp:1297-1310 | BETWEEN with its lower and upper bound, IS NULL and IS NOT NULL, the sign, IN with its items |
| ParsedMeanings.ListMeans | db/sql/Parser.cpp:1396-1425 | the items of a list are separated by commas and become the arguments in order |
| ParsedMeanings.WhensMean | db/sql/Parser.cpp:932-951 | the branches of a CASE, each a condition and a value, in order |
| ParsedMeanings.CaseMeans | db/sql/Parser.cpp:927-965 | CASE with its branches, with and without ELSE |
| ParsedMeanings.ParenthesesMean | db/sql/Parser.cpp:910-926 | an expression in parentheses is the expression |
| ParsedMeanings.NamesMean | db/sql/Parser.cpp:1509-1529 | a name, with or without a table |
| ParsedMeanings.AggregateNames | db/sql/Parser.cpp:1382-1394 | the five aggregate functions, by names in any case of letters |
| ParsedMeanings.CallsMean | db/sql/Parser.cpp:1428-1470 | a call with its arguments; an aggregate with its one argument and the column it is partitioned by |
| ParsedMeanings.LiteralsMean | db/sql/Parser.cpp:1058-1089 | what each literal token becomes; numbers of 2^31 and more and texts that are no date are refused |
| Lexing.Lexer.Tokenize | db/sql/Lexer.cpp:10-274 | the lexer's loop gives the tokens of the text |
| Lexing.Lexer.ConsumeNumber | db/sql/Lexer.cpp:21-36 | digits with one decimal point; a second one ends the number and is swallowed |
| Lexing.Lexer.NextDash | db/sql/Lexer.cpp:161-175 | a minus sign, unless a second one and a space make it a comment |
| Lexing.RunStep | db/sql/Lexer.cpp:13-19 | a run of characters is its first k characters and the run behind them |
| LexemesMean.SpaceIsSkipped | db/sql/Lexer.cpp:142-144 | a white-space character is no token |
| LexemesMean.SymbolIsRead | db/sql/Lexer.cpp:176-237 | the ten tokens of one character |
| LexemesMean.DashIsRead | db/sql/Lexer.cpp:161-175 | a minus sign is a token, unless another one and a blank make it a comment, which ends with the line |
| LexemesMean.ExclamationIsRead | db/sql/Lexer.cpp:238-248 | `!=` is one token, `!` alone another |
| LexemesMean.StringIsRead | db/sql/Lexer.cpp:249-258 | a text in quotes is a string; an open one takes all the rest and the mark of the end |
| LexemesMean.NumberIsRead | db/sql/Lexer.cpp:145-160 | digits are an integer, digits with one point a float, a point alone a period |
| LexemesMean.SecondPointIsLost | db/sql/Lexer.cpp:21-36 | a second point ends the number and is swallowed |
| LexemesMean.DateIsRead | db/sql/Lexer.cpp:259-268 | a text between hash signs is a date, without the white space in front |
| LexemesMean.BracketIsRead | db/sql/Lexer.cpp:192-205 | a text in brackets is a name, without the white space around it |
| LexemesMean.GarbageIsRead | db/sql/Lexer.cpp:269-272 | any other character is garbage |
| LexemesMean.KeywordIsRead | db/sql/Lexer.cpp:51-134 | each of the 61 keywords, TRUE and FALSE, in any case of letters, is its token |
| LexemesMean.NameIsRead | db/sql/Lexer.cpp:135-141 | every other word is a name, but ASC and DESC |
| LexemesMean.NumbersMean | db/sql/Parser.cpp:1062-1065 | digits are read as a decimal number, the most significant first |
| LexemesMean.TimesMean | db/core/Value.cpp:79-109 | a text of the form of a date with a time of day is one if and only if its numbers are in range |
| LexemesMean.DatesMean | db/core/Value.cpp:79-109 | the same for a date alone |
| LexemesMean.OnlyDates | db/core/Value.cpp:79-109 | a text of any other form is no date |
| Printing.RoundTrip | db/sql/ast/Expression.cpp:292-316 | lexing and parsing the printed form of literals, names, arithmetic and function calls gives the expression back and consumes all tokens |
| Printing.Reparse | db/sql/ast/Expression.cpp:292-316 | the same by the lexer and the parser |
| Printing.LexPrinted | db/sql/ast/Function.cpp:472-482 | the printed text is lexed into the tokens of the fully parenthesised tree |
| Printing.FormIsCanonical | db/sql/ast/Expression.cpp:292-316 | that tree is canonical and stands for the expression |
| Printing.DecimalRoundTrip | db/core/Value.cpp:225-226 | a printed integer is read back |
| Printing.DecimalIsPlain | db/core/Value.cpp:225-226 | it has decimal digits and no leading zeros |
| Printing.LiteralsPrinted | db/core/Value.cpp:271-284 | the texts of NULL, booleans, strings and integers |
| Printing.FormsPrinted | db/sql/ast/Expression.cpp:292-316 | operations in parentheses with blanks around the operator, names with blanks in brackets, calls with commas between the arguments |
| Printing.PlainNameExact | db/sql/Printing.cpp:5-11 | a name without spaces is lexed back if and only if it is a word and no keyword |
| Printing.SpacedNameExact | db/sql/Printing.cpp:5-11 | a name with spaces is lexed back if and only if it has no closing bracket and no white space at its ends |
| Printing.StringExact | db/sql/Printing.cpp:13-16 | a string is lexed back if and only if it has no quote |
| StableSorting.SortIsStable | db/sql/Select.cpp:108-117 | sorted insertion behind equal elements sorts and keeps the order of equivalent elements |
| StableSorting.StableSortIsUnique | db/sql/Select.cpp:108-117 | there is only one such arrangement |
| Ordering.ValueOrder | db/core/Value.cpp:392-440 | on non-null values of one type `<` is a strict weak order that agrees with `==`; times are compared by their epochs |
| Ordering.CalendarIsRight | db/core/Value.cpp:23-39 | the epochs times are compared by follow the Gregorian calendar: each month adds its days |
| Ordering.ComparedPlainly | db/core/Value.cpp:392-440 | integers compare as numbers, false is below true, and of two strings the one that ends first or has the smaller byte where they first differ is below |
| Ordering.FloatsCompared | db/core/Value.cpp:392-440 | floats compare as the numbers they are; both zeros are equal |
| Ordering.NotANumber | db/core/Value.cpp:392-440 | a NaN is neither equal to nor below nor above any value but NULL |
| Ordering.OrderedValues | db/core/Value.cpp:392-440 | what these laws are for: every integer, boolean and string, every float but the NaNs, every time in the range of `int` |
| Ordering.TimesCompared | db/core/Value.cpp:409-411 | times compare by the seconds of their epochs |
| Ordering.EpochUnits | db/core/Value.cpp:23-39 | how many seconds a second, minute, hour, day, month and year more are; 1970-01-01 is 0 |
| Ordering.MonthLengths | db/core/Value.cpp:23-39 | the days of each month, with the leap years of the Gregorian calendar |
| Ordering.NullCompared | db/core/Value.cpp:392-440 | NULL is below everything and equals NULL only, but zero, false, "null" and the start of the epoch equal NULL |
| Ordering.FailureMeans | db/core/Value.cpp:409-411 | a comparison fails if and only if its left value is a time and one of the times is beyond the range of `int` |
| Ordering.FirstColumnDecides | db/core/Tuple.cpp:14-35 | the first column with unequal values decides which tuple is below |
| Ordering.FilledUp | db/core/Tuple.cpp:15-17 | a shorter tuple compares as if it had NULLs at its end |
| Ordering.FirstKeyDecides | db/sql/Select.cpp:82-117 | in ORDER BY the first column with unequal values decides, the lower value first where it is ascending, the higher one where it is descending |
| Ordering.ColumnOrder | db/core/Tuple.cpp:14-35 | on the values of one type and NULL, what decides when the columns in front are equal is a strict weak order: NULL first, and the same as nothing else |
| Ordering.BothLess | db/core/Tuple.cpp:14-35 | if a column in front of a varied one can have both NULL and the value it equals there are two rows each below the other, whatever the directions |
| Ordering.TupleLess | db/core/Tuple.cpp:14-35 | the loop is lexicographic comparison with the shorter tuple filled up by NULLs |
| Ordering.LexOrder | db/core/Tuple.cpp:14-35 | lexicographic comparison, each column in its own direction and NULL first, has the order laws |
| Ordering.LessIsOrder | db/core/Tuple.cpp:14-35 | tuple `<` is a strict weak order if and only if no column in front of a varied one can have both NULL and the value it equals; then tuples are equivalent exactly if their values are the same |
| Ordering.SameIsEqual | db/core/Tuple.hpp:60-72 | without NULLs that is what `==` says |
| Ordering.OrderByIsOrder | db/sql/Select.cpp:82-117 | the comparator made by exchanging values of DESC columns is a strict weak order if and only if no column in front of a varied one can have both NULL and the value it equals |
| Joins.ContentsOrder | db/sql/ast/TableExpression.cpp:97-118 | the multimap is sorted by key, left rows first among equal keys |
| Joins.InnerJoin | db/sql/ast/TableExpression.cpp:123-144 | the loop joins exactly the neighbouring pairs of a left and a right row of one key, using both up |
| Joins.PairsAscend | db/sql/ast/TableExpression.cpp:128-142 | the joined rows come in strictly ascending order of keys |
| Joins.CrossIsNested | db/sql/ast/TableExpression.cpp:97-118 | the matches between entries of the multimap are the rows of the nested-loop join |
| Joins.TidyIsUnique | db/sql/ast/TableExpression.cpp:128-142 | all matches are neighbours if and only if keys common to both tables are unique in each |
| Joins.InnerJoinExact | db/sql/ast/TableExpression.cpp:93-144 | INNER JOIN emits the nested-loop join, each row as often, if and only if common keys are unique in each table; otherwise fewer rows |
| Joins.InnerJoinFails | db/sql/ast/TableExpression.cpp:123-144 | a failing input: of two left rows that match a right row only the second is joined |
| LeftJoins.LeftJoin | db/sql/ast/TableExpression.cpp:146-169 | the loop of LEFT JOIN, as a function of the multimap |
| LeftJoins.PartnerIsNeighbour | db/sql/ast/TableExpression.cpp:146-169 | with unique left keys that the right table has at most once, the only match of a left row is its neighbour, or it has none |
| LeftJoins.LastIsLeft | db/sql/ast/TableExpression.cpp:146-169 | the multimap ends with a left row if and only if some left key is above all right keys |
| LeftJoins.LeftJoinExact | db/sql/ast/TableExpression.cpp:146-169 | LEFT JOIN emits the left outer join, each row as often, if and only if every left key is the key of one left row and of one right row at most and the greatest left key is not above all right keys; otherwise fewer rows |
| LeftJoins.LeftJoinOrdered | db/sql/ast/TableExpression.cpp:146-169 | with unique keys the rows come in key order, and if the greatest left key is above all right keys exactly its row is missing |
| LeftJoins.MergeShort | db/sql/ast/TableExpression.cpp:146-169 | the loop emits at most one row per left row that has something behind it, and fewer if two left rows have one key |
| LeftJoins.LeftJoinFails | db/sql/ast/TableExpression.cpp:146-169 | failing inputs: two left rows of one key are joined with each other; the last left row is lost |
| JoinEvaluation.InnerJoinRows | db/sql/ast/TableExpression.cpp:93-144 | each row of INNER JOIN is a left and a right row with equal keys, no row is used twice, keys ascend, and all such pairs are there if and only if no row takes part in two |
| JoinEvaluation.LeftJoinRows | db/sql/ast/TableExpression.cpp:146-169 | with unique keys each row of LEFT JOIN is a left row with its match, or with NULLs if it has none, in key order; a left row is missing if and only if its key is above all other keys of both tables |
| JoinEvaluation.Evaluate | db/sql/ast/TableExpression.cpp:93-169 | fails if and only if a row lacks the join column; otherwise all that, of the given tables and columns |
| Selecting.AddKeepsPartition | db/sql/Select.cpp:165-193 | one more row keeps the groups a partition |
| Selecting.SharedGroup | db/sql/Select.cpp:165-193 | two rows are in one group if and only if their values in each named column are the same |
| Selecting.RowsOfPositions | db/sql/Select.cpp:165-193 | the rows of a group by their positions: in source order, and exactly those with the same values |
| Selecting.GroupsArePartition | db/sql/Select.cpp:165-193 | where tuple `<` is an order, the groups are the key classes in ascending key order, each with its rows in source order; NULL is a key of its own |
| Selecting.GroupingConserves | db/sql/Select.cpp:165-193 | no row is lost or repeated by grouping |
| Selecting.CollectGroups | db/sql/Select.cpp:150-193 | groups exactly the rows that pass WHERE, each as often, into a partition where tuple `<` is an order; fails if and only if WHERE fails on a row or a row that passes lacks a column to group by |
| Selecting.Count | db/sql/ast/Function.cpp:498-508 | how many positions have a row on which the expression is not NULL |
| Selecting.CountsAddUp | db/sql/ast/Function.cpp:498-508 | the counts of the groups add up to the count over all rows |
| Selecting.RowOrderMeans | db/sql/Select.cpp:82-117 | which of two rows comes first, by the values of the ORDER BY expressions and their directions |
| Selecting.OrderedUniquely | db/sql/Select.cpp:82-117 | where the comparator is an order, ORDER BY gives a permutation, and it is the only stable sorted one |
| Selecting.TopKeepsTheFirst | db/sql/Select.cpp:122-130 | no row kept by TOP sorts after one that is dropped |
| Selecting.OrderAndTop | db/sql/Select.cpp:82-130 | the result is the first rows, as many as asked for or all, of the one stable sorted permutation; no row kept sorts after one that is dropped |
| Constraints.AcceptedKeeps | db/core/Table.cpp:50-83 | appending a row that passes the checks keeps types, NOT NULL, keys and UNIQUE columns right |
| Constraints.SubsequenceKeeps | db/core/Table.cpp:25-83 | so does leaving rows out |
| Constraints.UniqueMeansDistinct | db/core/Table.cpp:41-48 | rows then differ in UNIQUE columns and in the key, and at most one has NULL there |
| Constraints.ConstraintsMean | db/core/Table.cpp:50-83 | what the kept constraints say of the rows, value by value |
| Constraints.AcceptsMeans | db/core/Table.cpp:50-83 | which rows the checks accept, value by value and against each row of the table |
| Constraints.FilledMeans | db/core/Table.cpp:125-143 | a NULL becomes the counter plus one in an AUTO_INCREMENT column, which steps the counter, and the default elsewhere; other values stay |
| Constraints.MatchMeans | db/core/Relation.cpp:5-20 | the search finds an equal value of the type, and finds one if there is one unless a time beyond the range of `int` is in the way |
| Constraints.FoundMeans | db/core/Relation.cpp:5-20 | the same in terms of the rows |
| Constraints.MatchedMeans | db/core/Table.cpp:85-117 | what matched tables are: a foreign key that is not NULL has an equal value in the column it refers to |
| Constraints.Table.Fill | db/core/Table.cpp:125-143 | NULLs become the next counter value or the default; fails exactly on AUTO_INCREMENT of a non-int column |
| Constraints.Table.CheckTable | db/core/Table.cpp:50-83 | accepts exactly rows of the right length with a non-null new key, right types, no forbidden NULL and new UNIQUE values, if no comparison fails |
| Constraints.Table.CheckForeignKeys | db/core/Table.cpp:85-117 | a row is accepted only if each foreign key that is not NULL has a row of the referenced table with an equal value of its type, and always if each has one in front of any value that cannot be compared |
| Constraints.Table.FindMatch | db/core/Relation.cpp:5-20 | whether some row has a value of the same type that is equal, before one that cannot be compared, where the program aborts |
| Constraints.Table.Insert | db/core/Table.cpp:119-153 | inserts exactly the rows that pass all checks, stepping the used counters; an inserted row has equal values for its foreign keys; a rejected row fails a check, and changes neither rows nor counters |
| Constraints.Run | db/core/Table.cpp:25-153 | any run of INSERT and DELETE on tables that refer to one another does to rows and counters what the folded effects of its commands say; it keeps all constraints, and without DELETE a match for every foreign key; insertions into empty tables leave each foreign key NULL or with an equal value in the referenced column |
| Constraints.AfterKeepsConstraints | db/core/Table.cpp:25-153 | the folded effects of INSERT and DELETE keep the constraints of every table |
| Constraints.InsertsKeepMatches | db/core/Table.cpp:85-117 | the folded effects of any insertions into several tables keep a match for every non-null foreign key |
| Constraints.EffectKeeps | db/core/Table.cpp:119-153 | one command keeps the constraints of its table |
| Constraints.GrowingKeepsMatches | db/core/Table.cpp:85-117 | when a table grows by a matched row all rows of all tables stay matched |

## Left out

- EDBFiles.EDBFile.WriteBack: the slot is written through the file. The source keeps a pointer into the mapping while the heap may grow; when the mapping moves the write goes to the old one.
- EDBFiles.EDBFile.Insert: `flush_header`, which rewrites the 79 header bytes of the file, is not modelled; the header is the object's fields.
- TableSetups.Initialize: a default float of 2^32 or more, whose conversion C++ does not define, is left out; the bytes of the union behind the value written are taken to be zero.
- RelationIterators.RelationIterator.Next: strings are byte strings; decoding and re-encoding them as UTF-8 is not part of this model.
- ExpressionParser.Parser.ParsePrimary: a sub-SELECT in parentheses counts as a failure, as do integers too large for `std::stoi`, which throws; dates and floats keep their text.
- Lexing.Lexer.Tokenize: token positions are left out, and a byte 0xFF is an ordinary character, though the source takes it for the end of the input.
- Selecting.OrderAndTop: TOP with a percentage multiplies floats and is left out; evaluation errors of ORDER BY expressions too.
- Selecting.CollectGroups: where tuple `<` is no order the groups of a `std::map` depend on its tree, those of the model on a list; aggregation other than COUNT, HAVING and the projection are left out.
- Constraints.Table.CheckTable: CHECK expressions are left out; a row longer than the column list is rejected, the out-of-range column access the source makes for its NULLs is not modelled; counters do not overflow.
- Ordering.CalendarIsRight: the host's time zone is taken to be UTC; `mktime` interprets a time in the local one.
- Joins.ContentsOrder: keys that cannot be ordered are left out: NULLs, NaN, and times beyond the range of `int`; so are two empty tables, for which the source's iterator is undefined.
- Values, Options, Bytes: columns of type Null, and big-endian hosts, are left out.
- The on-disk header bytes, opening a file, I/O errors other than a full device, `dump`, and the remapping of the file.
- RIGHT and OUTER JOIN, UNION, DISTINCT, SELECT INTO, ALTER and restructuring: no settled meaning, or little beyond what is here.
- LIKE, MATCH, MIN, MAX, AVG, SUM, the function library, date functions and float arithmetic: library or floating-point behaviour.
- The statement-level parser, CSV, the GUI, the REPL and the client protocol.
