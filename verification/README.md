# The Absolute Database library, verified

This project models the parts of the library that change or interpret a database file, and proves what they are for:

- the deflate encoder (`internal/zlib1`): for every input a decoder written from the text of RFC 1950 and RFC 1951
  gives the input back, whichever of the three block forms is picked; the tokens sent are a greedy parse of the input,
  each block takes the form with the fewest bytes, and the Huffman trees are the cheapest codes there are unless the
  length limit cuts one;
- the page allocator, the page chains, the catalog and DROP TABLE: both allocation maps stay consistent over every run,
  a written internal file reads back, and a dropped table takes exactly its own pages with it;
- the table writer: every index lists exactly the records there are, in order, over every run of inserts, updates and
  deletes, each of which is accepted exactly when the records there are allow it, and the counts written by a commit are
  true;
- the schema stream and ALTER TABLE: what is written for a table is read back, splicing changes exactly what the
  statement says, edits that undo one another restore the bytes, and rewriting the rows keeps them and their slots;
- B-tree lookup, cipher feedback and the block ciphers: the search agrees with the scan, and decrypting undoes encrypting.

Where the code does not keep what it promises, the condition under which it does is proved to be exact, and a failing
input is shown. The section "Failures shown" lists them.

The modules follow the program. `BitOutput`, `TreeBuilding`, `BlockEncoding`, `Matching` and `Deflating` are the
encoder; `Inflate` is the specification decoder and shares nothing with it but bit strings, and `GreedyParse` says which
parse of the input the tokens are. `PageAllocation`,
`PageChains`, `TableCatalog`, `TableDrop`, `TableRoots` and `IndexDrop` are `ddl.go` and its neighbours,
`InternalFiles` is the framing of `schema.go`, `TableWriting` with `IndexLeaves` and `SlotPages` is `writer.go` and
`writer_index.go`, the `Schema` modules are `ddl_index.go`, `ddl_constraint.go`, `ddl_constraint_write.go` and the
schema half of `ddl_alter.go`, and `RowCodec` and `RowPages` its row half; `IndexBuild` is the leaf of CREATE INDEX.
`BTreeLookup` is `index.go`, `CipherFeedback` and `PageFile` are the encrypted page file, and `Rijndael`, `Square`,
`Twofish` and `TripleDes` the ciphers.
The other modules hold specification functions and lemmas.

Objects the source updates in place are classes here, buffers are arrays, and loops are loops. Go's fixed widths are
written out: 16-bit fields truncate, 64-bit costs are kept modulo 2^64, bytes of the ciphers and bitmaps are bit-vectors.
Reading and writing of records is put together from small readers and writers that belong together (`Codecs`): each comes
with what the writer refuses, which of the values it takes come back, and as what.

## Failures shown

- `IndexDrop.DropIndexPages` with `LostExtentUpdate` (ddl.go:360-361): `releasePages` sets the extent map's dirty mark
  instead of adding to it. DROP INDEX frees a page of a full extent and then, where the schema takes fewer pages than
  its chain has, one of a partial extent; the first change is not written. The writers here size a chain exactly and
  read a schema from one page, so it takes a file whose schema chain has a page to spare, as another writer may leave
  it. `PageMaps.ReleasePages` and `PageAllocation.KeptExactly` state exactly when nothing is lost.
- `TableWriting.TableWriter.Insert` with `ReusedPages` (writer.go:781-814, ddl.go:459-465): a page taken for a growing
  table keeps its old payload, so a page of a dropped table may come with occupancy bits set. Records and indexes go on
  agreeing if and only if the bitmap found there is empty; otherwise the insert or its commit is refused.
- `BTreeLookup.DescentExact` with `MissedTie` (index.go:507-517): the descent goes behind the last of several tying
  separators and misses a key that lies before it; for each key exactly where a page on its way down hides a tie to
  the left. `ClosedExact` says it of whole trees; that closed trees are the only right ones holds where no subtree is
  empty.
- `PageChains.WriteThenRead` (catalog.go:122-249): an internal file of more than 64 pages is written and cannot be read.
- `InternalFiles.WriteThenReadSchema` with `HugeSchema` (ddl_index.go:678-690, blob.go:354-367): ADD COLUMN and CREATE
  INDEX write a schema across as many pages as it takes, and most readers read its first page alone; and a schema that
  compresses by more than 64 to one, or is longer than 16 MiB, is refused by all of them. blob.go:70-73 says the largest
  schema sits well inside that limit; with 65000 columns of long names it does not. The code is followed.
- `SchemaRecords.ConstraintComesBack` with `LongNameLost` (ddl_constraint_write.go:234-243): the one-byte size of a
  name of 255 bytes wraps to zero, and the whole table's stream is refused when it is read.
- `SchemaEdits.AddColumn` with `TooManyColumns` (ddl_alter.go:467-521): nothing refuses the 65001st column, and the
  stream with it is refused when it is read.
- `SchemaRuns.AddedDistinct` with `TwoColumnsAlike` (ddl_alter.go:216-233): a name is compared whole and comes back only
  up to its first NUL, so two columns can end up with one name.
- `RowPages.AddRewritable` with `BytesStuck` (encode.go:514-528, ddl_alter.go:807-861): a value of a BYTES column is read
  one byte wider than it may be written, so ALTER TABLE is refused on a table that holds one; the documentation of
  `decodeRowValues` says such a value reproduces its stored bytes. The code is followed.

## Model

| member | source | states |
|---|---|---|
| Deflating.Compress | internal/zlib1/zlib1.go:20-32 | for every byte string, decoding the result by RFC 1950 and RFC 1951 gives the byte string back; it is the header, blocks of the tokens of a greedy parse of the input, each sent in the form that takes the fewest bytes by the exact sizes of all three, padding and the checksum |
| Deflating.StreamDecodes | internal/zlib1/zlib1.go:20-32 | header, finished blocks, padding and the big-endian Adler-32 of the meaning decode to the meaning |
| Inflate.AdlerSums | internal/zlib1/zlib1.go:20-32 | the checksum in closed form: one and the bytes, and the bytes weighted by their distance to the end, as section 8.2 of RFC 1950 has it |
| Deflating.DeflateState.DeflateFast | internal/zlib1/deflate.go:375-416 | the loop ends with all tokens expanding to the whole input, every match 3..258 long and at most 32506 back, and the bytes written decode to the input; every token is a greedy choice, and the blocks sent carry exactly these tokens |
| Deflating.DeflateState.TallyOne | internal/zlib1/deflate.go:384-410 | one round adds one token, which is a greedy choice at its place: a match shorter than eight bytes and than what is left, or a literal, is tallied only where none of the four latest hashed positions with the same hash, as far as they are in reach, agrees for longer, for a literal for three bytes; a match is with the nearest of them that agrees for as many bytes, or for eight; what is hashed is what the tokens so far say |
| Matching.Matcher.FindMatch | internal/zlib1/deflate.go:384-394 | where three bytes are ahead the search is made: the length found is at least eight, or all there is, or nothing that is to be looked at agrees for longer; a match found starts at the nearest string that will do and goes as far as the two agree; the position is hashed |
| GreedyParse.ConsideredReached | internal/zlib1/deflate.go:268-319 | every hashed position in reach with at most three nearer ones of its hash is among the first four candidates of the chain |
| GreedyParse.RunTaken | internal/zlib1/deflate.go:375-416 | literals alone are no greedy parse of a run of one byte: the third token at the latest is a match |
| Deflating.DeflateState.TallyMatch | internal/zlib1/deflate.go:389-402 | the match becomes one token of the same meaning, the position passes exactly its length, and its inner positions are hashed exactly when it is short |
| Deflating.DeflateState.TallyByte | internal/zlib1/deflate.go:403-407 | the byte becomes one literal token and the position passes it |
| Deflating.DeflateState.FlushBlock | internal/zlib1/flush.go:306-320 | the block extends what the stream decodes to from the block's start to the current position, raw bytes being the input's only while they are in the window; it is sent in its cheapest form |
| Deflating.LeadsMore | internal/zlib1/flush.go:279-302 | appending a block that means what it should extends the meaning of the whole stream, from any bit offset |
| Matching.Matcher.FillWindow | internal/zlib1/deflate.go:239-260 | keeps window, chains and rolling hash sound and complete over any number of slides, hashes nothing that is not owed, leaves the whole reach of the search in the window, and enough lookahead or the end of the input |
| Matching.Matcher.SlideWindow | internal/zlib1/deflate.go:170-184 | the window shows the input from one window further on, and all positions keep their place in the input |
| Matching.Matcher.SlideHash | internal/zlib1/deflate.go:140-156 | both tables are rebased entry by entry, what falls out becoming none |
| HashChains.ChainSlide | internal/zlib1/deflate.go:140-156 | rebasing keeps every chain entry an earlier position with the same hash |
| HashChains.CompleteSlide | internal/zlib1/deflate.go:140-156 | and every chain goes on leading through all its positions still in the window |
| Matching.Matcher.HashPending | internal/zlib1/deflate.go:189-209 | restarts the rolling hash and chains every position still owed |
| Matching.Matcher.ZeroHighWater | internal/zlib1/deflate.go:215-236 | exactly the bytes past the data and never written are zeroed, and the mark moves with them |
| Matching.Matcher.ReadBuf | internal/zlib1/deflate.go:159-166 | moves the next input bytes to a place in the window and changes nothing else |
| Matching.Matcher.InsertString | internal/zlib1/deflate.go:128-136 | the hash is that of the three bytes, the position becomes the head of its chain, and the old head is the latest earlier position with the same hash that is in the window |
| HashChains.ChainInsert | internal/zlib1/deflate.go:128-136 | pushing a position keeps all chains sound although a place of prev is overwritten |
| HashChains.CompleteInsert | internal/zlib1/deflate.go:128-136 | and every chain goes on leading through all its positions in the window, the latest first |
| HashChains.PrimedUpdate | internal/zlib1/deflate.go:121-123 | after three updates the rolling hash depends on the last three bytes alone |
| HashChains.HashTellsThird | internal/zlib1/deflate.go:324-340 | equal hashes and equal first two bytes imply an equal third byte |
| Matching.Matcher.MatchRun | internal/zlib1/deflate.go:324-340 | zero exactly when a quick test fails, else the exact length of agreement up to 258, with the third byte never compared |
| Matching.Matcher.LongestMatch | internal/zlib1/deflate.go:268-319 | the result is a true repetition within the lookahead and at most 32506 back; unless it is long enough to stop early, none of the first four candidates in reach agrees for longer |
| Matching.Matcher.InsertMatchInterior | internal/zlib1/deflate.go:347-371 | passes the match with chains and rolling hash sound; the inner positions are hashed exactly when the match takes at most four bytes and three are left behind it |
| HashChains.CopyRepeats | internal/zlib1/deflate.go:391-401 | copying a repeated string byte by byte, overlapping or not, extends the output by exactly that string |
| BlockEncoding.BlockEncoder.InitBlock | internal/zlib1/flush.go:6-24 | a new block has counted nothing but its end symbol |
| BlockEncoding.BlockEncoder.TallyLit | internal/zlib1/flush.go:28-37 | buffer and frequencies gain exactly one literal; tells when the buffer is full |
| BlockEncoding.BlockEncoder.TallyDist | internal/zlib1/flush.go:41-56 | buffer and frequencies gain exactly one match although its fields are stored truncated |
| BlockLemmas.FreqsMore | internal/zlib1/flush.go:28-56 | bumping one or two frequencies keeps them equal to the block's symbol counts, without overflow |
| BlockEncoding.BlockEncoder.CompressBlock | internal/zlib1/flush.go:212-242 | the bits sent are the encoding of the buffered tokens followed by the end symbol |
| BlockEncoding.BlockEncoder.ScanTree | internal/zlib1/flush.go:111-137 | each code-length symbol is counted exactly as often as the run-length items use it, and a guard is put behind the lengths |
| BlockEncoding.BlockEncoder.SendTree | internal/zlib1/flush.go:141-172 | sends exactly the items that were counted |
| RunScanner.ScanState.Advance | internal/zlib1/flush.go:86-92 | a run ends exactly where the run-length items cut the lengths |
| CodeLengths.ItemsMeaning | internal/zlib1/flush.go:111-172 | the run-length items stand for exactly the lengths they were made from |
| CodeLengths.ReadItemsBack | internal/zlib1/flush.go:141-172 | decoding the items sent by section 3.2.7 of RFC 1951 yields those lengths |
| BlockEncoding.BlockEncoder.BuildBlTree | internal/zlib1/flush.go:176-194 | a header that can be sent: every used symbol has a code, what is trimmed is zero, at least four lengths remain, and the cost grows by exactly the header's size |
| FlushLemmas.SomeSingle | internal/zlib1/flush.go:184-190 | lengths that are not all zero send one above zero by itself, so the trimming loop stops at rank three or later |
| BlockEncoding.BlockEncoder.SendAllTrees | internal/zlib1/flush.go:197-208 | sends the dynamic header bit for bit |
| BlockHeader.ReadHeaderBack | internal/zlib1/flush.go:197-208 | a dynamic header reads back as the two codes it was made from |
| BlockEncoding.BlockEncoder.TrStoredBlock | internal/zlib1/flush.go:246-254 | three header bits, padding to a byte, length, complement and the bytes as they are |
| InflateLemmas.ReadStoredBack | internal/zlib1/flush.go:246-254 | a stored block reads back from any bit offset |
| BlockEncoding.BlockEncoder.BlockLengths | internal/zlib1/flush.go:258-274 | the running costs, kept modulo 2^64, end as the exact number of bits each compressed form takes; returns their whole bytes |
| FlushLemmas.HistogramCost | internal/zlib1/trees.go:255-268 | summing frequency times length over symbols is summing length over occurrences |
| BlockEncoding.CostsSmall | internal/zlib1/flush.go:258-274 | no cost of a block reaches 2^64, so wrapping on the way does no harm |
| BlockEncoding.BlockEncoder.TrFlushBlock | internal/zlib1/flush.go:279-302 | writes the form with the fewest whole bytes by exact sizes, and the bits written mean the block's bytes in each form |
| BlockBits.StoredMeans | internal/zlib1/flush.go:246-254 | a stored block decodes to its bytes |
| BlockBits.StaticMeans | internal/zlib1/flush.go:290-292 | a static block decodes to what its tokens stand for, though thirty distance codes were sent where the decoder knows thirty-two |
| BlockBits.DynamicMeans | internal/zlib1/flush.go:293-296 | a dynamic block decodes to what its tokens stand for, by the codes read from its own header |
| Tokens.ReadDataBack | internal/zlib1/flush.go:212-242 | decoding encoded tokens applies exactly those tokens and stops after the end symbol |
| TreeBuilding.TreeBuilder.BuildTree | internal/zlib1/trees.go:152-208 | for any frequencies: every length at most the limit, Kraft sum exactly one, a code for every symbol that occurs, canonical codes, and the exact cost; where no depth had to be cut to the limit and the frequencies fit their 16 bits together, no prefix code of any depth costs less; and below the Fibonacci number maxLength + 3 of occurrences, 2584 for a limit of 15, none has to be cut |
| TreeBuilding.TreeBuilder.InitHeap | internal/zlib1/trees.go:103-148 | the heap holds exactly the symbols in use, at least two after inventing some, whose cost is prepaid |
| TreeBuilding.TreeBuilder.PqDownHeap | internal/zlib1/trees.go:78-98 | sifting down restores the heap order from that place on and loses no element |
| TreeBuilding.TreeBuilder.JoinTwo | internal/zlib1/trees.go:176-197 | one round takes a root nothing in the heap comes before, then one nothing but the first comes before, and joins them under a node of both their frequencies; the forest and the heap order are kept |
| HeapOrder.TakesLeastTwo | internal/zlib1/trees.go:176-197 | the first of a heap in order, and the first once that is gone, are its two least, by frequency and then depth |
| HeapOrder.SiftStep | internal/zlib1/trees.go:78-98 | moving the lesser son up keeps everything above in order |
| HuffmanOptimal.Merged | internal/zlib1/trees.go:176-197 | from any prefix code of the roots comes one in which the two rarest are joined, cheaper by their frequencies, so no code is lost sight of by joining them |
| HuffmanOptimal.FrontierCost | internal/zlib1/trees.go:236-271 | the depths of the tree cost exactly the sum of the joined nodes' frequencies |
| HuffmanOptimal.TreeCheapest | internal/zlib1/trees.go:152-208 | so they are a cheapest code among all whose Kraft sum is at most one |
| HuffmanDepth.Climb | internal/zlib1/trees.go:236-271 | going up the tree the frequencies grow like the Fibonacci numbers, because a node's brother is joined later than the node's sons |
| JoinRounds.DeeperHeavy | internal/zlib1/trees.go:236-271 | so a tree deeper than m takes at least the Fibonacci number m + 3 of occurrences |
| JoinRounds.RoundStep | internal/zlib1/trees.go:176-197 | each round keeps: the best code of the symbols costs what the best code of the roots costs, and the joined frequencies more |
| TreeBuilding.BestCode | internal/zlib1/trees.go:152-208 | with fewer than two symbols too, where some are invented, the code built is a cheapest one for the true frequencies |
| TreeBuilding.TreeBuilder.GenBitlen | internal/zlib1/trees.go:213-232 | lengths within the limit, filling the code space exactly, with the exact cost; where nothing was cut they are the depths of the tree |
| TreeBuilding.TreeBuilder.AssignBitlens | internal/zlib1/trees.go:236-271 | clipped depths, counted, with the overflow equal to twice the inner nodes too deep |
| TreeBuilding.TreeBuilder.SpreadOverflow | internal/zlib1/trees.go:283-293 | the repair ends with a full code within the limit and no count below zero |
| TreeBuilding.TreeBuilder.RepairOverflow | internal/zlib1/trees.go:275-315 | the leaves are given the repaired lengths, and the cost follows although differences wrap |
| HuffmanShape.TreeKraft | internal/zlib1/trees.go:236-271 | the depths of the leaves of any binary tree built by joining have Kraft sum one |
| HuffmanRepair.SplitKraft | internal/zlib1/trees.go:283-293 | one step of the repair lowers the Kraft sum by exactly one unit of the longest length |
| RepairLemmas.OverfullRoom | internal/zlib1/trees.go:283-293 | while the code overflows there is a shorter length left to split, so the search for one ends |
| Huffman.GenCodes | internal/zlib1/trees.go:47-66 | every symbol with a length gets its canonical code of section 3.2.2 of RFC 1951, bits reversed |
| PrefixCodes.PrefixFree | internal/zlib1/trees.go:47-66 | for lengths with Kraft sum at most one no code word starts another |
| InflateLemmas.ReadWord | internal/zlib1/trees.go:47-66 | so a code word decodes to its symbol whatever follows |
| BitOutput.BitWriter.SendBits | internal/zlib1/bits.go:82-98 | the stream grows by exactly the value's bits, across the spill of sixteen |
| BitOutput.BitWriter.BiWindup | internal/zlib1/bits.go:120-130 | pads with zero bits to a whole byte and empties the accumulator |
| BitOutput.BitWriter.BiFlush | internal/zlib1/bits.go:102-115 | whole bytes leave the accumulator and no bit of the stream changes |
| BitOutput.BiReverse | internal/zlib1/bits.go:135-145 | the reversed code sent least bit first is the code most bit first |
| BitOutput.Spill | internal/zlib1/bits.go:82-98 | splitting a value between a full accumulator and the next loses no bit |
| Tables.BuildLengthCode | internal/zlib1/tables.go:94-113 | the table agrees with the length codes of section 3.2.5 of RFC 1951, with 258 a code of its own |
| Tables.BuildDistCode | internal/zlib1/tables.go:141-164 | both halves of the table agree with the distance codes of section 3.2.5 of RFC 1951 |
| BlockLemmas.DCodeIs | internal/zlib1/tables.go:168-174 | looking a distance up in either half gives its distance code |
| StaticTrees.BuildStaticLtree | internal/zlib1/tables.go:178-199 | the fixed literal and length code of section 3.2.6 of RFC 1951 |
| StaticTrees.SameDistanceWords | internal/zlib1/tables.go:203-212 | the thirty fixed distance codes sent are the first thirty of the decoder's thirty-two |
| PageAllocation.PageMaps.AllocatePages | ddl.go:546-598 | for any number: the lowest free pages, all of them and no other bit set; the file grows to the first count, extent by extent, below which so many pages are free, and is refused exactly when no such count the maps reach has them; both maps and the last page in use stay consistent, and the counters go up by the pages and the extents that changed |
| PageAllocation.PageMaps.FindFreePages | ddl.go:610-622 | the lowest free pages below the page count, as many as there are up to the number |
| PageAllocation.PageMaps.MarkPagesAllocated | ddl.go:627-638 | exactly the pages' bits are set and the last page in use follows |
| PageAllocation.PageMaps.UpdateExtentMap | ddl.go:643-673 | the touched extents get the state their pages have, no other extent changes, and the changed ones are counted |
| PageAllocation.PageMaps.ComputeExtentState | ddl.go:503-520 | free, partial or full exactly as the extent's bits say |
| PageAllocation.PageMaps.ExtendFile | ddl_grow.go:167-201 | grows by whole extents, one less not being enough, or not at all exactly when the maps could not describe any growth that is |
| PageAllocation.GrowsEnough | ddl_grow.go:167-201 | the growth asked for always brings enough free pages, so the second search cannot fail |
| PageAllocation.GrowsLeast | ddl_grow.go:180-182 | it is a number of whole extents, and no smaller number brings as many pages |
| PageAllocation.GrownIsFewest | ddl.go:546-598 | growing by what is missing is growing to the first count with enough free pages, and that count is past the maps if and only if no count within them is enough |
| AllocationMaps.LowestCounted | ddl.go:610-622 | the free pages found are as many as were asked for or as there are |
| AllocationMaps.MapsReach | ddl_grow.go:101-116 | the pages below the limit are exactly those with a bit in the one map and whose extent has an entry in the other |
| PageAllocation.PageMaps.ReleasePages | ddl.go:313-372 | released exactly when each page is allocated and named once; then exactly those bits are cleared, full extents among them become partial, the last page in use is the highest one left, and what is marked dirty covers every difference to the file if and only if no touched extent is full in the buffer, or the buffered extent map is the file's |
| PageAllocation.PageMaps.FindLast | ddl.go:377-394 | the highest allocated page, or none |
| PageAllocation.PageMaps.ShrinkToLastUsedPage | ddl_compact.go:616-655 | cuts the file to the pages in use but never below six, and its guard against cutting an allocated page never strikes |
| PageAllocation.PageMaps.TakeFresh | ddl_database.go:437-458 | pages of a fresh file taken one at a time leave the maps consistent |
| PageAllocation.PageMaps.Flush | writer.go:1182-1198 | the file holds the buffers marked dirty, and a new edit starts from it |
| PageAllocation.Run | ddl.go:313-372 | any run of allocations, releases, growths, cuts and writes goes through the states its steps make, all consistent; it stops only at a release the maps refuse or before a write that would lose a change; at every point what is marked dirty is all the file is behind by if and only if every release loses nothing by the state it meets |
| PageAllocation.KeptExactly | ddl.go:313-372 | so for every run there can be, and when no release loses anything no write stops it |
| PageAllocation.CleanRun | ddl.go:313-372 | releases that come first or right behind a write lose nothing |
| IndexDrop.DropIndexPages | ddl_index.go:601-620 | the edit of DROP INDEX on pages: unless it fails, the two maps on file agree afterwards if and only if the schema's chain keeps its size or grows, or the tree has no page in a full extent, or a page given back by the chain lies in another full extent |
| IndexDrop.LostExtentUpdate | ddl_index.go:601-620 | on a file whose schema takes one page of a chain of two, the file ends up saying of an extent with a free page that it is full |
| PageChains.ChainFile.InternalFilePageChain | catalog.go:168-194 | the whole chain, or nothing when it loops, leaves the file or passes 64 pages |
| PageChains.ChainFile.AllocatePage | ddl.go:459-465 | the lowest free page is allocated, in a file grown by as few extents as it takes, and its header stamped; its payload is as it was found; refused exactly when the maps can describe no free page |
| PageChains.ChainFile.FreeChainPages | ddl.go:705-723 | the pages are marked freed and given back, and nothing else changes |
| PageChains.ChainFile.ResizeChain | ddl.go:728-756 | a chain brought to n pages keeps its first ones, gains pages that were free or gives back its last, and every other page is untouched |
| PageChains.ChainFile.WriteInternalFilePages | catalog.go:206-249 | the chain, resized to what the data needs, carries exactly the data |
| PageChains.ChainFile.ReadInternalFilePages | catalog.go:122-163 | a stored file of at most 64 pages is read back whole; a longer one is refused |
| PageChains.WriteThenRead | catalog.go:206-249 | whatever the data and the chain it replaces, what was written reads back if and only if it takes at most 64 pages |
| PageChains.OtherChainKept | catalog.go:206-249 | a chain of allocated pages that shares none with the one rewritten keeps its links and its bytes |
| InternalFiles.CompressInternalFile | schema.go:423-448 | a header, and a payload that is the content or decodes to it, which gives the content back if and only if it is within bounds; refused exactly for an unknown algorithm or what 31 bits cannot count |
| InternalFiles.FrameReads | schema.go:369-411 | a framed file gives its content back, whatever follows, if and only if the content is no longer than a reader lets the payload expand |
| InternalFiles.CeilingMeans | blob.go:354-367 | content is taken up to 64 KiB from any payload, up to 64 times the payload beyond that, and never over 16 MiB |
| InternalFiles.ReadFromFirst | ddl_index.go:678-690 | the first page alone gives the content if and only if the file takes one page and is within those bounds |
| InternalFiles.WriteThenReadSchema | ddl_index.go:551-558 | a schema written over its chain is read back from the first page if and only if it takes one page, through the chain if and only if it takes at most 64, and by neither when it is out of bounds |
| InternalFiles.TooLongToRead | blob.go:354-367 | no content over 64 times a page and 64 KiB is ever read from one page, and none over 16 MiB from any number |
| TableCatalog.RemoveCatalogEntry | ddl.go:271-301 | edits the page in place exactly when it is an uncompressed whole file of one page that has the entry, and says why otherwise |
| TableCatalog.RemovedTables | ddl.go:271-301 | the catalog then parses to the old list without that entry |
| TableCatalog.AppendCatalogEntry | catalog.go:256-301 | puts the entry behind the others, or says why it cannot |
| TableCatalog.AppendedTables | catalog.go:313-344 | the catalog then parses to the old list and the entry |
| TableCatalog.EntryRoundTrip | catalog.go:256-301 | an entry reads back as given if and only if its name holds no NUL and its numbers fit 32 bits |
| TableDrop.IndexTreePages | ddl.go:1066-1122 | on any graph of pages: exactly those reachable from the root, or nothing exactly when one of them is not an index page of the file |
| TableDrop.TablePages | ddl.go:879-910 | exactly the pages of the table's chains, trees and data, or nothing exactly when one of the walks fails |
| TableDrop.OwnedPages | ddl.go:823-868 | every page in use gets its one owner, or there is none; fails if and only if a walk fails or two tables of different ids claim a page |
| TableDrop.DropTable | ddl.go:138-182 | refused, with nothing changed, for exactly the stated causes: it goes ahead if and only if every page in use is one table's, the table has no BLOB pages and is not the only one; otherwise exactly the pages claimed under the table's id are freed and the catalog parses to the list without it |
| TableDrop.ApplyDrop | ddl.go:185-232 | marks the pages freed, removes the entry and gives the pages back, or says which step refused |
| TableDrop.SurvivorsKeepPages | ddl.go:823-868 | no page of a table with another id is among those freed |
| TableDrop.OwnPagesOnly | ddl.go:823-868 | where ids differ, what is freed is what the dropped table itself claims |
| TableRoots.ParsePages | index.go:93-165 | every page parsed as an index page, with no more entries than it can hold, for the walk over a tree and for a lookup |
| TableRoots.OpenIndex | index.go:796-896 | the table's roots: every root there is when it is the only table, and in any case those its schema names; of the others those whose first leaf points at its data pages, a root of the system by its keys; fails exactly when one cannot be decided |
| TableRoots.Describe | ddl.go:939-1030 | a table's chains, index roots and BLOB root, from its catalog entry, its schema's last eight bytes and its roots: of two page numbers written there the first is among the roots and the second is the BLOB root, which names a page if and only if the parsed schema has BLOB pages; fails exactly when the schema's first page does not give its content or a root cannot be decided |
| TableRoots.RootsWritten | ddl.go:1024-1029 | two page numbers written at the end of a schema read back in their order |
| TableRoots.RootsParsed | ddl.go:1024-1029 | on a schema that parses they are its own two, and the second names a page if and only if the table has BLOB pages |
| TableRoots.BuiltRoots | ddl_create.go:796-806 | a new table's stream gives the root it was written with, and no BLOBs |
| TableRoots.BlobsBySchema | ddl.go:167-171 | the check for BLOB pages asks what the schema of the last table with that id says |
| TableRoots.DropTableNamed | ddl.go:138-182 | DROP TABLE by the bytes of the file alone: the verdict is told by catalog and pages; it is refused for BLOB pages only where the parsed schema has them, and goes further only where it has none; when it is carried out exactly the pages claimed under the table's id are freed and the catalog lists the others |
| IndexLeaves.IndexLeaf.Insert | writer_index.go:469-506 | the leaf's entries are the old ones with the new one behind every key not above it, in place in the page, or the leaf is full |
| IndexLeaves.IndexLeaf.Remove | writer_index.go:517-542 | the first entry of that record is gone, the others moved up, the bytes behind them untouched |
| IndexLeaves.IndexLeaf.HasKey | writer_index.go:434-442 | true exactly when some entry ties with the key |
| IndexLeaves.IndexLeaf.Room | writer_index.go:454-461 | true exactly when one more entry fits the page |
| IndexLeaves.InsertedSorted | writer_index.go:469-506 | a sorted leaf stays sorted, for any preorder of keys |
| IndexedRows.RowAdded | writer_index.go:691-709 | an index that lists every record once, under its key, ties by age, still does with the record added |
| IndexedRows.RowDropped | writer_index.go:712-725 | and with a record dropped |
| IndexedRows.RowMoved | writer_index.go:798-824 | and with a record's key changed |
| IndexedRows.OthersTaken | writer_index.go:612-640 | a unique index holds a key that is not the record's own if and only if another record's key ties with it |
| IndexedRows.SizeAgrees | writer_index.go:454-461 | an index has as many entries as there are records |
| TableWriting.TableWriter.CheckKeyIndexes | writer_index.go:612-640 | refuses exactly a record whose key a unique index holds for another one |
| TableWriting.TableWriter.StoreRecordReindexing | writer_index.go:736-768 | the record and every index change together, or nothing does |
| TableWriting.TableWriter.Insert | writer.go:357-425 | accepted if and only if the record meets the constraints, every leaf has room for one entry more than there are records, no record's key ties with its own in a unique index and no primary key is null, the writer is open, and there is a slot or a page to add; refused as such if and only if it breaks a constraint; an accepted record is in the first free slot and in every index, and when a page was added the records and the indexes keep agreeing if and only if that page's bitmap was found empty |
| TableWriting.TableWriter.Update | writer.go:317-329 | accepted if and only if there is the record, the new one has the right size, keeps its BLOB references and meets the constraints, and no other record's key ties with its own in a unique index; then exactly that record changes, in the table and in every index |
| TableWriting.TableWriter.UpdateColumn | writer.go:337-352 | the record becomes what encoding the column makes of it, under the same condition, or is left |
| TableWriting.TableWriter.Delete | writer.go:430-453 | exactly that record is gone, from the table and from every index |
| TableWriting.TableWriter.FreeSlot | writer.go:738-766 | the first free slot of the first page that has one, or one of a page added behind the others |
| TableWriting.TableWriter.GrowTable | writer.go:781-814 | one page more, with the records its old bits show |
| TableWriting.TableWriter.UpdatePageCounts | writer.go:893-943 | every page's count becomes what it was and the changes noted, refused when one is not what the page held |
| TableWriting.TableWriter.UpdateCounters | writer.go:948-997 | the record count moves by the records added and the change counter by the changes |
| TableWriting.TableWriter.Commit | writer.go:476-511 | the verdict is exact; after it every page's count is the records it holds, the record count is all of them and the change counter the changes |
| TableWriting.TableWriter.Run | writer.go:357-511 | in any run of inserts, updates and deletes each is accepted exactly when it can be done, by the records and data pages it meets alone, and each new record goes to the first free slot; the run leaves the records its accepted steps make of the old ones, in agreement with every index, and stores none that breaks a constraint |
| TableWriting.TableWriter.RunAdmits | writer.go:357-425 | every record there is after such a run meets the constraints, or was there before |
| TableWriting.TableWriter.InsertByRows | writer.go:357-425 | the checks of an insert, by the records alone |
| TableWriting.TableWriter.StoreByRows | writer_index.go:736-768 | and those of a change |
| TableWriting.TableWriter.RunAndCommit | writer.go:476-511 | and the commit behind it finds counts that agree |
| TableWriting.TableWriter.GrowAndCommit | writer.go:781-814 | an insert that adds a page with bits set is refused, or its commit is |
| TableWriting.ReusedPages | ddl.go:459-465 | pages of a dropped table, used again as they are, give both outcomes |
| SlotPages.RecordsSince | writer.go:948-997 | the sum of the noted changes is the difference in records since the writer was opened |
| SlotPages.RecordsNow | writer.go:893-943 | the rewritten counts sum to the records there are |
| BTreeLookup.SearchTree | index.go:457-488 | on a tree whose separators bound both sides it finds exactly what the descent by the last separator not above the key ends at, and on any links it ends |
| BTreeLookup.DescentExact | index.go:507-517 | on any tree whose separators bound both sides and for every key, the descent finds it exactly when the tree holds a tie, if and only if at each inner page on the way the child chosen holds a tie whenever one left of it does |
| BTreeLookup.ClosedExact | index.go:507-517 | that is so for all keys on trees where the child behind the last of a run of tying separators holds a tie whenever something left of it does, and, where no subtree is empty, only on those |
| BTreeLookup.DescentSound | index.go:457-501 | what is found is there |
| BTreeLookup.DescentComplete | index.go:457-501 | on such closed trees what is there is found |
| BTreeLookup.ChildPageNo | index.go:507-517 | the child behind the rightmost separator not above the key |
| BTreeLookup.FindLeftmostLeaf | index.go:562-589 | the first leaf of the tree |
| BTreeLookup.ScanLeaves | index.go:522-558 | the leaf chain lists the tree's entries in order, and the walk ends on any links |
| BTreeLookup.SearchAgreesWithScan | index.go:457-558 | the search finds a key exactly when the scan lists a tie, if and only if the tree is closed for the key |
| BTreeLookup.MissedTie | index.go:507-517 | a tree where two separators tie: the scan lists the key, the search does not find it |
| CipherFeedback.EncryptCTS | cryptowrite.go:29-60 | the stretch becomes its encryption under chained feedback, in place or not, its first full block being the cipher of the plaintext with every bit inverted, and nothing outside changes |
| CipherFeedback.DecryptCTS | crypto.go:295-322 | the stretch becomes its decryption, in place or not |
| CipherFeedback.EncryptThenDecrypt | cryptowrite.go:29-60 | for every block cipher and every length, a short last block too, encrypting and decrypting in place leaves the bytes as they were |
| CipherFeedback.EncDec | crypto.go:295-322 | and the other way round, so every byte string is the encryption of exactly one |
| PageFile.PageStore.ReadPage | absdb.go:198-238 | header and decrypted payload of the page, although the file's blocks lie 420 bytes off the pages |
| PageFile.PageStore.WritePageBuf | writer.go:1128-1161 | a page written reads back, encrypted or not, no other page changes, and one that would read back as clear is refused |
| EquivalentInverse.Decrypts | internal/deccrypto/rijndael.go:375-409 | for any substitution, shift and linear diffusion, the same rounds with the inverted parts and the keys reversed and undiffused decrypt |
| EquivalentInverse.Encrypts | internal/deccrypto/rijndael.go:375-409 | and the other way round |
| EquivalentInverse.BytesInvert | internal/deccrypto/rijndael.go:375-409 | so on blocks of bytes, loaded and stored low byte first |
| EquivalentInverse.BuildTable | internal/deccrypto/rijndael.go:221-232 | every table entry is the box's value times the matrix column |
| EquivalentInverse.InvertBox | internal/deccrypto/rijndael.go:205-217 | the inverse of a box that is a permutation, filled by filing each place under its value |
| GaloisField.GFMult | internal/deccrypto/rijndael.go:133-149 | shift-and-add multiplication is the product of the field |
| ByteWords.UnmixMix | internal/deccrypto/rijndael.go:153-161 | the decryption matrix undoes the encryption matrix, for any field polynomial |
| RijndaelBox.GFInverse | internal/deccrypto/rijndael.go:166-178 | the search ends with the multiplicative inverse |
| RijndaelBox.AffineBits | internal/deccrypto/rijndael.go:181-182 | the affine step bit by bit, as section 5.1.1 of FIPS 197 has it |
| RijndaelBox.BuildRijndaelSE | internal/deccrypto/rijndael.go:183-202 | every entry is the affine image of the inverse in the field, and the box is a permutation of the bytes |
| Rijndael.RijndaelTransform | internal/deccrypto/rijndael.go:375-409 | the table-driven rounds are the rounds of substitution, shift and diffusion |
| Rijndael.ReverseKeys | internal/deccrypto/rijndael.go:343-368 | the decryption keys are the encryption keys backwards, undiffused but for the outer two |
| Rijndael.BothWays | internal/deccrypto/rijndael.go:375-409 | for all round keys and every block, decrypting in place undoes encrypting in place, and encrypting undoes decrypting |
| Square.NewSquare | internal/deccrypto/square.go:259-285 | one pass expands the key into both schedules, which are inverse to one another |
| Square.SquareTransform | internal/deccrypto/square.go:299-337 | the table-driven rounds are the rounds of substitution, transposition and diffusion |
| Square.BothWays | internal/deccrypto/square.go:299-347 | for every key and block, with the literal box, each direction in place undoes the other |
| SquareBox.SquareIsPermutation | internal/deccrypto/square.go:66-83 | the literal box is a permutation of the bytes |
| Twofish.Encrypt | internal/deccrypto/twofish.go:313-347 | bytes loaded, the loop over pairs of rounds, bytes stored: the cipher, in place or not |
| Twofish.Decrypt | internal/deccrypto/twofish.go:350-386 | and its inverse |
| Twofish.GRotIsG | internal/deccrypto/twofish.go:443-453 | the second box sum is the first one of the word rotated left by a byte |
| Twofish.RotLBits | internal/deccrypto/twofish.go:326-333 | rotating left moves every bit one place up and the highest to the bottom |
| Twofish.RotRBits | internal/deccrypto/twofish.go:329-336 | and rotating right one place down |
| Twofish.BothWays | internal/deccrypto/twofish.go:313-386 | for all subkeys, boxes and blocks of bytes each direction in place undoes the other |
| TripleDes.Encrypt | internal/deccrypto/tdes.go:105-117 | three stages over 24 bytes with the two exchanges between them |
| TripleDes.Decrypt | internal/deccrypto/tdes.go:123-135 | the stages and exchanges backwards |
| TripleDes.TripleInverts | internal/deccrypto/tdes.go:105-135 | each undoes the other, for any three invertible single ciphers |
| TripleDes.TripleIsCipher | internal/deccrypto/tdes.go:105-135 | so it is a block cipher as the cipher feedback needs one |
| BlockCiphers.RijndaelIsCipher | internal/deccrypto/rijndael.go:375-409 | what the rounds of Rijndael compute is a block cipher as the cipher feedback needs one |
| BlockCiphers.SquareIsCipher | internal/deccrypto/square.go:299-347 | so for Square |
| BlockCiphers.TwofishIsCipher | internal/deccrypto/twofish.go:313-386 | and Twofish |
| Codecs.BindLawful | ddl_constraint.go:228-272 | a record whose first field chooses the rest reads back exactly when its fields do, and what is read depends on its own bytes alone |
| Codecs.CountedLawful | ddl_index.go:754-812 | so for a counted array, although the count is held against the bytes left |
| Codecs.ListWithout | ddl_index.go:1118-1137 | cutting one record's bytes out of an array cuts exactly that record out of the list |
| SchemaRecords.IndexExact | ddl_index.go:819-868 | index records: read back, local, and written with the bytes they were read from |
| SchemaRecords.IndexAccepted | ddl_index.go:1011-1062 | the index records the writer takes |
| SchemaRecords.ConstraintExact | ddl_constraint.go:228-411 | so for constraint records of all four kinds |
| SchemaRecords.ConstraintAccepted | ddl_constraint_write.go:63-189 | the constraint records the writer takes |
| SchemaRecords.ConstraintComesBack | ddl_constraint_write.go:234-243 | of those, one comes back if and only if its NOT NULL or CHECK body names no table and no column of 255 bytes |
| SchemaColumns.ColumnReadable | schema.go:486-619 | column definitions read back, at any types, with AUTOINC options and defaults |
| SchemaColumns.ColumnAccepted | ddl_create.go:846-905 | the columns the writer takes |
| SchemaStream.BuildThenParse | ddl_create.go:796-806 | a stream written for a table is read back, names up to their first NUL, if and only if no NOT NULL or CHECK record carries a name of 255 bytes |
| SchemaStream.IndexComesBackWhole | reader.go:649-665 | an index record comes back unchanged if and only if no name in it holds a NUL |
| SchemaStream.ConstraintComesBackWhole | reader.go:649-665 | and so a constraint record |
| SchemaStream.ConstraintsRewritten | ddl_constraint_write.go:42-59 | constraint records that were read are written in no more bytes, and in the same bytes when as many are needed |
| SchemaStream.IndexesRewritten | ddl_index.go:983-996 | and so index records |
| SchemaStream.ParseRecords | ddl_index.go:797-812 | the records of the list, one behind the other without gap or overlap, or nothing exactly when the list does not parse |
| SchemaStream.Parsed | ddl_index.go:706-749 | a stream put together from its stretches is read if and only if no count is above what the reader takes |
| SchemaStream.Taken | ddl_index.go:706-749 | every stream that is read falls into such stretches |
| SchemaEdits.ParseSchemaTail | ddl_index.go:706-749 | succeeds exactly when the stream parses to its last eight bytes, and tells where every record lies |
| SchemaEdits.DropIndex | ddl_index.go:587-599 | refused exactly for a missing index or one that implements a constraint, so no index of a key and no owner of a constraint is lost; otherwise the stream parses to the schema without that index |
| SchemaEdits.CreateIndex | ddl_index.go:313-327 | carried out if and only if the columns are there and can be indexed, no index has the name, a unique one covers one column and the records can be written; then the stream parses to the schema with one index more: of the name, ids and root page asked for, not primary, on the first columns of the names given, in their order, ascending; and for a unique one with its constraint, which has the next id, names index and column, and is owned by the index |
| SchemaEdits.PlanAsAsked | ddl_index.go:478-518 | what is planned is the index asked for, field by field |
| IndexBuild.BuildLeaf | ddl_index.go:1141-1221 | the leaf of a new index: refused exactly when it is to be unique and two rows tie, or when the rows do not fit one page; otherwise its bytes read as one entry a row, sorted, ties in reading order, as the table writer needs them |
| IndexBuild.BuiltKept | ddl_index.go:1141-1178 | sorting stably keeps the entries in agreement with the rows, equal keys in the order they are read |
| IndexBuild.RefuseDuplicates | ddl_index.go:538-547 | looking at neighbours finds every tie of a sorted leaf |
| IndexBuild.TiesAreRows | ddl_index.go:538-547 | and entries tie if and only if two rows do |
| IndexBuild.WriteIndexLeaf | ddl_index.go:1185-1221 | the page's header and entries, read back, are those given; it is left alone exactly when they do not fit |
| SchemaEdits.AddColumn | ddl_alter.go:467-521 | carried out, on a stream that parses, if and only if there are no BLOB pages, no column has the name and the definition can be written; every byte behind the columns is kept, and the stream parses to the schema with the column if and only if there were fewer than 65000 |
| SchemaScan.DropAnyColumn | ddl_alter.go:467-521 | on a stream that parses, refused exactly for a column some index or constraint names, a missing or only column, or BLOB pages, and else the stream parses to the schema without it; on another, text that may name the column refuses too, and else the columns lose it and every byte behind them is kept |
| SchemaEdits.DropEdits | ddl_alter.go:265-338 | a column is dropped if and only if there are no BLOB pages, it is there and not the only one, no index covers it and no constraint names it; nothing but the first column of that name goes |
| SchemaScan.ScanConstraintMarkers | ddl_alter.go:657-682 | true if and only if the unbroken text around some "C_" has a part between dollars that is the column's name |
| SchemaRuns.IndexUndone | ddl_index.go:567-631 | dropping the index just created restores the stream byte for byte |
| SchemaRuns.ColumnUndone | ddl_alter.go:467-521 | dropping the column just added restores the stream byte for byte |
| SchemaRuns.CreateThenDrop | ddl_index.go:567-662 | CREATE then DROP INDEX of a name: a plain index goes without a trace, a unique one is refused |
| SchemaRuns.AddThenDrop | ddl_alter.go:265-338 | ADD then DROP COLUMN of a name leaves the stream as it was |
| SchemaRuns.RunKeeps | ddl_alter.go:540-600 | after any run of statements every covered or constrained column is there, and every key constraint has its index |
| SchemaRuns.Run | ddl_index.go:567-631 | and the stream parses to the schema the run makes, as long as each addition finds its count below the limit |
| SchemaRuns.ParsedPlain | reader.go:649-665 | no column of a stream that is read has a NUL in its name |
| SchemaRuns.AddedDistinct | ddl_alter.go:216-233 | column names stay distinct if and only if no column has the new name's part before its first NUL |
| SchemaFailures.LongNameLost | ddl_constraint_write.go:234-243 | a table with NOT NULL on a column of a 255-byte name is written and not read |
| SchemaFailures.TooManyColumns | ddl_alter.go:467-521 | the 65001st column is added and the table is not read any more |
| SchemaFailures.HugeSchema | schema.go:369-411 | within the limit on columns a column is added to a stream that parses before and after, and no reader takes it from an internal file, whatever it is compressed to |
| SchemaFailures.TwoColumnsAlike | ddl_alter.go:216-233 | a second column of the same name |
| RowCodec.EncodeRecord | encode.go:100-121 | refused exactly when a value does not fit its column; otherwise every field, every null flag and every spare flag is as the row says |
| RowCodec.EncodeThenDecode | encode.go:229-381 | a value written is read back, but for bytes, which come back padded |
| RowCodec.DecodeThenEncode | ddl_alter.go:839-861 | a value on file can be written again if and only if it is not of a BYTES column and its text, if it is text, ends with a NUL |
| RowPages.RecordsPerPage | reader.go:720-731 | the most records that fit with their bitmap |
| RowPages.RewriteDataPage | ddl_alter.go:750-785 | carried out if and only if every row fits and keeps its slot; then the same slots are occupied, by the changed rows |
| RowPages.AddRewritable | ddl_alter.go:750-785 | ADD COLUMN on a page: exactly when the last occupied slot is still there and no row holds bytes, or text without a NUL |
| RowPages.AddKeepsRows | ddl_alter.go:185-189 | every row is what it was with a NULL behind it |
| RowPages.DropRewritable | ddl_alter.go:310-322 | DROP COLUMN never leaves a row without its slot |
| RowPages.DropKeepsRows | ddl_alter.go:310-322 | every row is what it was without the column |
| RowPages.AddThenDrop | ddl_alter.go:750-785 | a column added and dropped again: every row is back in its slot |
| RowPages.BytesStuck | encode.go:514-528 | a row that holds bytes stops ADD COLUMN |

## Left out

- TreeBuilding.TreeBuilder.BuildTree: does not state that a code cut to the length limit is the cheapest within it, because the repair of trees.go:275-315 is a heuristic and gives no such code.
- Deflating.Compress: does not state that the stream is byte for byte that of the C library at level 1, because nothing in this repository defines that stream; the match finder, the choice of blocks and the trees are followed as written here.
- Matching.Matcher.FindMatch: the strings looked at are those less than 32506 bytes back, and at exactly that distance the nearest alone, but for places divisible by 32768, where the window may start; `LongestMatch` says of these what it tries.
- The capacity given to the output in advance (internal/zlib1/deflate.go:104-106): slices are sequences here.
- Square.BothWays: the inverse matrix is a constant, proved inverse; that the elimination of square.go:146-191 finds it is not shown.
- Rijndael.BothWays: round keys are given; the key expansion (rijndael.go:282-329) is not modelled, since decryption is right for any keys.
- Twofish.BothWays: boxes and subkeys are given; their setup (twofish.go:235-282, 389-440) is not modelled, since decryption is right for any.
- TripleDes.TripleInverts: the single DES is a parameter with its inverse; it comes from the Go library.
- SchemaEdits.CreateIndex: which columns can be indexed is a parameter; a stream whose tail does not parse is refused as such although the code may name a missing column first.
- IndexDrop.DropIndexPages: the pages of the tree and the new stream are parameters; `TableDrop.IndexTreePages` and `SchemaEdits.DropIndex` give them.
- SchemaRecords.ConstraintExact: a NOT NULL or CHECK record holds its one column by its type; the refusal of several (ddl_constraint_write.go:139-141) is not modelled.
- RowPages.RewriteDataPage: integers, logicals, Windows-1252 text and bytes; floating point, dates and times, UTF-16 text and BLOB references are not modelled.
- Comparing names without regard to case, and Windows-1252: names are byte strings and their comparison a parameter, an equivalence where that matters.
- InternalFiles.FrameReads: a compressed payload is decoded by the decoder of `Inflate`, which wants nothing behind the checksum; the Go library's reader does not look there.
- IndexBuild.BuildLeaf: the stable sort is the library's; it is insertion here, which gives the one stable order there is. Key building is a parameter.
- TableWriting.TableWriter.Insert: a data page's bitmap is a sequence of booleans and a record an uninterpreted value; key building and key order are parameters, the order a preorder; AUTOINC values and CHECK bounds are one predicate on records.
- Writer rollback, the State counters with their random seeds, and opening, locking and syncing of files.
- Extent sizes of zero or less in the file header, and edits abandoned after an error: nothing is stated of either.
- BLOB storage, the readers of single column types, GUIDs, and CompactDatabase as a whole: its parts are the operations above.
