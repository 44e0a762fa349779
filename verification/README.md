# Verified model of motif's derived indexes

motif keeps chess games in SQLite and derives immutable index files from them. This project models the code that builds, publishes
and queries those files, and the bulk import that fills the game table, and proves what they promise each other.

- **Exact postings** (`Words`, `Uleb128`, `Bitmaps`, `PostingBlock`, `PostingOrder`, `DirectoryBlock`, `DirectoryWriter`, `BufferedWriter`,
  `SortedRuns`, `RunMerger`, `ArtifactAssembly`, `PostingsFile`, `PostingsArtifact`, `PostingsReader`, `PostingsLookup`, `PostingsAnswers`,
  `PositionPostings`, `ArtifactSize`, `PostingsRows`, `PostingsBuild`): buffered rows, sorted spills, a k-way merge into one byte-exact file, its validating reader and
  its two-level search. An index equals a plain filter over the rows.
- **Opening tree** (`Aggregation`, `OpeningStats`, `OpeningMeaning`, `OpeningTreeBytes`, `OpeningTreeFile`, `OpeningTreeWriter`, `OpeningTree`,
  `OpeningTreeBuilder`, `OpeningTreeWidth`, `PostingsReplay`, `OpeningQueries`) and the searches beside it (`GameSearch`, `EloDistribution`): three external aggregations, a
  merge-join into one byte-exact file, and the slow replay. Every path gives the naive aggregate over the games,
  and a row of it says of the set of games that play a move how many they are, how they ended and how they are rated.
- **Generations** (`Bundle`, `DatabaseManager`, `DatabaseRuns`): staged builds, publication through a manifest, invalidation before
  mutation, queries that fail closed, with a process crash between any two durable effects. Every effect on `Disk` uses up one of the
  steps left before the crash, and no file the manifest names may be written, renamed or removed: that is a precondition of `Disk`.
  A reconciliation may remove games under a published index; the game count then keeps every query truthful.
- **Import** (`GameIdentity`, `GameWriter`, `NameCaches`, `ImportPipeline`, `ImportFaults`, `MarkerScan`): unchecked inserts with one later
  deduplication equal checked inserts, across stops, crashes and resumption.
- **Known files** (`KnownFiles`): one small file of each format, byte for byte.
- **Prefix postings** (`PrefixPostings`): the in-memory and the external path write one file, and candidates are exact.

Chess is an arbitrary deterministic `step` and `hash` (`Chess`); only `OpeningTreeWidth.NodesAreNarrow` assumes anything about hashes, and says so.
Elo weights are doubled integers. A heap is any cursor with a least current record. `dafny verify dfyconfig.toml` checks everything.

Where the code does less, or other, than its documentation says, the code is followed:

- `position_postings::build` compares the games it replayed with the store's count, but `append` overwrites that count with the number
  of games it has seen (`source/motif/db/position_postings.cpp:743-789`, `source/motif/db/position_postings.cpp:851`), so the comparison decides only for an empty store.
- The decoders add a ply and its delta in 64 bits, where the sum wraps: a block no writer produces can be accepted with plies that
  descend (`PostingBlock.WrappedBlockIsAccepted`). Plies ascend exactly when no stored delta exceeds 65535 (`PostingBlock.AcceptedIsAscending`).
- `append` accepts more occurrences of one hash than the reader's 32-bit check admits; `finalize` then fails its own validation
  (`PostingsRows.TooManyOccurrences`). Up to 2^48 records that is the only way a list of valid rows can fail (`PostingsRows.IndexRows`). A failed
  `append` leaves a game count that need not be the size of the metadata table, which is the other way to fail a later `finalize`.
- A built opening tree is not accepted if some position has 2^32 or more distinct recorded edges. That takes at least 2^32 plies
  (`OpeningTreeWidth.FewPliesAreNarrow`) and colliding hashes (`OpeningTreeWidth.NodesAreNarrow`); `OpeningTreeWidth.TooWide` is such a store.
- `find_games` on its fast path answers an offset beyond SQLite's integers with an empty page, where the slow path refuses (`GameSearch.PathsAgree`).
- A game whose extra tags repeat a name cannot be stored, because the tag table's primary key refuses the second one; `insert` still
  rejects it as a duplicate where `insert_raw` fails, so the numbers of removed and of rejected games can differ (`GameWriter.RepeatedTagsDiffer`).
  The import prepares games without extra tags and is not affected (`source/motif/import/import_pipeline.cpp:145-206`).
- A failed batch commit, or insert, rolls games back while entries are still in flight, and the counters go on. With two or more slots an
  entry behind them can then write a checkpoint that covers the lost games (`ImportFaults.BatchIsLost`); with one slot it cannot (`ImportFaults.SlotsDecide`).
- `query_unfiltered_opening_stats` answers a failed summary read with a successful empty list (`source/motif/db/database_manager.cpp:1443-1446`),
  which is right exactly where no game plays on (`OpeningQueries.EmptyIsStats`).
- An import that resumes at an entry without an Event line loses that entry (`ImportPipeline.UntaggedIsSkipped`).
- After an external merge and before `open`, prefix candidates are out of range for every hash that is not below all stored prefixes (`PrefixPostings.PrefixPostings.StaleUntilOpened`).
- The tree leaves out an Elo score for weights that are not positive, the slow path for a weight of zero: the same for non-negative Elos.

## Model

| member | source | states |
|---|---|---|
| `Uleb128.ReaderInvertsWriter` | source/motif/db/position_postings.cpp:235-257 | every 64-bit value written anywhere in a byte string, with any suffix after it, is read back with its end position |
| `Uleb128.CanonicalIsEncode` | source/motif/db/position_postings.cpp:294-309 | every byte string with continuation bits on all bytes but the last and no superfluous last byte is the encoding of its payload: minimal encodings are exactly the written ones |
| `Uleb128.Read` | source/motif/db/position_postings.cpp:235-257 | the reading loop returns a value exactly when the encoding of a 64-bit value lies at the offset, and then that value and the next offset |
| `Uleb128.TruncatedIsRejected` | source/motif/db/position_postings.cpp:240-243 | data that ends before a final byte stores no value |
| `Uleb128.OverlongIsRejected` | source/motif/db/position_postings.cpp:235-257 | ten continuation bytes store no value |
| `Uleb128.OverflowIsRejected` | source/motif/db/position_postings.cpp:235-257 | a tenth byte with a payload over one stores no value |
| `Uleb128.Length` | source/motif/db/position_postings.cpp:221-233 | the computed length is the length of the encoding |
| `Words.ReadFixed` | source/motif/db/position_postings.cpp:204-219 | a fixed-width read succeeds exactly when the word fits and returns the little-endian value |
| `BufferedWriter.BufferedFileWriter.WriteUleb128` | source/motif/db/position_postings.cpp:294-309 | the write loop appends exactly the encoding of the value, through any flush of the buffer |
| `BufferedWriter.BufferedFileWriter.WriteFixed` | source/motif/db/position_postings.cpp:279-292 | appends exactly the little-endian bytes |
| `PostingBlock.DecodeAcceptsExactlyBlocks` | source/motif/db/position_postings.cpp:471-533 | the acceptance criterion shared by the three decoders: a block is decodable to game groups exactly when it is the encoding of groups with ascending ids, whose stored 64-bit ply deltas only make each ply differ from the one before, and whose counts and ply range are the ones the directory entry states |
| `PostingBlock.AcceptedIsAscending` | source/motif/db/position_postings.cpp:511-521 | the sum of a ply and a delta wraps at 64 bits: among acceptable groups the plies of every game ascend exactly when no stored delta exceeds 65535 |
| `PostingBlock.WrappedBlockIsAccepted` | source/motif/db/position_postings.cpp:511-521 | a 13-byte block that the decoders accept although its second ply is below its first |
| `PostingBlock.DecodeWindow` | source/motif/db/position_postings.cpp:471-533 | the window decoder accepts exactly the decodable blocks and returns the requested page of the one occurrence list |
| `PostingBlock.DecodeGameIds` | source/motif/db/position_postings.cpp:535-589 | the id decoder accepts exactly the same blocks and returns the game ids of the same groups |
| `PostingBlock.DecodeFirstOccurrences` | source/motif/db/position_postings.cpp:591-649 | the first-occurrence decoder accepts exactly the same blocks and returns the first stored occurrence of every requested group |
| `PostingOrder.OccurrencesAscend` | source/motif/db/position_postings.cpp:1161-1180 | the occurrence list of a block is strictly ascending by game and ply, within the widths of ids and plies |
| `PostingOrder.GameIdsProject` | source/motif/db/position_postings.cpp:535-589 | the ids of any accepted block are strictly ascending and exactly the games that occur in the occurrence list |
| `PostingOrder.AcceptedAscends` | source/motif/db/position_postings.cpp:511-521 | the occurrence list of an accepted block is strictly ascending exactly when no stored ply delta exceeds 65535 |
| `PostingOrder.FirstsAreFirst` | source/motif/db/position_postings.cpp:591-649 | in any accepted block, the first stored occurrence of every requested game of the occurrence list, in order |
| `PostingOrder.FirstOccurrencesProject` | source/motif/db/position_postings.cpp:591-649 | exactly the lowest-ply occurrence of every requested game of the occurrence list, in order |
| `PostingOrder.BlockLength` | source/motif/db/position_postings.cpp:439 | a block is longer than its number of occurrences plus twice its games, as the directory check demands |
| `RunMerger.WriteGroup` | source/motif/db/position_postings.cpp:1161-1180 | the group writer appends the delta, the ply count, the first ply and the ply deltas |
| `Bitmaps.BitsOfBitmap` | source/motif/db/position_postings.cpp:380-404 | the bits read from a packed bitmap are the packed bits, and its padding is zero |
| `Bitmaps.BitmapOfBits` | source/motif/db/position_postings.cpp:58-69 | a bitmap with zero padding is the packing of the bits read from it |
| `DirectoryBlock.DecodeAcceptsExactlyBlocks` | source/motif/db/position_postings.cpp:351-458 | decoding accepts exactly the encodings of 1 to 256 entries with strictly ascending hashes and contiguous posting ranges, and returns those entries |
| `DirectoryBlock.DecodeBlock` | source/motif/db/position_postings.cpp:351-458 | the decoding loops (bitmaps, 40-bit low deltas, high exceptions, fields, derived offsets) compute that decoding, or fail with schema_mismatch |
| `DirectoryBlock.BlockSize` | source/motif/db/position_postings.cpp:48-49 | an encoded block never exceeds the limit the reader imposes |
| `DirectoryWriter.WriteBlock` | source/motif/db/position_postings.cpp:1048-1144 | writing a block appends exactly its encoding |
| `DirectoryWriter.BuildBitmap` | source/motif/db/position_postings.cpp:1048-1090 | the bit-setting loop builds the packing of the exception flags |
| `SortedRuns.StrictlySortedIsUnique` | source/motif/db/position_postings.cpp:1210-1251 | a strictly ascending record list is determined by its set of records, so no merge order, run split or threshold shows in it |
| `SortedRuns.PopLeast` | source/motif/db/position_postings.cpp:1211-1215 | popping any cursor with a least current record removes just that record and leaves nothing smaller behind |
| `RunMerger.Merger.Accept` | source/motif/db/position_postings.cpp:1216-1244 | each new record of the merge is appended to the records written or being collected |
| `RunMerger.Merger.FlushGameGroup` | source/motif/db/position_postings.cpp:1161-1180 | the game group being collected is written as the next group of the active posting block |
| `RunMerger.Merger.FlushHash` | source/motif/db/position_postings.cpp:1185-1210 | the active hash becomes the last finished group, with its entry filed in the directory; no record received is lost |
| `RunMerger.Merger.FlushDirectoryBlock` | source/motif/db/position_postings.cpp:1048-1144 | the pending entries become one directory block, with a sparse entry that locates it |
| `RunMerger.Merger.Finish` | source/motif/db/position_postings.cpp:1252-1254 | after the last record, posting bytes, directory blocks and sparse entries are those of the grouped records |
| `ArtifactAssembly.Assemble` | source/motif/db/position_postings.cpp:1270-1359 | the assembled file is header, posting section, metadata, directory and sparse directory, with the patched header locating them |
| `PostingsArtifact.ArtifactIsAcceptable` | source/motif/db/position_postings.cpp:1399-1563 | a written file is accepted by open exactly when its counts and offsets fit the format (Representable), and then the directory and the metadata read back are the written ones |
| `PostingsArtifact.PostingIsStored` | source/motif/db/position_postings.cpp:1161-1210 | at the range of every directory entry lies the encoding of its groups |
| `KnownFiles.KnownArtifact` | source/motif/db/position_postings.cpp:1048-1359 | a postings file of two hashes and two games, byte for byte: header, posting blocks, metadata, a directory block with both exceptions, sparse directory |
| `ArtifactSize.BlockBytes` | source/motif/db/position_postings.cpp:1161-1180 | a posting block takes at most twelve bytes per occurrence |
| `ArtifactSize.SectionsFit` | source/motif/db/position_postings.cpp:1270-1359 | up to 2^48 records no size or offset of the file exceeds what the reader takes |
| `ArtifactSize.RepresentableExactly` | source/motif/db/position_postings.cpp:1399-1563 | up to 2^48 records the written file passes the reader exactly when its game count is that of the metadata table and no hash has more than 2^32 - 1 records |
| `PostingsRows.IndexRows` | source/motif/db/position_postings.cpp:824-1814 | append, finalize, open and ask: it succeeds exactly when every row names a game and a result, rows of one game say the same of it and no hash stands at more than 2^32 - 1 distinct (game, ply) pairs; then every page of every hash is that slice of the one list that has each row of the hash once, by game and ply, with the result and Elos of the row |
| `PostingsRows.TooManyOccurrences` | source/motif/db/position_postings.cpp:1361-1366 | rows that agree, with over 2^32 - 1 distinct occurrences of one hash: append takes them and finalize fails its own validation |
| `PostingsReader.Open` | source/motif/db/position_postings.cpp:1399-1563 | open accepts exactly the files whose four sections tile the file, whose tables are ordered and in range, and whose directory blocks decode to ascending, contiguous entries; the loaded index is the stored one |
| `PostingsReader.CheckDirectory` | source/motif/db/position_postings.cpp:1524-1560 | the block-by-block scan accepts exactly when every block decodes to its sparse entry and the flattened directory is ordered, contiguous and complete |
| `PostingsReader.ReadSparse` | source/motif/db/position_postings.cpp:1484-1522 | the sparse loop accepts exactly contiguous, ordered, in-range sparse entries that cover the directory section |
| `PostingsLookup.RangesInside` | source/motif/db/position_postings.cpp:1542-1557 | in an accepted file every posting range lies in the posting section |
| `PostingsLookup.TwoLevelSearch` | source/motif/db/position_postings.cpp:1575-1584 | the block chosen by the sparse directory is the only one that can hold a hash: searching it equals linear search over the flattened directory |
| `PostingsLookup.FindEntry` | source/motif/db/position_postings.cpp:1628-1654 | sparse search, block read and binary search return what linear search over the flattened directory returns |
| `PostingsLookup.OccurrencesOf` | source/motif/db/position_postings.cpp:1773-1814 | a query returns the page of the decoded posting joined with the metadata, or the decoder's error |
| `PostingsLookup.FirstOccurrencesOf` | source/motif/db/position_postings.cpp:1728-1771 | first_occurrences returns the first stored occurrence of every requested game, joined with the metadata |
| `PostingsLookup.DistinctGameIds` | source/motif/db/position_postings.cpp:1678-1710 | distinct_game_ids returns the ids of the decoded posting, all of which must have metadata |
| `PostingsLookup.DistinctGameIdsPage` | source/motif/db/position_postings.cpp:1712-1726 | the paged form is the page of the whole id list, for every limit and offset |
| `PostingsLookup.Summaries` | source/motif/db/position_postings.cpp:1588-1620 | for_each_summary visits every directory entry, in order |
| `PositionPostings.RowsOkMeans` | source/motif/db/position_postings.cpp:824-855 | the rows of one scan are all taken exactly when each is valid on its own and no two rows, in either order, disagree about their game |
| `PositionPostings.PositionPostings.Append` | source/motif/db/position_postings.cpp:824-855 | append takes rows up to the first bad one, buffers exactly their records, and succeeds exactly for valid rows and a positive threshold |
| `PositionPostings.PositionPostings.SpillCurrentBuffer` | source/motif/db/position_postings.cpp:857-913 | the buffer becomes one sorted run; no record is lost or added |
| `PositionPostings.PositionPostings.MergeRuns` | source/motif/db/position_postings.cpp:1210-1254 | the merge loop writes the groups of exactly the set of spilled records, whatever least cursor the heap yields |
| `PositionPostings.PositionPostings.Finalize` | source/motif/db/position_postings.cpp:915-924 | finalize succeeds exactly when the grouped records are representable, and then, and only then, replaces the artifact by a file open accepts |
| `PositionPostings.PositionPostings.OpenIndex` | source/motif/db/position_postings.cpp:1399-1563 | the reader is open exactly on an acceptable file, with the tables stored in it; a failed open leaves the game count read from the header exactly when the first header words are right, and otherwise the old one |
| `PositionPostings.ArtifactIsDetermined` | source/motif/db/position_postings.cpp:927-1396 | the file is determined by the set of records and the metadata: spill threshold and append order do not matter |
| `PostingsAnswers.AnswersAreUnique` | source/motif/db/position_postings.cpp:1773-1814 | the strictly ascending, joined list of the rows with a hash is unique |
| `PostingsAnswers.OccurrencesAreAnswers` | source/motif/db/position_postings.cpp:1773-1814 | from a written file, every limit and offset of occurrences(h) is the page of the strictly ascending, deduplicated list of rows with hash h, joined with their games' metadata |
| `PostingsAnswers.GameIdsAreAnswers` | source/motif/db/position_postings.cpp:1678-1726 | from a written file, the distinct ids of h are ascending and exactly the games with a row of hash h |
| `PostingsAnswers.FirstsAreAnswers` | source/motif/db/position_postings.cpp:1728-1771 | from a written file, exactly the lowest-ply row of every requested game with hash h, in id order, joined |
| `PostingsAnswers.GroupsAreUnique` | source/motif/db/position_postings.cpp:1210-1251 | a set of records has one grouping by hash, game and ply |
| `PostingsBuild.ReplayGame` | source/motif/db/position_postings.cpp:751-784 | the rows of a game are its positions ply by ply, or io_failure for a game too long or an Elo too wide |
| `PostingsBuild.StoreRecordsAreFew` | source/motif/db/position_postings.cpp:736-822 | a storable game has at most 65536 records, so a store never comes near 2^48 records |
| `PostingsBuild.Build` | source/motif/db/position_postings.cpp:736-822 | build succeeds exactly for a positive threshold, storable games, a true count of an empty store and at most 2^32 - 1 occurrences of every position; then it leaves the index of the stored games, and otherwise the old file |
| `PostingsBuild.BuiltIndexAnswers` | source/motif/db/position_postings.cpp:736-822 | a built index answers every page of every hash from the list of (game, ply) pairs whose position has the hash |
| `Aggregation.ExternalAggregation.Add` | source/motif/db/opening_tree_index.cpp:751-763 | a contribution is added to the total of its key, and to no other |
| `Aggregation.ExternalAggregation.Spill` | source/motif/db/opening_tree_index.cpp:807-841 | spilling keeps every total |
| `Aggregation.Compact` | source/motif/db/opening_tree_index.cpp:807-841 | compacting a sorted buffer in place leaves one record per key and keeps every total |
| `Aggregation.MergeKey` | source/motif/db/opening_tree_index.cpp:935-1025 | one round of the merge takes all records of the least key and adds them up |
| `Aggregation.ExternalAggregation.Merge` | source/motif/db/opening_tree_index.cpp:935-1025 | the merged stream has ascending keys and, for every key, the total of everything added |
| `Aggregation.AggregateIsUnique` | source/motif/db/opening_tree_index.cpp:842-1025 | a stream with ascending keys is determined by its totals |
| `OpeningStats.AddIsLawful` | source/motif/db/opening_tree_index.cpp:690-705 | merge_edge_agg is commutative and associative, so the merge order does not show |
| `OpeningStats.WeightsAreExact` | source/motif/db/opening_tree_index.cpp:264-297 | with 16-bit Elos both weight sums over any games stay below 2^53 halves, so that the doubles of the source add them exactly and in any order |
| `OpeningStats.StatsAreUnique` | source/motif/db/opening_tree_index.cpp:1654-1679 | the naive per-edge statistics of a position determine the rows and their order |
| `OpeningMeaning.NaiveEdgeCounts` | source/motif/db/database_manager.cpp:303-438 | the aggregate of an edge, game by game, is that of the set of games that play it: their number, wins, draws and losses, sums and numbers of Elos, weights, least and greatest id, and the first ply |
| `OpeningMeaning.StatsAreMeant` | source/motif/db/database_manager.cpp:303-438 | rows are the naive statistics exactly when they are, ascending by move and child, one for each move and child some game plays from the position, and each says of the set of games that play it: how many, how many won, drawn and lost, the first ply, the least and greatest id, the means of White's and of Black's Elos over the rated, the mean score weighted by Elo, and how many games reach the child |
| `OpeningQueries.UncappedStats` | source/motif/db/database_manager.cpp:303-438 | for games the index takes, the naive statistics are those rows without any depth cap |
| `OpeningStats.NaiveEdgeOk` | source/motif/db/opening_tree_index.cpp:1044-1124 | an edge counts each game at most once, only games that visit both its ends, and covered plies only |
| `OpeningStats.CapIsHarmless` | source/motif/db/opening_tree_index.cpp:1088-1099 | for a position that no game reaches beyond the depth cap the capped aggregate is the uncapped one |
| `OpeningTreeBuilder.OpeningTreeBuilder.Replay` | source/motif/db/opening_tree_index.cpp:1044-1106 | replaying a game collects exactly its roots under the cap, its visited positions and its edges with their lowest ply; a game over 65536 moves fails |
| `OpeningTreeBuilder.OpeningTreeBuilder.Accumulate` | source/motif/db/opening_tree_index.cpp:1424-1445 | each accumulated game contributes once per root, edge and visited position; a failure poisons the builder |
| `OpeningTreeBuilder.OpeningTreeBuilder.Finalize` | source/motif/db/opening_tree_index.cpp:1447-1506 | finalize merges the three aggregations into the nodes of the games, and replaces the file only by a complete one |
| `OpeningTreeWriter.ChildFrequency` | source/motif/db/opening_tree_index.cpp:1149-1185 | the binary search on the count stream finds the count of a hash, or none |
| `OpeningTreeWriter.LoadReferenced` | source/motif/db/opening_tree_index.cpp:1196-1247 | the merge-join table holds the true count of every referenced child, or is empty when it would not fit |
| `OpeningTreeWriter.Frequency` | source/motif/db/opening_tree_index.cpp:1251-1262 | both lookups return the same count for every referenced child |
| `OpeningTreeWriter.MaterializeCounts` | source/motif/db/opening_tree_index.cpp:592-642 | an external count stream is taken exactly when strictly ascending and positive, and then unchanged |
| `OpeningTreeWriter.WriteNode` | source/motif/db/opening_tree_index.cpp:1337-1355 | the bytes of one node: its header and one record per edge, with the count of its child |
| `OpeningTreeWriter.WriteIndex` | source/motif/db/opening_tree_index.cpp:1266-1373 | the merge-join of roots and edges writes exactly the bytes of the header and of the nodes of the roots with all their edges, whichever lookup is used, and fails exactly when a child has no count |
| `OpeningTree.MergedIsRooted` | source/motif/db/opening_tree_index.cpp:1088-1099 | every merged edge starts at a merged root: the merge-join drops no edge |
| `OpeningTree.MergedIsAttachable` | source/motif/db/opening_tree_index.cpp:1319-1355 | every edge's child has a visit count no smaller than the edge's frequency |
| `OpeningTreeWidth.WidthOfRoot` | source/motif/db/opening_tree_index.cpp:1319-1340 | a root has as many continuations as the games have distinct recorded edges from it |
| `OpeningTreeWidth.TreeIsAcceptable` | source/motif/db/opening_tree_index.cpp:1569-1652 | the bytes of a built tree are accepted by open exactly when the games play fewer than 2^32 distinct recorded edges from every position |
| `OpeningTreeWidth.FewPliesAreNarrow` | source/motif/db/opening_tree_index.cpp:1569-1652 | that is so for all games with fewer than 2^32 plies in all, whatever the hashes |
| `OpeningTreeWidth.NodesAreNarrow` | source/motif/db/opening_tree_index.cpp:1569-1652 | and for any number of games with 16-bit moves and hashes that determine the child of a move |
| `OpeningTreeWidth.TooWide` | source/motif/db/opening_tree_index.cpp:1619-1622 | 2^32 - 1 games of two moves with colliding hashes whose built tree is not accepted, at any depth cap |
| `OpeningTreeWidth.BuiltNodesAreRead` | source/motif/db/opening_tree_index.cpp:1569-1679 | with 16-bit plies, moves and Elos the nodes read back from a built file are the built nodes, weights included |
| `OpeningTree.NodeStats` | source/motif/db/opening_tree_index.cpp:1654-1679 | the rows of a node, or none for a missing one, are the naive statistics under the depth cap, and say what holds of the games that play them; the node counts the games that stand there within the cap, and is complete exactly for the start position |
| `OpeningTree.MergedIsUnique` | source/motif/db/opening_tree_index.cpp:842-1025 | the merged streams are determined by the games |
| `OpeningTreeWidth.TreeBytesAreDetermined` | source/motif/db/opening_tree_index.cpp:1266-1373 | the bytes of the file are the same for every spill threshold, memory limit and source of child counts |
| `OpeningTreeBuilder.BuildTree` | source/motif/db/opening_tree_index.cpp:1513-1567 | build succeeds for every store of games short enough, and yields the tree of the games |
| `OpeningTreeBytes.ReadVarint` | source/motif/db/opening_tree_index.cpp:173-205 | the reading loop returns the payload of up to ten bytes that fits 64 bits |
| `OpeningTreeBytes.WrittenVarint` | source/motif/db/opening_tree_index.cpp:81-99 | every written varint is read back, whatever follows |
| `OpeningTreeBytes.VarintReaders` | source/motif/db/opening_tree_index.cpp:173-205 | unlike the postings' reader this one takes superfluous zero groups: they agree exactly on minimal encodings |
| `OpeningTreeBytes.FieldsAreRead` | source/motif/db/opening_tree_index.cpp:310-334 | a record of fixed-width words and varints is read back field by field |
| `OpeningTreeBytes.DoublesAreExact` | source/motif/db/opening_tree_index.cpp:158-171 | a sum of halves below 2^53 survives as an IEEE 754 double |
| `OpeningTreeFile.OpenTree` | source/motif/db/opening_tree_index.cpp:1569-1652 | open accepts exactly files with the right header whose bytes parse, to their end, as ordered nodes with plausible continuations, and indexes the offset of each node's continuations |
| `OpeningTreeFile.NodesTakeRoom` | source/motif/db/opening_tree_index.cpp:1590-1594 | a node takes at least eleven bytes: checking the node count against the file size rejects nothing that could be read |
| `OpeningTreeFile.WrittenIsRead` | source/motif/db/opening_tree_index.cpp:1569-1652 | the written bytes are read back as the nodes, weights below 2^53 included, and accepted exactly when the nodes pass the checks |
| `KnownFiles.KnownTree` | source/motif/db/opening_tree_index.cpp:1128-1140 | a tree file of one node and one continuation, byte for byte, doubles included |
| `OpeningTreeFile.ReadContinuation` | source/motif/db/opening_tree_index.cpp:310-361 | a continuation is read exactly when its fields are there and pass the plausibility checks, as the row it stands for and the offset behind it |
| `OpeningTreeFile.QueryTree` | source/motif/db/opening_tree_index.cpp:1654-1679 | query_opening_stats reads the rows of the node back from its stored offset, or returns none |
| `OpeningTreeFile.IsComplete` | source/motif/db/opening_tree_index.cpp:1691-1699 | a node is complete exactly when it is stored and flagged so |
| `PostingsReplay.CollectDirect` | source/motif/db/database_manager.cpp:327-348 | the direct contributions hold, for each game and edge, its lowest ply and the match there |
| `PostingsReplay.AggregateDirect` | source/motif/db/database_manager.cpp:350-386 | the aggregates are the sums of the direct contributions over the allowed games |
| `PostingsReplay.CountChildren` | source/motif/db/database_manager.cpp:397-411 | the local child counts are the allowed games that visit the child |
| `PostingsReplay.EmitRows` | source/motif/db/database_manager.cpp:413-437 | one row per aggregate in (move, child) order |
| `OpeningQueries.FilteredStats` | source/motif/db/database_manager.cpp:303-438 | the slow path over any allowed games: one row per move and child they play, saying what holds of the allowed games that play it, with child counts over the allowed or over all games |
| `OpeningQueries.ReplayedUnfiltered` | source/motif/db/database_manager.cpp:1413-1454 | the slow path over all visitors: the same over all games |
| `OpeningQueries.SummaryMeans` | source/motif/db/position_postings.cpp:1658-1676 | a summary of an up-to-date index counts the games that visit the position, and its maximal ply bounds every visit |
| `OpeningQueries.GameIdsMean` | source/motif/db/position_postings.cpp:1678-1726 | the distinct ids of an up-to-date index are the ids of the games that visit the position |
| `OpeningQueries.TreeAnswer` | source/motif/db/opening_tree_index.cpp:1654-1679 | an up-to-date tree answers with the statistics under its depth cap, and only the start position's node is complete |
| `OpeningQueries.QueryUnfiltered` | source/motif/db/database_manager.cpp:1413-1454 | whichever of its paths is taken, a successful answer has one row per move and child that stored games play from the position, saying what holds of the set of games that play it (`OpeningMeaning.StatsAreMeant`), unless the summary had to be read and could not be, which is exactly at a position the tree does not hold complete; then the answer is empty, and right exactly where no game plays on. It succeeds exactly when the postings are valid and count as many games as are stored; a tree that counts other games is not asked |
| `OpeningQueries.EmptyIsStats` | source/motif/db/database_manager.cpp:1443-1446 | an empty answer is right for exactly the positions from which no game plays a move |
| `OpeningQueries.SummariesAreVisits` | source/motif/db/database_manager.cpp:1233-1240 | the stream of an up-to-date postings index is what the internal visit counter would have counted |
| `GameSearch.SelectedPage` | source/motif/db/database_manager.cpp:1571-1577 | selecting the games of a page of ascending stored ids is the page of selecting the games of all ids |
| `GameSearch.PathsAgree` | source/motif/db/database_manager.cpp:1561-1593 | for every eligible filter (limit 0, limits over 500 and offsets past the end included) the fast path answers what the slow path answers exactly when the offset fits SQLite's integers or no game reaches the position |
| `GameSearch.PageMeans` | source/motif/db/game_store.cpp:1072-1133 | the total is the number of stored games that reach the position and match, and the page the slice of at most 500 from the offset on of exactly those games in the order asked for; only an offset beyond SQLite's integers is refused, for a filtered or reordered search with visitors |
| `GameSearch.FindGames` | source/motif/db/database_manager.cpp:1542-1594 | for any filter the total is the number of games that reach the position and match, and the page the slice of at most min(limit, 500) of them from the offset on, in the order asked for; the exact refusals are those of `GameSearch.PageMeans` |
| `EloDistribution.BucketIsMultiple` | source/motif/db/database_manager.cpp:246-247 | both range ends are multiples of the bucket width, for negative averages too |
| `EloDistribution.BucketIsRange` | source/motif/db/database_manager.cpp:246-247 | a game's bucket is the multiple of the width, in inequalities on the sum of its two Elos, that their average towards zero lies in: [floor, floor + width) above zero, (floor - width, floor] below, (-width, width) at zero |
| `EloDistribution.BucketedIsDistribution` | source/motif/db/database_manager.cpp:205-291 | counting by computed bucket is counting by those ranges |
| `EloDistribution.ZeroFill` | source/motif/db/database_manager.cpp:267-289 | the zero-fill loop ends, and lists every bucket from the first to the last, one width apart |
| `EloDistribution.CollectBuckets` | source/motif/db/database_manager.cpp:230-257 | the buckets count each game once per move it plays from the position |
| `EloDistribution.Distribution` | source/motif/db/database_manager.cpp:205-291 | rows are contiguous per move at multiples of the width; each counts exactly the allowed rated games that play its move with an average in its range, and how many of them were won, drawn and lost; every such game lies in some row, and no row outside the range its move was played in |
| `EloDistribution.CountsSumToPlayers` | source/motif/db/database_manager.cpp:205-291 | over the rows of a move the counts sum to the distinct allowed rated games that play it, and each row's outcomes to its count |
| `EloDistribution.QueryDistribution` | source/motif/db/database_manager.cpp:1365-1411 | the same over the stored games that match the filter |
| `Bundle.Disk.Put` | source/motif/db/database_manager.cpp:1125-1160 | a file is only created or replaced while the manifest does not name it; at any crash the bundle stays in order |
| `Bundle.Disk.Rename` | source/motif/db/database_manager.cpp:1160-1180 | the same for renaming a staged file |
| `Bundle.Disk.WriteManifest` | source/motif/db/manifest.cpp:89-136 | the manifest is replaced atomically or not at all, and only by one that keeps the bundle in order |
| `Bundle.Disk.Commit` | source/motif/db/database_manager.cpp:911-922 | games change in one transaction, and only when no entry of the manifest would then be untrue |
| `Bundle.NoneRemoved` | source/motif/db/database_manager.cpp:954-963 | games that all come from the indexed ones, and as many, are the indexed ones |
| `Bundle.GamesRemoved` | source/motif/db/game_writer.cpp:649-673 | removing games leaves every entry of the manifest an index of the remaining games or of more |
| `DatabaseManager.CountedIsCurrent` | source/motif/db/database_manager.cpp:954-963 | an index of the stored games or of more whose header counts as many games is the index of the stored games |
| `DatabaseManager.DatabaseManager.PostingsValid` | source/motif/db/database_manager.cpp:954-963 | the gate of every query: open postings of the current generation with the right count answer for the games now stored |
| `DatabaseManager.DatabaseManager.MarkDerivedIndexesStale` | source/motif/db/database_manager.cpp:965-999 | on success no entry is named any more and the generation is one higher; the bundle is in order at every crash |
| `DatabaseManager.DatabaseManager.PrepareCanonicalMutation` | source/motif/db/database_manager.cpp:1006-1013 | a mutation may go on only once nothing derived is named |
| `DatabaseManager.DatabaseManager.Publish` | source/motif/db/database_manager.cpp:1019-1053 | a file is named under the next build number, which no named file has, or the manifest stays |
| `DatabaseManager.DatabaseManager.RebuildPositionPostings` | source/motif/db/database_manager.cpp:1125-1198 | staging, trial open, rename, publication and reader swap keep disk and memory in order; success names the next build and opens it on the index of the games now stored, and a failure leaves either that or the old entry with its old reader |
| `DatabaseManager.DatabaseManager.RebuildOpeningTreeIndex` | source/motif/db/database_manager.cpp:1208-1282 | the same for the tree, built from valid postings only |
| `DatabaseManager.DatabaseManager.Open` | source/motif/db/database_manager.cpp:764-871 | open leaves readers only on intact files, rebuilds postings that are missing or count other games, succeeds only with a reader that answers for the games now stored, and changes no game |
| `DatabaseManager.DatabaseManager.Create` | source/motif/db/database_manager.cpp:679-762 | a created bundle is empty and connected with a postings reader, or nothing is connected |
| `DatabaseManager.DatabaseManager.Close` | source/motif/db/database_manager.cpp:628-659 | close lets go of everything and keeps the bundle in order |
| `DatabaseManager.DatabaseManager.InsertGame` | source/motif/db/database_manager.cpp:911-922 | a successful insert leaves the old games and behind them the new one, numbered one above the last id, with nothing derived named; a failed one changes no game |
| `DatabaseManager.DatabaseManager.RemoveGame` | source/motif/db/database_manager.cpp:1335-1346 | after a successful removal a game is stored exactly when it was and has another id, in the old order, and some game had the id; a failed one changes no game |
| `DatabaseManager.DatabaseManager.PatchGame` | source/motif/db/database_manager.cpp:1300-1333 | after a successful patch every game has its id and moves, and result and Elos are the new values where given for the game of the id, the old ones otherwise; a patch that touches nothing indexed keeps manifest and readers |
| `DatabaseManager.DatabaseManager.Reconcile` | source/motif/import/import_pipeline.cpp:286-302 | a resumed import removes exactly the games of the given ids while the manifest may still name indexes of more games; the bundle stays in order |
| `DatabaseManager.DatabaseManager.Import` | source/motif/import/import_pipeline.cpp:308-700 | an import gives up the derived indexes before its first batch; however it ends the store has the old games and behind them those of the batches taken, numbered on, with exactly the duplicates missing once a raw import is reconciled; when it is not stopped it leaves postings that answer for the games now stored |
| `DatabaseManager.DatabaseManager.QueryPositionMatches` | source/motif/db/database_manager.cpp:1055-1076 | a successful query is the requested slice of the list of every (game, ply) at which the position stands now, by game and ply, with the game's result and Elos; while connected it succeeds exactly when a reader is open that counts as many games as are stored |
| `DatabaseManager.DatabaseManager.QueryUnfilteredOpeningStats` | source/motif/db/database_manager.cpp:1413-1454 | a successful query whose summary read did not fail says of every move what holds of the games now stored that play it; after a failed one it is empty, and right exactly where no game plays on |
| `DatabaseManager.DatabaseManager.FindGames` | source/motif/db/database_manager.cpp:1542-1594 | a successful search has the total and the slice of the games now stored that reach the position and match; while connected it succeeds exactly when a reader counts as many games as are stored and the offset is not refused |
| `DatabaseManager.DatabaseManager.QueryEloDistribution` | source/motif/db/database_manager.cpp:1365-1411 | a successful query is the distribution over the games now stored that match; for a positive width and while connected it succeeds exactly when a reader counts as many games as are stored |
| `DatabaseRuns.Run` | source/motif/db/database_manager.cpp:628-1454 | over any run of sessions, commands (imports and their reconciliations among them), failures and process crashes from an empty directory, every successful query answers for the games stored at that moment (opening statistics behind a failed summary read are empty, and right exactly where no game plays on), and the bundle is in order at the end |
| `GameIdentity.RawThenDedup` | source/motif/db/game_writer.cpp:155-176 | deduplicating a list after appending games raw is inserting them checked into the deduplicated list |
| `GameIdentity.DedupIsFirstCopies` | source/motif/db/game_writer.cpp:155-160 | deduplication keeps exactly the games no earlier one of which agrees in White, Black, event, date (absent as empty), result and moves, in order and as they are |
| `GameWriter.GameWriter.Insert` | source/motif/db/game_writer.cpp:406-523 | a checked insert rejects a game exactly when some row has equal White, Black, event, date (absent as empty), result and moves; it fails exactly for other games that repeat a tag name, undone only in a transaction of its own; otherwise it adds one row with the next id and one collision number above those of the rows that agree in the first five fields and the move hash |
| `GameWriter.NextIsAbove` | source/motif/db/game_writer.cpp:123-128 | the next collision number is one above the greatest of the rows that agree in the first five fields and the move hash, or zero |
| `GameWriter.GameWriter.InsertRaw` | source/motif/db/game_writer.cpp:525-637 | a raw insert adds one row with collision number 0; it fails exactly for games that repeat a tag name and, while the identity index is there, for games that agree in the first five fields and the move hash with a row numbered 0 |
| `GameWriter.ClashesWhenStored` | source/motif/db/schema.cpp:103-111 | in a reconciled table collision number 0 of an identity is taken exactly when some game of that identity is stored |
| `GameWriter.GameWriter.Deduplicate` | source/motif/db/game_writer.cpp:649-673 | deduplicate reconciles the table (`GameWriter.ReconciledIs`) and creates the index, all or nothing, and reports the rows removed |
| `GameWriter.ReconciledIs` | source/motif/db/game_writer.cpp:155-176 | a row goes exactly when one of lower id agrees with it in all six fields, and then such a one stays; the others keep id and game, no two of them agree in all six, and each is numbered by how many before it agree in the first five and the move hash |
| `GameWriter.ReconciledIsOk` | source/motif/db/game_writer.cpp:155-176 | reconciliation keeps the first copy of every game, numbers collisions 0, 1, 2, ... in id order, and leaves a table on which the unique index can be created |
| `GameWriter.RawImportIsCheckedImport` | source/motif/db/game_writer.cpp:406-673 | for every list of games, raw inserts without the index and one deduplicate give the games, payloads and collision numbers of checked inserts, ids up to order, which are the first copies of the table and the list, field by field; as many rows are removed as inserts were rejected exactly when no game rejected as a duplicate repeats a tag name |
| `GameWriter.RepeatedTagsDiffer` | source/motif/db/game_writer.cpp:525-637 | a second copy of a stored game whose tags repeat a name is rejected as a duplicate by insert but fails in insert_raw, so that nothing is removed |
| `NameCaches.SameIdsMeansSameGame` | source/motif/db/game_writer.cpp:133-139 | comparing rows by player and event id is comparing games by name |
| `NameCaches.NameCachingWriter.FindOrInsert` | source/motif/db/game_writer.cpp:287-358 | every id returned or cached names a row with that name in the connection's view |
| `NameCaches.NameCachingWriter.InsertTags` | source/motif/db/game_writer.cpp:360-404 | one tag row per extra tag, in order and under its own name; for a new game and without a failed statement it succeeds exactly when the names are distinct |
| `NameCaches.NameCachingWriter.Insert` | source/motif/db/game_writer.cpp:406-637 | a successful insert adds exactly the game's row and tags, naming what the game names; without a failed statement the outcome is duplicate when some row agrees in all six fields, success for distinct tag names, and a failure otherwise; a failure commits nothing and leaves coherent caches |
| `NameCaches.NameCachingWriter.RollbackTransaction` | source/motif/db/game_writer.cpp:278-285 | after a rollback no id is cached |
| `NameCaches.Run` | source/motif/db/game_writer.cpp:262-637 | over any interleaving of begin, insert, insert_raw, commit and rollback, with any statement failing, caches are coherent and every game row names its names |
| `ImportPipeline.ResumesExactly` | source/motif/import/pgn_reader.cpp:163-219 | reading resumes at the entry asked for exactly when that entry begins with an Event line, or is the end of the file |
| `ImportPipeline.SeekToOffset` | source/motif/import/pgn_reader.cpp:163-219 | the seek stops at the first Event line at or behind the offset, and fails when there is none inside the file |
| `ImportPipeline.UntaggedIsSkipped` | source/motif/import/pgn_reader.cpp:163-219 | an entry without an Event line is lost by an import that resumes at it |
| `ImportPipeline.Stage2Keeps` | source/motif/import/import_pipeline.cpp:499-604 | whichever statements fail for an entry, everything before the checkpoint is committed; and unless games were rolled back the import can go on |
| `ImportPipeline.ImportPipeline.Step` | source/motif/import/import_pipeline.cpp:499-604 | the statements of the last stage come to the function, and a crash between them leaves the old table, or the new one with the old or new checkpoint |
| `ImportPipeline.ImportPipeline.ProcessToken` | source/motif/import/import_pipeline.cpp:499-604 | one entry of the file keeps what the checkpoint claims committed, whatever fails and wherever it crashes |
| `ImportFaults.TruthfulRun` | source/motif/import/import_pipeline.cpp:565-604 | after any run of entries with any failures, with one slot or with none that rolls games back, every valid game before the checkpoint is committed |
| `ImportFaults.BatchIsLost` | source/motif/import/import_pipeline.cpp:565-576 | with two slots or more: the commit of a full batch fails, the entry in flight is inserted on its own, and the checkpoint written behind it names the lost games as imported |
| `ImportFaults.SlotsDecide` | source/motif/import/import_pipeline.cpp:565-604 | for every file with games behind its first batch, no failures make a checkpoint untruthful exactly when there is one slot |
| `ImportPipeline.ImportPipeline.RunFrom` | source/motif/import/import_pipeline.cpp:308-700 | with one slot, or unless games are rolled back with others in flight, and whatever else fails: a completed run leaves the index and the rows of one pass of checked inserts over the file, which are the first copies of the old table and the file, field by field, numbered as such |
| `ImportPipeline.ImportPipeline.ResumeFromCheckpoint` | source/motif/import/import_pipeline.cpp:270-305 | a resumed run that completes leaves the same, also when a crash left raw rows behind |
| `ImportPipeline.ImportPipeline.Run` | source/motif/import/import_pipeline.cpp:237-258 | run resumes from the checkpoint of the file if there is one |
| `ImportPipeline.Attempts` | source/motif/import/import_pipeline.cpp:237-305 | for a file whose entries begin with an Event line, over any sequence of runs, resumptions, cancellations, failures and crashes, none of which rolls games back with others in flight, every checkpoint has all earlier valid games durably in the table, and every completed attempt leaves the checked import of the file |
| `MarkerScan.MarkersDoNotOverlap` | source/motif/import/import_pipeline.cpp:54 | two event markers never overlap |
| `MarkerScan.CountIn` | source/motif/import/import_pipeline.cpp:92-103 | the search loop, which skips whole markers, counts every one |
| `MarkerScan.CountGames` | source/motif/import/import_pipeline.cpp:56-120 | the count is the number of positions from the start offset on at which the file reads [Event and a quotation mark, for every file and every buffer size |
| `PrefixPostings.BucketIsCandidates` | source/motif/db/position_prefix_postings.cpp:367-377 | the bucket of a prefix lists, ascending, exactly the games with a record under it |
| `PrefixPostings.PrefixIsInterval` | source/motif/db/position_prefix_postings.cpp:379-383 | two hashes share the prefix exactly when they lie in one of the 2^bits equal intervals of the 64-bit hashes |
| `PrefixPostings.CountInMemory` | source/motif/db/position_prefix_postings.cpp:141-148 | counting ahead and summing in place gives the offset of every bucket |
| `PrefixPostings.MergeRuns` | source/motif/db/position_prefix_postings.cpp:246-270 | the streaming merge writes the ids and bucket counts of exactly the set of spilled records |
| `PrefixPostings.PrefixPostings.Finalize` | source/motif/db/position_prefix_postings.cpp:126-318 | in memory or by external merge, the file is the one determined by the set of records |
| `PrefixPostings.FileIsDetermined` | source/motif/db/position_prefix_postings.cpp:135-318 | the same records give the same file on both paths |
| `PrefixPostings.WrittenIsAcceptable` | source/motif/db/position_prefix_postings.cpp:320-365 | every written file is accepted and read back whole |
| `KnownFiles.KnownSidecarFile` | source/motif/db/position_prefix_postings.cpp:148-180 | a sidecar of two buckets, byte for byte |
| `PrefixPostings.PrefixPostings.Open` | source/motif/db/position_prefix_postings.cpp:320-365 | open accepts exactly files with the right header, rising offsets from 0 to the count, and room for both tables; bytes after them are ignored |
| `PrefixPostings.PrefixPostings.Candidates` | source/motif/db/position_prefix_postings.cpp:367-377 | an error exactly when no tables are there; otherwise both offsets of the bucket are in range and the answer is the ids between them, whose meaning `PrefixPostings.Ask` states |
| `PrefixPostings.PrefixPostings.StaleUntilOpened` | source/motif/db/position_prefix_postings.cpp:309-318 | after an external merge and before open, the slice of a hash is in range exactly when its interval ends before the hashes of all rows, and then its empty answer is right |
| `PrefixPostings.Ask` | source/motif/db/position_prefix_postings.cpp:79-383 | append, finalize, open and candidates: for every threshold the answer is strictly ascending and exactly the games with a row whose hash lies in the same of the 2^bits equal intervals of 64-bit hashes |

## Left out

- Stream, seek and disk-space failures while an index file is written or read; in `DatabaseManager` a build or a file operation may fail at any point.
- Spill files are record sequences, not bytes. Averages are exact reals.
- `OpeningStats.AddIsLawful`: sums are exact integers; the doubles of the source agree below 2^53 halves (`OpeningStats.WeightsAreExact`), which 16-bit Elos guarantee; rounding beyond that is not modelled.
- `OpeningTreeFile.ReadContinuation`: the two weights are those of halves of integers; words for other doubles, which no writer produces, are read as some integer.
- `Aggregation.ExternalAggregation.Merge`: one generic class stands for three merge loops written out in the source, with `std::sort` as an insertion sort and equal keys in any order.
- SQL text, prepared statements, and joins on names: statements act on row sequences, with atomic commit. `GameWriter` compares games by name; `NameCaches` relates names to ids and lets any statement fail.
- `ImportPipeline.ImportPipeline.RunFrom`: asks for one slot where inserts and batch commits may fail, because of `ImportFaults.BatchIsLost`; entries in flight when reading ends may each get through or not.
- `ImportPipeline.Attempts`: asks the same, and for a file whose entries begin with an Event line, because others are lost on resumption (`ImportPipeline.UntaggedIsSkipped`); a checkpoint names an entry, and neither lexing nor the parallel parsing stage, which changes no state, is modelled.
- `DatabaseManager.DatabaseManager.Create`: does not model the removal of a half-created bundle.
- `Bundle.Disk.WriteManifest`: does not model a power loss after a publication whose directory sync failed; only the process crashes.
- Damage to files other than by a crash: the checksum is an arbitrary function of the content.
- Bundle and generation locks, build metrics, timings, logging, worker counts.
- Negative Elos in the opening tree, whose writer stores sums as unsigned; `EloDistribution` allows them.
- `OpeningTreeWidth.NodesAreNarrow`: assumes hashes that determine the child of a move; `OpeningTreeWidth.TreeIsAcceptable` has the exact condition without it.
- The text of imported games is not linked to the games the indexes replay: to `DatabaseManager.DatabaseManager.Import` a batch is any list of storable games, and reconciliation removes any of them. Player, event and provenance columns do not affect an index.
- The filter conditions of a search are an arbitrary predicate, and orders other than by ascending id an arbitrary permutation of the rows.
- `query_position_first_matches` and `position_summary` of the manager, which only guard the postings methods modelled here.
- `source/motif/search/opening_tree.cpp`, the HTTP server, the user interface, the engine manager and the configuration.
