/** When a file fits the format: its size is linear in its records, so only the per-hash counts can be too large. */
module ArtifactSize {
  import opened Words
  import opened SortedRuns
  import opened PostingBlock
  import opened PostingOrder
  import opened PostingsFile
  import opened PostingsArtifact
  import opened PostingsAnswers
  import DirectoryBlock
  import Uleb128

  /** Far more (hash, game, ply) records than any store can hold. */
  const MAX_RECORDS: nat := 0x1_0000_0000_0000

  const GROUP_BYTES: nat := 12

  lemma {:induction false} PliesSize(prev: nat, plies: seq<nat>)
    requires RisingFrom(prev, plies)
    ensures |EncodePlies(prev, plies)| <= 3 * |plies|
    decreases |plies|
  {
    if plies != [] {
      hide Uleb128.Encode;
      Uleb128.EncodedSize(PlyDelta(plies[0], prev));
      PliesSize(plies[0], plies[1..]);
    }
  }

  lemma GroupSize(prev: nat, g: GameGroup)
    requires ValidGroup(g) && prev < g.id <= U32_MAX
    ensures |EncodeGroup(prev, g)| <= GROUP_BYTES * |g.plies|
  {
    hide Uleb128.Encode, EncodePlies;
    Uleb128.EncodedSize(Delta(g.id, prev));
    RisingLength(g.plies[0], g.plies[1..]);
    Uleb128.EncodedSize(|g.plies|);
    Uleb128.EncodedSize(g.plies[0]);
    PliesSize(g.plies[0], g.plies[1..]);
  }

  /** A posting block has at most twelve bytes per occurrence. */
  lemma {:induction false} BlockBytes(prev: nat, gs: seq<GameGroup>)
    requires ValidGroups(prev, gs)
    ensures |EncodeGroups(prev, gs)| <= GROUP_BYTES * |Occurrences(gs)|
    decreases |gs|
  {
    if gs != [] {
      hide EncodeGroup, ValidGroup;
      GroupSize(prev, gs[0]);
      BlockBytes(gs[0].id, gs[1..]);
      OccurrencesCons(gs[0], gs[1..]);
      assert [gs[0]] + gs[1..] == gs;
    }
  }

  lemma {:induction false} PostingSectionSize(gs: seq<HashGroup>)
    requires ValidHashGroups(gs)
    ensures |PostingBytes(gs)| <= GROUP_BYTES * |GroupRecords(gs)|
    ensures |gs| <= |GroupRecords(gs)|
  {
    if gs != [] {
      hide EncodeGroups, Occurrences, ValidGroups;
      var last := gs[|gs| - 1];
      PostingSectionSize(gs[..|gs| - 1]);
      BlockBytes(0, last.games);
      SomeOccurrence(last);
    }
  }

  lemma SomeOccurrence(g: HashGroup)
    requires ValidHashGroup(g)
    ensures |Occurrences(g.games)| >= 1
  {
    hide ValidGroups;
    BlockLength(0, g.games);
  }

  const BLOCK_BYTES: nat := 16717

  lemma BlockIsSmall(es: seq<Entry>)
    requires 0 < |es| <= DirectoryBlock.MAX_ENTRIES && DirectoryBlock.Linked(es)
    ensures |DirectoryBlock.Encode(es)| <= BLOCK_BYTES
  {
    hide DirectoryBlock.Encode, DirectoryBlock.Linked;
    DirectoryBlock.BlockSize(es);
  }

  predicate Linkable(blocks: seq<seq<Entry>>) {
    forall i :: 0 <= i < |blocks| ==> 0 < |blocks[i]| <= DirectoryBlock.MAX_ENTRIES && DirectoryBlock.Linked(blocks[i])
  }

  lemma {:induction false} DirectorySectionSize(blocks: seq<seq<Entry>>)
    requires Linkable(blocks)
    ensures |DirectoryBytes(blocks)| <= BLOCK_BYTES * |blocks|
  {
    if blocks != [] {
      hide DirectoryBlock.Encode, DirectoryBlock.Linked;
      var n := |blocks| - 1;
      assert forall i :: 0 <= i < n ==> blocks[..n][i] == blocks[i];
      DirectorySectionSize(blocks[..n]);
      BlockIsSmall(blocks[n]);
    }
  }

  lemma {:induction false} IdBound(records: seq<MetadataRecord>, i: nat)
    requires ValidRecords(records) && i < |records|
    ensures i < records[i].id
  {
    if i > 0 {
      IdBound(records, i - 1);
    }
  }

  lemma MetadataIsSmall(records: seq<MetadataRecord>)
    requires ValidRecords(records)
    ensures |records| <= U32_MAX
  {
    if records != [] {
      IdBound(records, |records| - 1);
    }
  }

  lemma DirectoryIsSmall(gs: seq<HashGroup>)
    requires ValidHashGroups(gs) && |GroupRecords(gs)| <= MAX_RECORDS
    ensures HEADER_SIZE + |PostingBytes(gs)| <= HEADER_SIZE + GROUP_BYTES * MAX_RECORDS
    ensures |BlocksOf(EntriesOf(gs))| <= MAX_RECORDS
    ensures |DirectoryBytes(BlocksOf(EntriesOf(gs)))| <= BLOCK_BYTES * MAX_RECORDS
  {
    hide EntriesOf, BlocksOf, PostingBytes, DirectoryBytes, GroupRecords, ValidHashGroups, DirectoryBlock.Linked, DirectoryOk, PostingEnd, OccurrenceTotal;
    PostingSectionSize(gs);
    EntriesLink(gs);
    var blocks := BlocksOf(EntriesOf(gs));
    BlocksLink(EntriesOf(gs));
    BlocksPartition(EntriesOf(gs));
    assert Linkable(blocks);
    DirectorySectionSize(blocks);
  }

  /** Up to 2^48 records no offset or size of the file comes near the limits of the format. */
  lemma SectionsFit(gs: seq<HashGroup>, records: seq<MetadataRecord>, indexedGames: nat)
    requires ValidHashGroups(gs) && ValidRecords(records) && |GroupRecords(gs)| <= MAX_RECORDS
    ensures HeaderOf(gs, records, indexedGames).sparseOffset <= STREAM_MAX
    ensures |Artifact(gs, records, indexedGames)| <= U64_MAX
  {
    hide EntriesOf, BlocksOf, PostingBytes, DirectoryBytes, GroupRecords, ValidHashGroups, Artifact, ValidRecords, Holds;
    hide EncodeHeader, EncodeMetadata, EncodeSparse, SparseOf;
    DirectoryIsSmall(gs);
    MetadataIsSmall(records);
    SectionsHold(gs, records, indexedGames);
  }

  lemma RepresentableCounts(gs: seq<HashGroup>, records: seq<MetadataRecord>, indexedGames: nat)
    requires ValidHashGroups(gs) && ValidRecords(records) && |GroupRecords(gs)| <= MAX_RECORDS
    ensures Representable(gs, records, indexedGames) <==> indexedGames == |records| && GroupCountsFit(gs)
  {
    hide HeaderOf, Artifact, ValidHashGroups, ValidRecords, GroupRecords, GroupCountsFit;
    SectionsFit(gs, records, indexedGames);
  }

  // The counts, in terms of the set of records.

  ghost function RecordsAt(rows: set<Triple>, hash: nat): set<Triple> {
    set t | t in rows && t.first == hash
  }

  ghost predicate CountsFit(rows: set<Triple>) {
    forall hash: nat :: |RecordsAt(rows, hash)| <= U32_MAX
  }

  lemma RecordsOfGroup(gs: seq<HashGroup>, i: nat)
    requires ValidHashGroups(gs) && i < |gs|
    ensures |RecordsAt(Elements(GroupRecords(gs)), gs[i].hash)| == |Occurrences(gs[i].games)|
  {
    hide Occurrences, GroupRecords, GamesOf, StrictlySorted, HashRecords;
    var g := gs[i];
    GamesOfPresent(gs, i);
    HashRecordsAscend(g);
    DistinctElements(HashRecords(g));
    assert |HashRecords(g)| == |Occurrences(g.games)| by { HashRecordsLength(g); }
    forall t
      ensures t in RecordsAt(Elements(GroupRecords(gs)), g.hash) <==> t in Elements(HashRecords(g))
    {
      RecordIn(gs, t);
      HashRecordIn(g, t);
    }
    assert RecordsAt(Elements(GroupRecords(gs)), g.hash) == Elements(HashRecords(g));
  }

  lemma HashRecordsLength(g: HashGroup)
    ensures |HashRecords(g)| == |Occurrences(g.games)|
  {
  }

  lemma CountsInGroups(gs: seq<HashGroup>)
    requires ValidHashGroups(gs)
    ensures GroupCountsFit(gs) <==> CountsFit(Elements(GroupRecords(gs)))
  {
    hide Occurrences, GroupRecords, ValidHashGroups, RecordsAt;
    forall i | 0 <= i < |gs|
      ensures |RecordsAt(Elements(GroupRecords(gs)), gs[i].hash)| == |Occurrences(gs[i].games)|
    {
      RecordsOfGroup(gs, i);
    }
    forall hash: nat | forall i :: 0 <= i < |gs| ==> gs[i].hash != hash
      ensures RecordsAt(Elements(GroupRecords(gs)), hash) == {}
    {
      NoRecordsAt(gs, hash);
    }
    forall hash: nat | GroupCountsFit(gs)
      ensures |RecordsAt(Elements(GroupRecords(gs)), hash)| <= U32_MAX
    {
      if i :| 0 <= i < |gs| && gs[i].hash == hash {
        assert |RecordsAt(Elements(GroupRecords(gs)), gs[i].hash)| == |Occurrences(gs[i].games)|;
      }
    }
  }

  lemma NoRecordsAt(gs: seq<HashGroup>, hash: nat)
    requires ValidHashGroups(gs) && forall i :: 0 <= i < |gs| ==> gs[i].hash != hash
    ensures RecordsAt(Elements(GroupRecords(gs)), hash) == {}
  {
    hide GroupRecords, GamesOf, Occurrences, ValidHashGroups;
    forall t
      ensures t !in RecordsAt(Elements(GroupRecords(gs)), hash)
    {
      RecordIn(gs, t);
    }
  }

  /**
   * For up to 2^48 records, the file the writer produces passes the reader's checks exactly when the game count in its header is that of
   * the metadata table and no hash has more than 2^32 - 1 records.
   */
  lemma RepresentableExactly(gs: seq<HashGroup>, records: seq<MetadataRecord>, indexedGames: nat, rows: set<Triple>)
    requires ValidHashGroups(gs) && ValidRecords(records) && rows == Elements(GroupRecords(gs)) && |rows| <= MAX_RECORDS
    ensures Representable(gs, records, indexedGames) <==> indexedGames == |records| && CountsFit(rows)
  {
    hide GroupRecords, ValidHashGroups, ValidRecords, Representable, GroupCountsFit, CountsFit, StrictlySorted;
    GroupRecordsAscend(gs);
    DistinctElements(GroupRecords(gs));
    RepresentableCounts(gs, records, indexedGames);
    CountsInGroups(gs);
  }
}
